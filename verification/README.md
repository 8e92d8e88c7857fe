# ferroDAC data plane in Dafny

This project models the data-plane algorithms of ferroDAC and the protocols around them, and
proves what every call, every run and every interleaving of them keeps. Times and values are
exact reals; `Values.Val` adds NaN (a break in a curve) and the two infinities where the code
gives them a meaning. Code that works in place is a class or a method over arrays, tied by its
`ensures` to functions on values; the laws are proved of those functions.

| area | files | main results |
|---|---|---|
| chart buffer (`core/plotbuffer.py`) | CurveBuffer, CurveBufferClass | in every reachable state the buffer is the accepted history read through one non-decreasing index map; when the shrink loop ends, when a break survives, when both extremes survive |
| interval algebra (`store/intervals.py`) | Intervals, GapSplit | merge is canonical; intersect and subtract are the point-set operations; length is conserved; the gap finder reaches its fixed point; splitting owns every sample once |
| prefetch cache (`store/prefetch.py`) | PrefetchSpec, PrefetchCache | any interleaving of fetches, focus changes, clears and evictions leaves a cache that answers like the hub inside its advertised coverage; a fetch advertises exactly its range, an eviction cuts to the first window that fits |
| envelope pyramid (`store/decimate.py`) | Decimate | levels compose for every length, padding and NaN included, exactly where no fine bucket hides a value; bucket times stay in order |
| bus and worker lanes (`core/bus.py`) | PumpSpec, BusSpec, Bus | lossless lanes deliver everything in order from publish to sink; conflating lanes keep an ordered selection with the newest reading and exact accounting |
| NNLS fallback and pruning (`analysis/deconvolve.py`) | Nnls, Pruning | every update descends; the fixed points of a sweep are exactly the constrained minimisers; each coordinate is solved up to the padding; what pruning leaves is sparse |
| CSV merge (`store/export.py`) | Export | no sample is lost, row times are ordered, one instant gets as many rows as its largest multiplicity |
| tag store (`core/markers.py`) | TagSpec, TagStore | replicas converge exactly when the newest versions agree; versions drop in exactly one case |
| video store and sync (`core/videostore.py`, `core/videosync.py`) | VideoSpec, VideoQueries, VideoStore | what one pass delivers, what a second one does, coverage, retention, backfill |
| LSC line protocol (`devices/lsc.py`) | Text, Framing, LscReader, AskCodec, PromptDesk | framing does not depend on how the bytes were cut; each line reaches its own channel; ask lines round-trip; each prompt is resolved at most once |

## Where the code does not do what it says

The model follows the code. Each point below has its exact condition proved.

- `append`: the shrink loop never ends for a batch of exactly `cap` samples on a non-empty buffer
  (plotbuffer.py:67 and 71). `CurveSpec.ShrinkLoopEnds`; `CurveBuffer.Append` requires `Fits`.
- `append`: a batch above the cap is cut lane by lane, so lanes of different length come out
  mismatched (plotbuffer.py:67-69). `CurveSpec.WholeExactly`.
- `_decimate`: the right edge is not pinned (docstring, plotbuffer.py:106-107).
  `CurveSpec.RightEdge`. Bucket 0 keeps both extremes only if sample 0 is one of them.
- `trim`: on an x lane that is not in order, which `append` accepts, the bisection can drop recent
  samples and keep old ones. `CurveSpec.TrimmedExactly`.
- `append`: with fewer than three free slots beside the batch the shrink loop can drop the only
  break in the buffer. `CurveSpec.BreakKeptExactly`.
- `subtract`: a hole with crossed endpoints can leave overlapping pieces (still the right point
  set). `Intervals.MinusTidyExactly`; `Intervals.CrossedHoleOverlaps` is an instance.
- `split_intervals`: below three samples nothing is ever split. `GapSplit.SplitCutsAtGaps`.
- `downsample`: a fine bucket whose min lane is all breaks hides the values of its max lane, so the
  levels need not compose (decimate.py:10-11 says they do). `Decimate.ComposesExactly`,
  `Decimate.ComposesForAllFactors`.
- `add_scalar`: the first fetch of a series is stored as it arrives, neither sorted nor without
  duplicates (prefetch.py:37 says sorted, 92). `PrefetchSpec.IngestedFacts`.
- `_evict_locked`: with `keep_s` below 30 nothing is ever evicted. `PrefetchSpec.EvictedOutcome`.
- `_Pump.put`: with `conflate_max` below 1 the slice `merged[-m:]` keeps the wrong part and the
  drop count no longer adds up (bus.py:80-82). `PumpSpec.AccountingIffCap`.
- `_solve_full`: a sparsity above 1 never prunes anything. `Pruning.SolveFull`, `Pruning.HighBar`.
- `add` under an existing id resets the version (markers.py:99-105), the one way a version drops.
  `TagSpec.VersionDropsOnlyByClobber`. `upsert` says ties accept the incoming write; two live tags
  of one version do not (markers.py:163-165).
- `sync_once`: an empty but readable file is flagged confirmed and counted on every pass although
  `import_segment` stores nothing (videostore.py:234). `VideoSpec.PassDelivers`, `VideoSpec.SecondPass`.
- `import_segment`: it overwrites the file of an entry held under another key if that file bears
  the new segment's name (videostore.py:243-245). `VideoSpec.ImportFacts`, `VideoSpec.PassDelivers`.
- `backfill_at`: None does not mean that neither side has footage (videosync.py:61-62).
  `VideoStores.BackfillCovers`.
- `_send` and `start_reader` drop the input buffer but not the stashed fragment
  (lsc.py:255-259, 312-317), so it is glued to the first line of the new stream.
  `Framing.StaleStash`.
- `_answer_to_index`: a confirm answered yes carries index 1 and an unknown answer index 0 however
  short the option list is (lsc.py:1017-1027); the docstring says a 0-based option index.
  `PromptSpec.IndexMeans`.
- `_respond`: the callback is bound to the firmware id, not to its prompt, so a late answer to a
  withdrawn prompt is sent for the next prompt that reuses the id (lsc.py:974, 978-979).
  `PromptSpec.AnswerReaches`, `PromptSpec.LateAnswerMixup`, `PromptSpec.NoReuseNoMixup`.

## Model

| member | source | states |
|---|---|---|
| `CurveSpec.ArgMin` | ferrodac/core/plotbuffer.py:132 | the first index of a least sample, NaN read as +inf |
| `CurveSpec.ArgMax` | ferrodac/core/plotbuffer.py:133 | the first index of a greatest sample, NaN read as -inf |
| `CurveSpec.FirstNaN` | ferrodac/core/plotbuffer.py:140 | the first break of a bucket |
| `CurveSpec.SlotsKeepExtremes` | ferrodac/core/plotbuffer.py:99-103 | a break-free bucket after the first emits its least and its greatest value |
| `CurveSpec.FirstBucketKeepsExtremes` | ferrodac/core/plotbuffer.py:153-167 | bucket 0 emits sample 0 and one extreme; both extremes exactly when sample 0 is one |
| `CurveSpec.SlotsKeepBreak` | ferrodac/core/plotbuffer.py:110-114 | a bucket with a break emits its own first NaN sample, and an ordinary one a finite extreme beside it |
| `CurveSpec.StrongestSurvives` | ferrodac/core/plotbuffer.py:148-166 | where only one extreme fits it is the sample farthest from the bucket mean |
| `CurveSpec.SlotsAre` | ferrodac/core/plotbuffer.py:132-167 | which samples a break-free bucket emits: the first least and the first greatest one; in bucket 0 sample 0 and, if that is no extreme, the one farther from the mean, the greatest on a tie |
| `CurveSpec.BrokenSlotsAre` | ferrodac/core/plotbuffer.py:138-154 | with a break: its first break and, outside bucket 0, the extreme farther from the mean, the greatest on a tie; in bucket 0 sample 0 |
| `CurveSpec.MeanIs` | ferrodac/core/plotbuffer.py:143-146 | the mean is the sum of the readable samples over their number |
| `CurveSpec.MeanOfNums` | ferrodac/core/plotbuffer.py:143-146 | a sample adds itself to that sum and one to that number unless it is a break |
| `CurveSpec.KeptCount` | ferrodac/core/plotbuffer.py:117-127 | one decimation keeps at least half, and fewer than all from two samples on |
| `CurveSpec.SurvivorOrder` | ferrodac/core/plotbuffer.py:115-116 | survivors are in index order and start with sample 0 |
| `CurveSpec.DecimationShape` | ferrodac/core/plotbuffer.py:124-127 | from four samples on: 2(n/4) + n%4 points, sample 0 first, the last n%4 verbatim |
| `CurveSpec.SmallDecimation` | ferrodac/core/plotbuffer.py:117-123 | below four samples every second one is kept |
| `CurveSpec.EmittedPair` | ferrodac/core/plotbuffer.py:169-176 | bucket j leaves exactly its two slots, read from all four lanes at one index |
| `CurveSpec.DecimationKeepsExtremes` | ferrodac/core/plotbuffer.py:99-103 | every break-free bucket after the first keeps min and max in the decimated buffer |
| `CurveSpec.DecimationKeepsBreak` | ferrodac/core/plotbuffer.py:110-114 | every bucket with a break emits its first NaN point at its own x |
| `CurveSpec.BreakSurvives` | ferrodac/core/plotbuffer.py:110-114 | a buffer of four or more samples that holds a break still holds one |
| `CurveSpec.SmallBreak` | ferrodac/core/plotbuffer.py:118-123 | below four samples a break survives exactly at an even place |
| `CurveSpec.RightEdge` | ferrodac/core/plotbuffer.py:98-184 | a decimation keeps the final sample exactly with a verbatim tail or if the last bucket emits it (below four samples: if their number is odd) |
| `CurveSpec.LaterSlotIsLast` | ferrodac/core/plotbuffer.py:134-167 | when a bucket emits sample 3, for ordinary and first buckets, with and without a break |
| `CurveSpec.ShrinkLoopEnds` | ferrodac/core/plotbuffer.py:71-72 | the loop can reach its exit exactly when the batch is below the cap or the buffer empty |
| `CurveSpec.ShrunkStaysHalfFull` | ferrodac/core/plotbuffer.py:71-72 | an append that had to decimate leaves more than half the cap occupied |
| `CurveSpec.ShrunkKeepsBreak` | ferrodac/core/plotbuffer.py:71-72 | with three free slots beside the batch the whole loop keeps a break |
| `CurveSpec.BreakKeptExactly` | ferrodac/core/plotbuffer.py:71-72 | three free slots is the exact condition for every buffer |
| `CurveSpec.Lane` | ferrodac/core/plotbuffer.py:57-61 | a sigma lane is kept and padded with NaN up to the batch length |
| `CurveSpec.BatchIsWhole` | ferrodac/core/plotbuffer.py:57-69 | with lanes of one length (or a batch within the cap) the batch is the most recent points, each reading x, y and its sigmas at one input position |
| `CurveSpec.BatchXY` | ferrodac/core/plotbuffer.py:67-68 | the x and y of every batch, an oversized one cut to the last cap entries of each lane |
| `CurveSpec.BatchPair` | ferrodac/core/plotbuffer.py:63-69 | a pair of sigma lanes goes lower to lower and upper to upper, padded with NaN, each cut from its own end |
| `CurveSpec.BatchSymmetric` | ferrodac/core/plotbuffer.py:65-69 | one symmetric sigma lane goes to both |
| `CurveSpec.BatchAbsent` | ferrodac/core/plotbuffer.py:57-66 | without sigma both are NaN |
| `CurveSpec.WholeExactly` | ferrodac/core/plotbuffer.py:67-69 | the four lane lengths alone decide: every call of these lengths stores whole points exactly when it fits the cap or the lanes have one length |
| `CurveSpec.NewestVerbatim` | ferrodac/core/plotbuffer.py:73-78 | the appended batch is the end of the buffer, and the rest still half full |
| `CurveSpec.AppendedIs` | ferrodac/core/plotbuffer.py:67-78 | an oversized batch replaces the buffer; any other follows the fewest decimations that make room; an empty one changes nothing |
| `CurveSpec.TrimmedExactly` | ferrodac/core/plotbuffer.py:186-199 | a trim keeps exactly the samples at or after x_min if and only if no older one comes after one of them; on ordered data that always holds |
| `CurveSpec.TrimIs` | ferrodac/core/plotbuffer.py:189-199 | on any x lane: only a buffer that starts before x_min is cut, where the halving search ends |
| `CurveSpec.StepInv` | ferrodac/core/plotbuffer.py:46-202 | each append, trim or clear keeps the buffer a monotone reading of the history |
| `CurveSpec.RunInv` | ferrodac/core/plotbuffer.py:46-202 | so does every run of them |
| `CurveSpec.RunFacts` | ferrodac/core/plotbuffer.py:46-202 | from empty: bounded, only real samples, ordered if the input was, first point never lost without a trim |
| `CurveBuffers.CurveBuffer.constructor` | ferrodac/core/plotbuffer.py:32-41 | an empty buffer whose cap is at least 4, with room for the first 1024 points or the cap |
| `CurveBuffers.CurveBuffer.Decimate` | ferrodac/core/plotbuffer.py:98-184 | the four arrays hold the decimated contents |
| `CurveBuffers.CurveBuffer.Reserve` | ferrodac/core/plotbuffer.py:80-96 | room for `need`, less than doubled, contents unchanged |
| `CurveBuffers.CurveBuffer.Write` | ferrodac/core/plotbuffer.py:74-78 | the batch stands behind the old contents in all lanes |
| `CurveBuffers.CurveBuffer.MakeRoom` | ferrodac/core/plotbuffer.py:71-73 | the shrink loop, ending with reserved slots |
| `CurveBuffers.CurveBuffer.Append` | ferrodac/core/plotbuffer.py:46-78 | the contents after the call, batch cut, coarsened and appended |
| `CurveBuffers.CurveBuffer.Cut` | ferrodac/core/plotbuffer.py:190 | the bisection loop computes the cut, on any x lane |
| `CurveBuffers.CurveBuffer.DropFirst` | ferrodac/core/plotbuffer.py:192-197 | the lanes move to the front together |
| `CurveBuffers.CurveBuffer.Trim` | ferrodac/core/plotbuffer.py:186-199 | the contents are trimmed and the result says whether any went |
| `CurveBuffers.CurveBuffer.Clear` | ferrodac/core/plotbuffer.py:201-202 | the contents are empty |
| `Intervals.Merge` | ferrodac/store/intervals.py:66-77 | the loop computes the merge |
| `Intervals.MergedDenotes` | ferrodac/store/intervals.py:66-77 | merge is sorted, strictly separated and covers the same points, half-open for any input, closed for ordered endpoints |
| `Intervals.SeparatedUnique` | ferrodac/store/intervals.py:66-77 | a closed point set has one strictly separated presentation |
| `Intervals.MergeCanonical` | ferrodac/store/intervals.py:66-77 | lists covering the same points merge to the identical list |
| `Intervals.MergeLaws` | ferrodac/store/intervals.py:66-77 | merge is idempotent and independent of order and batching |
| `Intervals.Intersect` | ferrodac/store/intervals.py:80-93 | the two-pointer loop computes the intersection |
| `Intervals.CommonDenotes` | ferrodac/store/intervals.py:80-93 | intersect is exactly the common half-open points, sorted and separated |
| `Intervals.Subtract` | ferrodac/store/intervals.py:96-116 | the nested loop computes the difference |
| `Intervals.CarveOne` | ferrodac/store/intervals.py:103-115 | the inner loop carves every hole out of one interval |
| `Intervals.CarveShape` | ferrodac/store/intervals.py:103-115 | the same for one interval, whose pieces stay inside it |
| `Intervals.MinusDenotes` | ferrodac/store/intervals.py:96-116 | subtract is exactly the half-open difference, for any input |
| `Intervals.MinusEnds` | ferrodac/store/intervals.py:103-115 | no piece is cut without reason: it starts and ends at ends of merged intervals or holes |
| `Intervals.MinusTidyExactly` | ferrodac/store/intervals.py:96-116 | its output is sorted and free of overlap exactly when no merged hole sends the walk over a merged interval backwards; holes with ordered endpoints never do |
| `Intervals.CrossedHoleOverlaps` | ferrodac/store/intervals.py:104-111 | an instance with two overlapping pieces |
| `Intervals.LengthAdds` | ferrodac/store/intervals.py:80-116 | the length of a disjoint union is the sum of the lengths |
| `Intervals.LengthConserved` | ferrodac/store/intervals.py:80-116 | length of merge(A) is that of intersect(A,B) plus that of subtract(A,B), wherever the pieces do not overlap |
| `Intervals.MarkAllDenotes` | ferrodac/store/prefetch.py:129-131 | marking fetched ranges one by one covers exactly their union with the old coverage |
| `Intervals.GapFixpoint` | ferrodac/store/prefetcher.py:164-165 | gaps are exactly the hub data of the target not yet local; once marked, none is left |
| `GapSplit.MedianHalves` | ferrodac/store/intervals.py:53 | at least half of the steps are on either side of the median |
| `GapSplit.ThresholdIs` | ferrodac/store/intervals.py:51-54 | 30 s, or gap_k times the median positive step if that is more: the middle one, or half way between the two middle ones |
| `GapSplit.SteadyNeverSplits` | ferrodac/store/intervals.py:44-54 | steps within a factor gap_k of one another never split, however slow |
| `GapSplit.CutsFacts` | ferrodac/store/intervals.py:55 | the cuts are increasing and sit exactly at the steps beyond the threshold |
| `GapSplit.SplitSeparated` | ferrodac/store/intervals.py:58-63 | intervals are disjoint, at least GAP_EPS wide, and fixed by merge |
| `GapSplit.SplitOwns` | ferrodac/store/intervals.py:41-63 | each sample is in its own interval and in no other |
| `GapSplit.SplitCutsAtGaps` | ferrodac/store/intervals.py:41-63 | neighbours share an interval exactly when their step is at most 30 s or at most gap_k times the median positive step; below three samples always |
| `GapSplit.SplitEnds` | ferrodac/store/intervals.py:32-38 | an interval runs from its first to its last sample, widened by half a millisecond on either side if they are less than a millisecond apart |
| `Decimate.BucketCount` | ferrodac/store/decimate.py:35-37 | the number of buckets is ceil(n / factor) |
| `Decimate.RowAt` | ferrodac/store/decimate.py:38-44 | bucket members are the samples in order, the last one repeated as padding |
| `Decimate.ExtremaAttained` | ferrodac/store/decimate.py:45-48 | bucket extrema are attained by and bound the readable members |
| `Decimate.FoldIs` | ferrodac/store/decimate.py:42-51 | a bucket has the mean time of its members and the least and greatest readable value; it is a break exactly if the min lane has none |
| `Decimate.BucketIs` | ferrodac/store/decimate.py:35-52 | bucket i of a level is the fold of samples i*f onwards, the last one repeated |
| `Decimate.LevelKeepsExtrema` | ferrodac/store/decimate.py:32-52 | a level keeps the least value and the breaks of the series, and the greatest value if no bucket hides one |
| `Decimate.PyramidComposes` | ferrodac/store/decimate.py:9-11 | folding by f then g draws the envelope of folding by f*g, for every length, wherever no readable coarse bucket has a fine one that hides a value |
| `Decimate.LosesPeak` | ferrodac/store/decimate.py:45-51 | where it fails, a max lane of that pattern loses its peak in the coarse level |
| `Decimate.ComposesExactly` | ferrodac/store/decimate.py:45-51 | for each pair of factors it is the exact condition over all max lanes with the same NaN places |
| `Decimate.ComposesForAllFactors` | ferrodac/store/decimate.py:45-51 | every max lane with these NaN places composes for all factors exactly when the lanes are aligned or the min lane is all breaks |
| `Decimate.FoldTime` | ferrodac/store/decimate.py:42 | a bucket time lies within its members' times |
| `Decimate.LevelTimes` | ferrodac/store/decimate.py:42 | bucket times of ordered samples are ordered and within the series |
| `Decimate.EnvelopeMidline` | ferrodac/store/decimate.py:65-86 | the loop computes the midline |
| `Decimate.InterleaveAt` | ferrodac/store/decimate.py:55-62 | per bucket the least value, then the greatest, both at its time |
| `Decimate.MidlineOfRun` | ferrodac/store/decimate.py:77-85 | a run of points at one x is replaced pair by pair by points half way between, an odd one out and breaks stay |
| `Decimate.MidlineOfInterleave` | ferrodac/store/decimate.py:55-86 | the midline of an interleaved envelope has one point per bucket, at its time and half way between its extremes |
| `Decimate.MidlineFixed` | ferrodac/store/decimate.py:72-73 | a polyline is unchanged exactly when no two neighbours share an x |
| `PrefetchSpec.IngestedFacts` | ferrodac/store/prefetch.py:92-98 | merging loses and invents no time and the cached sample wins a tie; times come out strictly increasing unless it is a first fetch that is not, which is stored as it is |
| `PrefetchSpec.QueryFacts` | ferrodac/store/prefetch.py:66-71 | at most three points per requested one, and exactly the extremes of the window |
| `PrefetchSpec.QueryRaw` | ferrodac/store/prefetch.py:66-71 | a window of at most twice the budget comes back sample by sample |
| `PrefetchSpec.QueryBuckets` | ferrodac/store/prefetch.py:66-71 | a larger one as the least, then the greatest value of each bucket of max(2, n / max_points) samples, at a time inside the window |
| `PrefetchSpec.EvictedOutcome` | ferrodac/store/prefetch.py:144-150 | eviction ends in budget or with every sample within 60 s of the focus exactly if keep is at least 30 or it was so before |
| `PrefetchSpec.EvictionRounds` | ferrodac/store/prefetch.py:144-150 | eviction cuts samples and coverage to the first halved window that meets the budget, or the last of at least 30 s |
| `PrefetchSpec.CutFaithful` | ferrodac/store/prefetch.py:152-158 | cutting samples and coverage to one window keeps a series faithful to the hub |
| `PrefetchSpec.CommitCoherent` | ferrodac/store/prefetch.py:99-102 | swapping in a merged snapshot, marking and evicting keeps the cache coherent |
| `PrefetchSpec.CommitAdds` | ferrodac/store/prefetch.py:99-102 | without eviction a commit stores the merged series, advertises exactly the fetched range besides what was, and touches no other series |
| `PrefetchSpec.CommitEvicts` | ferrodac/store/prefetch.py:99-102 | with one it advertises exactly that set cut to the last window, and loses no stored sample inside it |
| `PrefetchSpec.NextInv` | ferrodac/store/prefetch.py:83-133 | every locked section keeps coherence, also with a snapshot pending across a clear |
| `PrefetchSpec.RunInv` | ferrodac/store/prefetch.py:83-163 | so does every interleaving of them |
| `PrefetchSpec.ReadsLikeHub` | ferrodac/store/prefetch.py:57-64 | in every reachable state a read inside one advertised interval is the hub's answer |
| `PrefetchSpec.FetchedReadsLikeHub` | ferrodac/store/prefetch.py:83-102 | a fetch of [a, b] without a focus makes a read of [a, b] the hub's answer |
| `PrefetchSpec.OthersDo` | ferrodac/store/prefetch.py:116-126 | a focus change keeps all data, a clear all but the focus; neither touches a pending merge |
| `PrefetchCaches.PrefetchCache.Has` | ferrodac/store/prefetch.py:45-47 | whether any range of the series is advertised |
| `PrefetchCaches.PrefetchCache.ReadRaw` | ferrodac/store/prefetch.py:57-64 | the stored samples inside the closed window |
| `PrefetchCaches.PrefetchCache.QueryWindow` | ferrodac/store/prefetch.py:66-71 | the raw or bucketed answer, within the point budget |
| `PrefetchCaches.PrefetchCache.SetFocus` | ferrodac/store/prefetch.py:116-118 | only the focus changes |
| `PrefetchCaches.PrefetchCache.Clear` | ferrodac/store/prefetch.py:120-126 | everything but the focus is forgotten |
| `PrefetchCaches.PrefetchCache.Snapshot` | ferrodac/store/prefetch.py:90-98 | the merge made outside the lock |
| `PrefetchCaches.PrefetchCache.Commit` | ferrodac/store/prefetch.py:99-102 | the second locked section |
| `PrefetchCaches.PrefetchCache.AddScalar` | ferrodac/store/prefetch.py:83-102 | a whole ingest without interference |
| `PrefetchCaches.PrefetchCache.MarkLocked` | ferrodac/store/prefetch.py:129-133 | coverage grows by exactly the range, then eviction |
| `PrefetchCaches.PrefetchCache.RecountLocked` | ferrodac/store/prefetch.py:135-142 | the byte count is that of what is stored |
| `PrefetchCaches.PrefetchCache.EvictLocked` | ferrodac/store/prefetch.py:144-150 | the halving loop, terminating, computes the eviction |
| `PrefetchCaches.PrefetchCache.TrimLocked` | ferrodac/store/prefetch.py:152-163 | every series and its coverage are cut to the window |
| `PumpSpec.PutBacklog` | ferrodac/core/bus.py:71-83 | a put appends; past the depth a conflating one keeps exactly the newest conflate_max readings and counts the rest |
| `PumpSpec.PutMerges` | ferrodac/core/bus.py:76-83 | the ninth batch of a conflating queue merges all, whatever the cap: sliced to it, and as many dropped as exceed it |
| `PumpSpec.LastSliceIs` | ferrodac/core/bus.py:82 | the last m entries, all for m = 0, all but the first -m below |
| `PumpSpec.PutRest` | ferrodac/core/bus.py:71-93 | nothing after a close; the warning latch is set above 100 lossless batches and released below 50 |
| `PumpSpec.CloseDoes` | ferrodac/core/bus.py:121-125 | a close stops the pump and without flush empties its queue |
| `PumpSpec.ReturnDoes` | ferrodac/core/bus.py:108-112 | a return counts the readings as delivered, a raise one error |
| `PumpSpec.NextInv` | ferrodac/core/bus.py:71-127 | every atomic step of put, worker, sink and close keeps the pump's laws |
| `PumpSpec.RunInv` | ferrodac/core/bus.py:71-127 | so does every run |
| `PumpSpec.LosslessDelivers` | ferrodac/core/bus.py:20-21 | accepted is handed then queued, in order; after the exit everything accepted was handed over |
| `PumpSpec.ConflateKeepsNewest` | ferrodac/core/bus.py:21-23 | an ordered selection with the newest reading, exact accounting, at most 8 batches queued |
| `PumpSpec.NinthPut` | ferrodac/core/bus.py:80-82 | a run on which a cap below 1 miscounts |
| `PumpSpec.AccountingIffCap` | ferrodac/core/bus.py:80-82 | accounting is exact on every run exactly when conflate_max >= 1 |
| `PumpSpec.CloseTerminates` | ferrodac/core/bus.py:99-127 | after a close the worker is never stuck and every step brings its exit nearer |
| `BusSpec.NewestIsLast` | ferrodac/core/bus.py:227-228 | `latest` holds the newest reading of each key of a batch |
| `BusSpec.DoInv` | ferrodac/core/bus.py:180-241 | every step of publish, subscribe, remove, drain and worker keeps the stream invariant |
| `BusSpec.RunAllInv` | ferrodac/core/bus.py:180-241 | so does every interleaving |
| `BusSpec.RegistryDoes` | ferrodac/core/bus.py:190-206 | a new sink is registered with an empty queue of its mode, at the next reading no snapshot has covered; a removed one is registered no more |
| `BusSpec.StopDoes` | ferrodac/core/bus.py:151-159 | stopping a pump touches no other sink, and without flush empties its queue |
| `BusSpec.DrainDoes` | ferrodac/core/bus.py:211-226 | a drain pops from the front of the inbox, up to the cap or its end |
| `BusSpec.LosslessEndToEnd` | ferrodac/core/bus.py:20-27 | since a lossless worker subscribed: published = handed + queue + batch under way + inbox, gap-free |
| `BusSpec.ClosedEndToEnd` | ferrodac/core/bus.py:20-21 | once a lossless worker has exited, its sink was handed exactly the published stretch from its subscription to the last batch accepted |
| `BusSpec.InlineEndToEnd` | ferrodac/core/bus.py:12-14 | an inline sink has been called with everything drained since it subscribed |
| `Buses.Pump.constructor` | ferrodac/core/bus.py:55-66 | an empty pump |
| `Buses.Pump.Put` | ferrodac/core/bus.py:71-93 | the fields after a put |
| `Buses.Pump.Take` | ferrodac/core/bus.py:101-107 | the locked part of the worker: pop, wait or leave |
| `Buses.Pump.SinkReturned` | ferrodac/core/bus.py:108-112 | delivered or errors is counted |
| `Buses.Pump.Close` | ferrodac/core/bus.py:121-125 | stopping, backlog kept or discarded |
| `Buses.Pump.RunToExit` | ferrodac/core/bus.py:99-114 | after a flushing close the worker hands over the backlog in order, whichever calls raise, counts both outcomes and exits |
| `Buses.Bus.Publish` | ferrodac/core/bus.py:180-182 | the reading joins the inbox |
| `Buses.Bus.Subscribe` | ferrodac/core/bus.py:190-201 | a new registered sink, with an empty pump on the worker lane |
| `Buses.Bus.Remove` | ferrodac/core/bus.py:203-206 | the sink leaves the registry, the others keep their order |
| `Buses.Bus.CloseSubscription` | ferrodac/core/bus.py:151-159 | out of the registry, pump stopped, backlog kept only if lossless |
| `Buses.Bus.Drain` | ferrodac/core/bus.py:211-241 | the first readings up to the cap leave in order, latest is updated, every sink gets the batch once, and none is touched by an empty one |
| `Buses.Bus.TakeLatest` | ferrodac/core/bus.py:227-228 | the per-key update loop |
| `Buses.Bus.Fanout` | ferrodac/core/bus.py:231-238 | each registered sink gets exactly this batch |
| `Nnls.GradIsGramRow` | ferrodac/analysis/deconvolve.py:47-53 | what the update subtracts is the gradient of the cost |
| `Nnls.CostUpdate` | ferrodac/analysis/deconvolve.py:53 | the cost along one coordinate is a parabola with that slope and curvature |
| `Nnls.UpdateDescends` | ferrodac/analysis/deconvolve.py:53 | an update keeps x >= 0, lowers the cost when it moves, and rests exactly where slope and bound balance |
| `Nnls.UpdateSolves` | ferrodac/analysis/deconvolve.py:49-53 | an update changes one coordinate only and leaves its slope at -1e-12 times the move, or bounded below where it rests at zero |
| `Nnls.SweepDescends` | ferrodac/analysis/deconvolve.py:52-53 | a sweep never raises the cost, and keeps it only by not moving |
| `Nnls.SweepsDescend` | ferrodac/analysis/deconvolve.py:51-53 | nor do any number of sweeps |
| `Nnls.SweepStrict` | ferrodac/analysis/deconvolve.py:51-53 | a sweep that moves strictly lowers the cost |
| `Nnls.SweepSolves` | ferrodac/analysis/deconvolve.py:52-53 | a sweep solves the coordinates in order, each with those before it moved already |
| `Nnls.SweepsStep` | ferrodac/analysis/deconvolve.py:51-53 | one more round is one more sweep, and lowers the cost unless the optimum is reached |
| `Nnls.CostExpand` | ferrodac/analysis/deconvolve.py:41-54 | the exact second-order expansion of the cost |
| `Nnls.FixedIffOptimal` | ferrodac/analysis/deconvolve.py:41-54 | a sweep leaves x unchanged exactly when no non-negative vector is better |
| `Nnls.Solve` | ferrodac/analysis/deconvolve.py:46-54 | the nested loops compute 400 sweeps from zero; the result is non-negative and strictly better than zero unless zero is optimal |
| `Pruning.ScatterFacts` | ferrodac/analysis/deconvolve.py:188-190 | each kept gas gets its own amount, every other one zero |
| `Pruning.StrongMembers` | ferrodac/analysis/deconvolve.py:195 | exactly the kept gases at or above the bar stay |
| `Pruning.StrongKeepsMax` | ferrodac/analysis/deconvolve.py:195-198 | the choice is emptied exactly when the bar is above the largest amount |
| `Pruning.SolveFull` | ferrodac/analysis/deconvolve.py:175-199 | the loop ends in the pruned fit; inactive gases are zero, the first pass is returned too, and for sparsity <= 1 every amount is zero or its share of the largest |
| `Pruning.PruningIs` | ferrodac/analysis/deconvolve.py:192-198 | for a share of at most one a gas is dropped exactly in a round in which its amount is below the share of the largest, until a round drops none |
| `Pruning.HighBar` | ferrodac/analysis/deconvolve.py:193-198 | above 1 the share law holds only if nothing is positive |
| `Export.MinHead` | ferrodac/store/export.py:257-260 | the least head timestamp |
| `Export.WriteScalars` | ferrodac/store/export.py:237-271 | the cursor loops compute the rows |
| `Export.MergeRows` | ferrodac/store/export.py:256-271 | the outer loop from any cursor position |
| `Export.WriteRow` | ferrodac/store/export.py:261-271 | one row: one cell per source, at most one sample consumed of each |
| `Export.ColumnIsSource` | ferrodac/store/export.py:243-246 | without fill a column minus its blanks is the source, sample for sample, whatever the duplicates |
| `Export.RowTimesSorted` | ferrodac/store/export.py:256-260 | for sorted sources row times are non-decreasing |
| `Export.RowsAtInstant` | ferrodac/store/export.py:245-246 | the rows at an instant number the largest multiplicity a source has there |
| `Export.FillCarriesDown` | ferrodac/store/export.py:267-268 | export with fill is the blank export carried down column by column |
| `Export.CarriedIsLatest` | ferrodac/store/export.py:240-241 | a filled cell is the latest value so far, blank only before the first |
| `TagSpec.VersionDropsOnlyByClobber` | ferrodac/core/markers.py:86-186 | no id is lost, and its version drops exactly when `add` reuses the id of an edited tag |
| `TagSpec.VersionsNeverDrop` | ferrodac/core/markers.py:86-186 | along any run without that, versions never decrease |
| `TagSpec.AddDoes` | ferrodac/core/markers.py:99-106 | an add stores a live tag of version 2 with the caller's content, fixed in time as told or by kind and origin |
| `TagSpec.RemoveDoes` | ferrodac/core/markers.py:120-128 | a remove leaves a tombstone with the same content and time, one version up if the tag was live |
| `TagSpec.MoveDoes` | ferrodac/core/markers.py:130-137 | a move sets the time of a movable tag and raises its version, and nothing else; a fixed tag stays |
| `TagSpec.MergeDoes` | ferrodac/core/markers.py:156-186 | a merge takes the incoming tag exactly if it is new, newer, or of equal version with one of the two deleted |
| `TagSpec.TombstoneStays` | ferrodac/core/markers.py:120-186 | a deleted tag stays deleted along any run of edits and of stale or deleting merges |
| `TagSpec.FixedTimeStays` | ferrodac/core/markers.py:130-137 | no run of local edits shifts the time of a fixed tag |
| `TagSpec.EmittedStays` | ferrodac/core/markers.py:101-137 | a tag added as media or as a device, processor or system event keeps its instant along any run of local edits |
| `TagSpec.FeedHoldsTops` | ferrodac/core/markers.py:156-168 | in any order with any repetition each id ends with a tag of its highest version |
| `TagSpec.ConvergesIffAgreeing` | ferrodac/core/markers.py:156-168 | all deliveries of a set of tags lead to one store exactly when its newest versions agree |
| `TagSpec.Disagree` | ferrodac/core/markers.py:161-165 | two different newest tags can be delivered so that replicas differ |
| `TagStores.MarkerModel.Local` | ferrodac/core/markers.py:147-153 | version bumped in place, id announced |
| `TagStores.Make` | ferrodac/core/markers.py:99-103 | the marker object `add` builds, its time fixed by kind and origin unless told |
| `TagStores.MarkerModel.AddTag` | ferrodac/core/markers.py:86-106 | the created tag is stored under its id and announced |
| `TagStores.MarkerModel.RemoveTag` | ferrodac/core/markers.py:120-128 | tombstone and bump, announced once; the tag is not live afterwards |
| `TagStores.MarkerModel.MoveTag` | ferrodac/core/markers.py:130-137 | movable tags move and are announced, fixed ones do not |
| `TagStores.MarkerModel.UpsertTag` | ferrodac/core/markers.py:156-168 | the guarded merge, silent |
| `TagStores.MarkerModel.UpsertLocalTag` | ferrodac/core/markers.py:170-186 | the guarded merge, bumped and announced |
| `TagStores.MarkerModel.Get` | ferrodac/core/markers.py:189-191 | the stored tag unless absent or deleted |
| `VideoSpec.ImportFacts` | ferrodac/core/videostore.py:228-249 | a new key arrives confirmed with exactly these bytes, index sorted and keys unique; every entry held stays, and its bytes unless its file bears the new name |
| `VideoSpec.SortFile` | ferrodac/core/videostore.py:136 | sorting the index changes no lookup, repeated keys included |
| `VideoSpec.CommitDoes` | ferrodac/core/videostore.py:125-138 | a landed, non-empty file is indexed once, unconfirmed and with its real size, in order; entries and files stay |
| `VideoSpec.MarkDoes` | ferrodac/core/videostore.py:198-212 | marking sets the flag of every entry under the key and changes nothing else |
| `VideoSpec.ReadIs` | ferrodac/core/videostore.py:214-226 | the file of the first entry under the key, None if it has vanished |
| `VideoSpec.PushedFacts` | ferrodac/core/videosync.py:43-54 | the pushes of one camera: which keys arrive, with which bytes, and what stays |
| `VideoSpec.PassDelivers` | ferrodac/core/videosync.py:36-55 | for any remote: every readable segment is flagged, held by it exactly when its file is not empty or it was held before; what arrives has the local bytes; entries stay, and their bytes exactly as far as no arrival has their file name |
| `VideoSpec.PassFlags` | ferrodac/core/videosync.py:43-54 | a pass changes nothing local but flags: set if the remote reported the key or the file could be read |
| `VideoSpec.PendingIs` | ferrodac/core/videosync.py:45-54 | it sends one upload for each entry the remote did not report whose file can be read |
| `VideoSpec.SecondPass` | ferrodac/core/videosync.py:37-39 | a second pass changes neither side and sends exactly the empty files again |
| `VideoQueries.Coverage` | ferrodac/core/videostore.py:147-156 | the loop computes the joined spans |
| `VideoQueries.CoverageFacts` | ferrodac/core/videostore.py:147-156 | spans are more than two seconds apart, hold every segment, and with that slack report exactly the instants the segments back |
| `VideoQueries.SegmentEntryAt` | ferrodac/core/videostore.py:165-173 | None exactly in a gap, else the containing segment with the latest start |
| `VideoQueries.PruneToSize` | ferrodac/core/videostore.py:301-316 | drops the fewest oldest segments that meet the cap, with their files, and counts the bytes |
| `VideoQueries.Excess` | ferrodac/core/videostore.py:306-309 | that number is least |
| `VideoQueries.TotalIs` | ferrodac/core/videostore.py:303 | the size of an index is that of its segments, added up |
| `VideoQueries.DeleteOlderThan` | ferrodac/core/videostore.py:267-284 | drops the segments that end before the cutoff, with their files, and counts the bytes |
| `VideoQueries.KeptFacts` | ferrodac/core/videostore.py:274-282 | exactly the segments reaching the cutoff stay, in order |
| `VideoQueries.KeptCounts` | ferrodac/core/videostore.py:274-282 | each as often as it was indexed |
| `VideoStores.VideoStore.CommitSegment` | ferrodac/core/videostore.py:125-138 | a landed, non-empty file is indexed in order; otherwise nothing changes |
| `VideoStores.VideoStore.Have` | ferrodac/core/videostore.py:192-196 | every (camera, key) stored, and no other |
| `VideoStores.VideoStore.MarkSynced` | ferrodac/core/videostore.py:198-212 | every entry under the key is flagged; says whether there was one |
| `VideoStores.VideoStore.ReadSegmentBytes` | ferrodac/core/videostore.py:214-226 | the bytes of the first entry under the key, None if absent or vanished |
| `VideoStores.VideoStore.ImportSegment` | ferrodac/core/videostore.py:228-249 | the import, and the bytes written |
| `VideoStores.VideoStore.PruneRetentionSize` | ferrodac/core/videostore.py:301-316 | the size policy on one camera: index, files and bytes; others untouched |
| `VideoStores.VideoStore.DeleteOlderThan` | ferrodac/core/videostore.py:267-284 | the age policy on one camera: index, files and bytes; others untouched |
| `VideoStores.SyncEntry` | ferrodac/core/videosync.py:44-54 | one segment of a pass |
| `VideoStores.SyncCamera` | ferrodac/core/videosync.py:43-54 | one camera of a pass |
| `VideoStores.SyncOnce` | ferrodac/core/videosync.py:36-55 | both stores after a pass, and the exact number sent |
| `VideoStores.SyncTwice` | ferrodac/core/videosync.py:37-39 | two passes leave both stores as one does; the second sends 0 exactly when no missing readable file is empty |
| `VideoStores.BackfillCovers` | ferrodac/core/videosync.py:57-71 | an instant is covered afterwards exactly if it was, or the peer's segment lands |
| `VideoStores.BackfillBrings` | ferrodac/core/videosync.py:57-71 | what lands is the peer's segment at that instant, with its own start, end and bytes; nothing else changes |
| `VideoStores.BackfillAt` | ferrodac/core/videosync.py:57-71 | the local store and the result after an on-demand backfill |
| `Text.StripFacts` | ferrodac/devices/lsc.py:339 | strip drops blanks at both ends and nothing else |
| `Text.StripUnique` | ferrodac/devices/lsc.py:339 | and that determines its result |
| `Text.BlanksAre` | ferrodac/devices/lsc.py:339 | which characters a line and a field are stripped of |
| `Text.JoinSplit` | ferrodac/devices/lsc.py:452-470 | joining the split fields gives the text back |
| `Text.SplitJoin` | ferrodac/devices/lsc.py:452-470 | splitting a joined record gives its comma-free head and the split of its tail |
| `Text.ParseFormatInt` | ferrodac/devices/lsc.py:456 | int() of a formatted integer, padded or not, is that integer |
| `Text.ParseIntIs` | ferrodac/devices/lsc.py:456 | int() reads digits with single underscores between them, a sign and blanks around, and nothing else |
| `Framing.LinesExact` | ferrodac/devices/lsc.py:324-340 | the lines and the rest make up the stream |
| `Framing.LinesUnique` | ferrodac/devices/lsc.py:324-340 | and are the only way to cut it at terminators |
| `Framing.LineFeedEnds` | ferrodac/devices/lsc.py:324-338 | a line is whatever precedes a byte 10, with that byte |
| `Framing.DecodeIs` | ferrodac/devices/lsc.py:339 | an ASCII byte is its character, any other one U+FFFD |
| `Framing.LineReadsBack` | ferrodac/devices/lsc.py:339-340 | an ASCII text is read back from its line whatever blanks surround it; a blank line is nothing |
| `Framing.FramingIndependent` | ferrodac/devices/lsc.py:324-340 | however the bytes were cut, exactly the non-blank terminated lines come out in order and exactly the rest is stashed |
| `Framing.SameStreamSameLines` | ferrodac/devices/lsc.py:325-328 | two cuttings of one stream give the same lines |
| `Framing.StaleStash` | ferrodac/devices/lsc.py:312-317 | after a buffer reset the lines are those of the new stream exactly when the stash is blank |
| `LscReader.RouteOne` | ferrodac/devices/lsc.py:290-299 | a line lands on the channel of its first character only |
| `LscReader.RoutedOnce` | ferrodac/devices/lsc.py:290-299 | every line goes to one channel or is skipped, exactly once |
| `LscReader.TaggedOnly` | ferrodac/devices/lsc.py:290-299 | a channel carries exactly the lines of its kind |
| `LscReader.Reader.ReadLine` | ferrodac/devices/lsc.py:324-340 | one read: the line returned and the stash left |
| `LscReader.Reader.Route` | ferrodac/devices/lsc.py:290-299 | the channels after one line |
| `LscReader.Reader.Run` | ferrodac/devices/lsc.py:274-299 | over any cutting, the channels receive the non-blank lines of the stream, each its own |
| `AskCodec.AskAccepted` | ferrodac/devices/lsc.py:448-472 | an ask is rejected exactly with fewer than five commas or no integer id; bad counts and timeouts read as 0 |
| `AskCodec.AskSplits` | ferrodac/devices/lsc.py:449-470 | which fields are the kind, severity, timeout and options, the rest being the question |
| `AskCodec.PromptIs` | ferrodac/devices/lsc.py:436-446 | a prompt line is parsed by its first field, ask or done in either case; any other is nothing |
| `AskCodec.DoneAccepted` | ferrodac/devices/lsc.py:474-485 | a done is rejected exactly without an integer id; fields it lacks are empty |
| `AskCodec.ParseSent` | ferrodac/devices/lsc.py:448-472 | where any declared option count cuts options from question |
| `AskCodec.AskRoundTrip` | ferrodac/devices/lsc.py:135-143 | a sent ask is read back, commas in the question included, exactly when it declares the number of options it sends (a negative count reads as none) |
| `AskCodec.DoneRoundTrip` | ferrodac/devices/lsc.py:474-485 | a sent done line is read back |
| `PromptSpec.IndexMeans` | ferrodac/devices/lsc.py:1011-1027 | RESPOND carries an index into the option list exactly when it has two options for a confirm answered yes and one for anything else; a chosen option is carried by its place |
| `PromptSpec.KindIs` | ferrodac/devices/lsc.py:1004-1008 | confirm, choice and text in either case and padding; anything else is an acknowledge |
| `PromptSpec.AnswerIs` | ferrodac/devices/lsc.py:1011-1027 | the index of every answer: no is False, 0 or the empty text; a choice by place or valid index; else 0 |
| `PromptSpec.LineToWire` | ferrodac/devices/lsc.py:958-1045 | from the ask line to RESPOND: a new prompt's answer goes out under its id with the index that goes by the kind and options on the line |
| `PromptSpec.DoneDoes` | ferrodac/devices/lsc.py:976-985 | a done withdraws the open prompt of its id, sends nothing, and touches no other |
| `PromptSpec.NextInv` | ferrodac/devices/lsc.py:958-1044 | every ask, done and answer keeps one fate per prompt |
| `PromptSpec.RunInv` | ferrodac/devices/lsc.py:958-1044 | so does every run |
| `PromptSpec.ResolvedOnce` | ferrodac/devices/lsc.py:976-981 | a prompt raised is open, answered on the wire once, or withdrawn once, and only one of these |
| `PromptSpec.AnswerReaches` | ferrodac/devices/lsc.py:1029-1045 | an answer is sent for its prompt exactly while that is open, for another exactly when the id was reused |
| `PromptSpec.NoReuseNoMixup` | ferrodac/devices/lsc.py:1029-1045 | where ids are not reused every RESPOND answers the prompt it resolves |
| `PromptSpec.LateAnswerMixup` | ferrodac/devices/lsc.py:974-981 | with a reused id a late answer is sent for the new prompt |
| `PromptSpec.ReannounceKeeps` | ferrodac/devices/lsc.py:965-971 | announcing an open prompt again changes nothing |
| `PromptDesks.PromptDesk.OnAsk` | ferrodac/devices/lsc.py:958-974 | the table after an ask, and the prompt raised |
| `PromptDesks.PromptDesk.OnDone` | ferrodac/devices/lsc.py:976-985 | the entry is popped and its prompt withdrawn |
| `PromptDesks.PromptDesk.Respond` | ferrodac/devices/lsc.py:1029-1045 | the entry is popped and its index sent, or nothing happens |

## Left out

- Floating-point rounding, infinite time values and NaN timestamps: times and sums are exact reals.
- The trace lane of the prefetch cache (prefetch.py:73-80, 104-114, 159-162): its blocks are neither de-duplicated nor cut, so it has no coherence to state.
- Two concurrent writers of the prefetch cache: its own contract is one writer; any interleaving with readers, focus changes and clears is modelled.
- PumpSpec.ConflateKeepsNewest: until a close that discards the backlog; readings refused after stopping are in no count of the source either.
- PumpSpec.LosslessDelivers: a sink that raises counts its batch as an error; the batch has still been handed over.
- Log messages, the join timeouts of close, the `on_pending` latch and `stats` of the bus.
- `NaN`-free number formatting, ISO times and unique file names of the CSV and bundle export.
- The scipy branch of `_nnls`, the assembly of the weighted matrix, bootstrap and noise statistics; the fit is a parameter of Pruning.SolveFull.
- `update`, project membership, `from_list`, `clear` and lenses of the tag store.
- File-system errors, name sanitising and sub-millisecond start times of the video store; the policy strings of `prune_retention` are parsed before the model starts.
- Hard serial errors, reply matching after timeouts, stream-frame and event field parsing (raw lines are kept), integers of more than 4300 digits, and the RESPOND worker threads of the LSC driver.
- Qt, gRPC, HTTP and device drivers: I/O around what is modelled.
