/** Coverage, point lookup and retention over one camera's index
    (ferrodac/core/videostore.py:147-173 and 267-316). */
module VideoQueries {
  import opened Values
  import opened VideoSpec

  const SLACK := 2000  // ms

  type Span = (int, int)

  // ----- coverage -----

  /** One round of the coverage loop. */
  function Join(out: seq<Span>, e: Entry): seq<Span> {
    if out != [] && e.t0 <= out[|out| - 1].1 + SLACK
    then out[..|out| - 1] + [(out[|out| - 1].0, if out[|out| - 1].1 >= e.t1 then out[|out| - 1].1 else e.t1)]
    else out + [(e.t0, e.t1)]
  }

  function JoinAll(index: seq<Entry>): seq<Span> {
    if index == [] then [] else Join(JoinAll(index[..|index| - 1]), index[|index| - 1])
  }

  method Coverage(index: seq<Entry>) returns (out: seq<Span>)
    ensures out == JoinAll(index)
  {
    out := [];
    for i := 0 to |index|
      invariant out == JoinAll(index[..i])
    {
      var e := index[i];
      if out != [] && e.t0 <= out[|out| - 1].1 + SLACK {
        out := out[..|out| - 1] + [(out[|out| - 1].0, if out[|out| - 1].1 >= e.t1 then out[|out| - 1].1 else e.t1)];
      } else {
        out := out + [(e.t0, e.t1)];
      }
      assert index[..i + 1][..i] == index[..i];
    }
    assert index[..|index|] == index;
  }

  predicate Apart(out: seq<Span>) { forall i, j :: 0 <= i < j < |out| ==> out[i].1 + 2000 < out[j].0 }

  predicate Holds(out: seq<Span>, e: Entry) { exists i :: 0 <= i < |out| && out[i].0 <= e.t0 && e.t1 <= out[i].1 }

  /** t is inside a segment, or at most two seconds after the end of one. */
  predicate Backed(index: seq<Entry>, t: int) {
    exists i :: 0 <= i < |index| && index[i].t0 <= t <= index[i].t1 + 2000
  }

  /** t is inside a span, or at most two seconds after the end of one. */
  predicate Reported(out: seq<Span>, t: int) {
    exists i :: 0 <= i < |out| && out[i].0 <= t <= out[i].1 + 2000
  }

  predicate StartBy(out: seq<Span>, t: int) { forall i :: 0 <= i < |out| ==> out[i].0 <= t }

  predicate AllHeld(out: seq<Span>, index: seq<Entry>) { forall e :: e in index ==> Holds(out, e) }

  /** Spans are more than two seconds apart, every segment lies in one, and, with that slack
      after each end, they report exactly the instants the segments back, whatever ends the
      segments have. */
  lemma {:induction false} CoverageFacts(index: seq<Entry>, t: int)
    requires SortedIndex(index)
    ensures var out := JoinAll(index);
            && Apart(out) && AllHeld(out, index) && (Reported(out, t) <==> Backed(index, t))
            && (index != [] ==> StartBy(out, index[|index| - 1].t0))
  {
    if index != [] {
      var n := |index| - 1;
      var init, e := index[..n], index[n];
      var p := JoinAll(init);
      CoverageFacts(init, t);
      SortedLast(index);
      assert StartBy(p, e.t0);
      assert index == init + [e];
      assert JoinAll(index) == Join(p, e);
      hide *;
      JoinApart(p, e);
      JoinHolds(p, init, e);
      JoinReports(p, e, t);
      BackedSnoc(init, e, t);
    }
  }

  lemma SortedLast(index: seq<Entry>)
    requires index != [] && SortedIndex(index)
    ensures SortedIndex(index[..|index| - 1])
    ensures |index| > 1 ==> index[|index| - 2].t0 <= index[|index| - 1].t0
  {
    assert |index| > 1 ==> BY_START(index[|index| - 2], index[|index| - 1]);
  }

  lemma JoinApart(p: seq<Span>, e: Entry)
    requires Apart(p) && StartBy(p, e.t0)
    ensures Apart(Join(p, e)) && StartBy(Join(p, e), e.t0)
  {
  }

  lemma JoinHolds(p: seq<Span>, init: seq<Entry>, e: Entry)
    requires AllHeld(p, init) && StartBy(p, e.t0)
    ensures AllHeld(Join(p, e), init + [e])
  {
    var out := Join(p, e);
    forall x | x in init + [e] ensures Holds(out, x) {
      if x in init {
        assert Holds(p, x);
        var i :| 0 <= i < |p| && p[i].0 <= x.t0 && x.t1 <= p[i].1;
        assert out[i].0 <= x.t0 && x.t1 <= out[i].1;
      } else {
        assert out[|out| - 1].0 <= e.t0 && e.t1 <= out[|out| - 1].1;
      }
    }
  }

  lemma JoinReports(p: seq<Span>, e: Entry, t: int)
    requires StartBy(p, e.t0)
    ensures Reported(Join(p, e), t) <==> Reported(p, t) || e.t0 <= t <= e.t1 + SLACK
  {
    var out, n := Join(p, e), |p| - 1;
    if Reported(p, t) {
      var i :| 0 <= i < |p| && p[i].0 <= t <= p[i].1 + SLACK;
      assert out[i].0 <= t <= out[i].1 + SLACK;
    }
    if e.t0 <= t <= e.t1 + SLACK {
      assert out[|out| - 1].0 <= t <= out[|out| - 1].1 + SLACK;
    }
    if Reported(out, t) {
      var i :| 0 <= i < |out| && out[i].0 <= t <= out[i].1 + SLACK;
      assert i < |p| && t <= p[i].1 + SLACK ==> p[i].0 <= t <= p[i].1 + SLACK;
    }
  }

  lemma BackedSnoc(init: seq<Entry>, e: Entry, t: int)
    ensures Backed(init + [e], t) <==> Backed(init, t) || e.t0 <= t <= e.t1 + SLACK
  {
    var index := init + [e];
    assert forall i :: 0 <= i < |init| ==> index[i] == init[i];
    assert index[|init|] == e;
  }

  // ----- the segment at an instant -----

  predicate At(e: Entry, t: int) { e.t0 <= t < e.t1 }

  /** The choice of the loop in `segment_entry_at`. */
  function EntryAt(index: seq<Entry>, t: int): Option<Entry> {
    if index == [] then None
    else
      var best, e := EntryAt(index[..|index| - 1], t), index[|index| - 1];
      if At(e, t) && (best.None? || e.t0 >= best.value.t0) then Some(e) else best
  }

  lemma {:induction false} EntryAtFacts(index: seq<Entry>, t: int)
    ensures EntryAt(index, t).None? <==> forall e :: e in index ==> !At(e, t)
    ensures EntryAt(index, t).Some? ==> EntryAt(index, t).value in index && At(EntryAt(index, t).value, t)
  {
    if index != [] {
      var n := |index| - 1;
      EntryAtFacts(index[..n], t);
      assert index == index[..n] + [index[n]];
    }
  }

  /** `segment_entry_at`: a segment containing t with the latest start, the last such. */
  method SegmentEntryAt(index: seq<Entry>, t: int) returns (best: Option<Entry>)
    ensures best == EntryAt(index, t)
    ensures best.None? <==> forall i :: 0 <= i < |index| ==> !At(index[i], t)
    ensures best.Some? ==> exists k :: 0 <= k < |index| && index[k] == best.value && At(index[k], t)
                             && (forall i :: 0 <= i < |index| && At(index[i], t) ==> index[i].t0 <= index[k].t0)
                             && (forall i :: k < i < |index| && At(index[i], t) ==> index[i].t0 < index[k].t0)
  {
    best := None;
    ghost var k := 0;
    for i := 0 to |index|
      invariant best == EntryAt(index[..i], t)
      invariant best.None? <==> forall j :: 0 <= j < i ==> !At(index[j], t)
      invariant best.Some? ==> k < i && index[k] == best.value && At(index[k], t)
      invariant best.Some? ==> forall j :: 0 <= j < i && At(index[j], t) ==> index[j].t0 <= index[k].t0
      invariant best.Some? ==> forall j :: k < j < i && At(index[j], t) ==> index[j].t0 < index[k].t0
    {
      var e := index[i];
      if At(e, t) && (best.None? || e.t0 >= best.value.t0) {
        best := Some(e);
        k := i;
      }
      assert index[..i + 1][..i] == index[..i];
    }
    assert index[..|index|] == index;
  }

  // ----- retention -----

  function TotalSize(index: seq<Entry>): nat {
    if index == [] then 0 else index[0].size + TotalSize(index[1..])
  }

  /** The size of an index is that of its segments, added up. */
  lemma {:induction false} TotalIs(index: seq<Entry>, e: Entry)
    ensures TotalSize([]) == 0 && TotalSize(index + [e]) == TotalSize(index) + e.size
  {
    if index == [] {
      assert [] + [e] == [e] && [e][1..] == [];
    } else {
      TotalIs(index[1..], e);
      assert (index + [e])[1..] == index[1..] + [e];
    }
  }

  /** How many of the oldest segments have to go to meet the cap. */
  function Excess(index: seq<Entry>, cap: nat): (k: nat)
    ensures k <= |index|
    ensures k == |index| || TotalSize(index[k..]) <= cap
    ensures forall j :: 0 <= j < k ==> TotalSize(index[j..]) > cap
  {
    if index == [] || TotalSize(index) <= cap then
      assert index[0..] == index;
      0
    else
      var k := Excess(index[1..], cap);
      assert forall j :: 0 < j <= |index| ==> index[j..] == index[1..][j - 1..];
      assert index[0..] == index;
      k + 1
  }

  lemma {:induction false} SizeSplit(index: seq<Entry>, k: nat)
    requires k <= |index|
    ensures TotalSize(index) == TotalSize(index[..k]) + TotalSize(index[k..])
  {
    if k == 0 {
      assert index[0..] == index;
    } else {
      SizeSplit(index[1..], k - 1);
      assert index[..k][1..] == index[1..][..k - 1] && index[k..] == index[1..][k - 1..];
    }
  }

  /** Moving one segment from the kept to the dropped side. */
  lemma SizeStep(index: seq<Entry>, n: nat)
    requires n < |index|
    ensures TotalSize(index[n..]) == index[n].size + TotalSize(index[n + 1..])
    ensures TotalSize(index[..n + 1]) == TotalSize(index[..n]) + index[n].size
  {
    assert index[n..][1..] == index[n + 1..];
    assert index[..n + 1][..n] == index[..n] && index[..n + 1][n..] == [index[n]];
    SizeSplit(index[..n + 1], n);
    assert [index[n]][1..] == [];
  }

  /** The size policy of `prune_retention`: pop the oldest while over the cap. The fewest
      segments that do are dropped, with their files and nothing else. */
  method PruneToSize(c: Cam, cap: nat) returns (r: Cam, freed: nat)
    ensures var k := Excess(c.index, cap);
            && r.index == c.index[k..]
            && r.files == c.files - Names(c.index[..k])
            && freed == TotalSize(c.index[..k]) && freed + TotalSize(r.index) == TotalSize(c.index)
  {
    hide Names, TotalSize, Excess;
    EmptyPrefix(c.index);
    assert c.index[0..] == c.index;
    var entries, files := c.index, c.files;
    var total := TotalSize(entries);
    var n := 0;
    freed := 0;
    while entries != [] && total > cap
      invariant 0 <= n <= |c.index| && entries == c.index[n..] && total == TotalSize(entries)
      invariant freed == TotalSize(c.index[..n]) && freed + total == TotalSize(c.index)
      invariant files == c.files - Names(c.index[..n])
      invariant forall j :: 0 <= j < n ==> TotalSize(c.index[j..]) > cap
      decreases |entries|
    {
      var e := entries[0];
      SizeStep(c.index, n);
      entries := entries[1..];
      total := total - e.size;
      freed := freed + e.size;
      files := files - {e.file};
      NamesSnoc(c.index, n);
      n := n + 1;
    }
    ExcessUnique(c.index, cap, n);
    r := c.(files := files);
    if freed > 0 {
      r := r.(indexed := true, index := entries);
    } else {
      NothingFreed(c.index, cap, n);
    }
  }

  function Names(index: seq<Entry>): set<FileName> { set e | e in index :: e.file }

  lemma EmptyPrefix(index: seq<Entry>)
    ensures TotalSize(index[..0]) == 0 && Names(index[..0]) == {}
  {
  }

  lemma NamesSnoc(index: seq<Entry>, n: nat)
    requires n < |index|
    ensures Names(index[..n + 1]) == Names(index[..n]) + {index[n].file}
  {
    assert index[..n + 1] == index[..n] + [index[n]];
  }

  /** An index that is not saved again has nothing to drop. */
  lemma NothingFreed(index: seq<Entry>, cap: nat, n: nat)
    requires n <= |index| && TotalSize(index[..n]) == 0
    requires forall j :: 0 <= j < n ==> TotalSize(index[j..]) > cap
    requires n == |index| || TotalSize(index[n..]) <= cap
    ensures n == 0 && index[n..] == index
  {
    SizeSplit(index, n);
    assert index[0..] == index;
    assert TotalSize(index[0..]) == TotalSize(index);
  }

  lemma ExcessUnique(index: seq<Entry>, cap: nat, n: nat)
    requires n <= |index| && (n == |index| || TotalSize(index[n..]) <= cap)
    requires forall j :: 0 <= j < n ==> TotalSize(index[j..]) > cap
    ensures n == Excess(index, cap)
  {
  }

  function Kept(index: seq<Entry>, cutoff: int): seq<Entry> {
    if index == [] then [] else
      Kept(index[..|index| - 1], cutoff) + (if index[|index| - 1].t1 < cutoff then [] else [index[|index| - 1]])
  }

  /** The files of the segments that end before the cutoff. */
  function Expired(index: seq<Entry>, cutoff: int): set<FileName> {
    set i | 0 <= i < |index| && index[i].t1 < cutoff :: index[i].file
  }

  /** `delete_older_than`: drop the segments that end before the cutoff. */
  method DeleteOlderThan(c: Cam, cutoff: int) returns (r: Cam, freed: nat)
    ensures r.index == Kept(c.index, cutoff)
    ensures r.files == c.files - Expired(c.index, cutoff)
    ensures freed + TotalSize(r.index) == TotalSize(c.index)
  {
    hide TotalSize, Names;
    EmptyPrefix(c.index);
    var keep, files := [], c.files;
    assert keep == c.index[..0];
    freed := 0;
    for i := 0 to |c.index|
      invariant keep == Kept(c.index[..i], cutoff)
      invariant files == c.files - (set k | 0 <= k < i && c.index[k].t1 < cutoff :: c.index[k].file)
      invariant freed + TotalSize(keep) == TotalSize(c.index[..i])
    {
      var e := c.index[i];
      assert c.index[..i + 1][..i] == c.index[..i];
      SizeStep(c.index, i);
      if e.t1 < cutoff {
        freed := freed + e.size;
        files := files - {e.file};
        assert (set k | 0 <= k < i + 1 && c.index[k].t1 < cutoff :: c.index[k].file)
            == (set k | 0 <= k < i && c.index[k].t1 < cutoff :: c.index[k].file) + {e.file};
      } else {
        assert (set k | 0 <= k < i + 1 && c.index[k].t1 < cutoff :: c.index[k].file)
            == (set k | 0 <= k < i && c.index[k].t1 < cutoff :: c.index[k].file);
        KeepOne(keep, e);
        keep := keep + [e];
      }
    }
    assert c.index[..|c.index|] == c.index;
    r := c.(indexed := true, index := keep, files := files);
  }

  lemma KeepOne(keep: seq<Entry>, e: Entry)
    ensures TotalSize(keep + [e]) == TotalSize(keep) + e.size
  {
    assert (keep + [e])[..|keep|] == keep && (keep + [e])[..|keep| + 1] == keep + [e];
    SizeStep(keep + [e], |keep|);
  }

  /** Exactly the segments that reach the cutoff are kept, in order. */
  lemma {:induction false} KeptFacts(index: seq<Entry>, cutoff: int)
    ensures forall e :: e in Kept(index, cutoff) <==> e in index && e.t1 >= cutoff
    ensures SortedIndex(index) ==> SortedIndex(Kept(index, cutoff))
  {
    if index != [] {
      var n := |index| - 1;
      var init, e, k := index[..n], index[n], Kept(index[..n], cutoff);
      KeptFacts(init, cutoff);
      assert index == init + [e];
      if SortedIndex(index) {
        SortedLast(index);
        assert forall i :: 0 <= i < n ==> BY_START(index[i], e);
        assert forall x :: x in k ==> x in init;
        assert SortedIndex(k) && forall x :: x in k ==> BY_START(x, e);
      }
    }
  }

  /** ... each as often as it is indexed. */
  lemma {:induction false} KeptCounts(index: seq<Entry>, cutoff: int, e: Entry)
    ensures multiset(Kept(index, cutoff))[e] == if e.t1 >= cutoff then multiset(index)[e] else 0
  {
    if index != [] {
      var n := |index| - 1;
      KeptCounts(index[..n], cutoff, e);
      assert index == index[..n] + [index[n]];
    }
  }
}
