/** The scalar lane of the prefetch cache (ferrodac/store/prefetch.py) as functions on
    values, and the coherence of every state its threads can reach with the hub it
    stands in for. The class is in PrefetchCache.dfy. */
module PrefetchSpec {
  import opened Values
  import opened Sorting
  import opened Intervals
  import D = Decimate

  datatype Sample = Sample(t: real, v: Val)

  type Series = seq<Sample>

  predicate Increasing(s: Series) { forall i, j :: 0 <= i < j < |s| ==> s[i].t < s[j].t }

  // ----- merging a fetch into the cached arrays -----

  const BY_TIME: (Sample, Sample) -> bool := (p: Sample, q: Sample) => p.t <= q.t

  /** Keep the samples whose time exceeds that of their left neighbour. */
  function KeepRising(prev: real, s: Series): Series
    decreases |s|
  {
    if s == [] then [] else (if s[0].t > prev then [s[0]] else []) + KeepRising(s[0].t, s[1..])
  }

  function Ingested(held: Series, fetched: Series): Series {
    if held == [] then fetched
    else
      var s := Sort(BY_TIME, held + fetched);
      [s[0]] + KeepRising(s[0].t, s[1..])
  }

  /** The first value stored for time t. */
  function FirstAt(s: Series, t: real): Option<Val> {
    if s == [] then None else if s[0].t == t then Some(s[0].v) else FirstAt(s[1..], t)
  }

  lemma {:induction false} InsertFirstAt(x: Sample, s: Series, t: real)
    requires SortedBy(BY_TIME, s)
    ensures FirstAt(Insert(BY_TIME, x, s), t) == FirstAt([x] + s, t)
  {
    if s != [] && x.t > s[0].t {
      InsertFirstAt(x, s[1..], t);
      var r := Insert(BY_TIME, x, s);
      assert r[1..] == Insert(BY_TIME, x, s[1..]);
      assert ([x] + s)[1..] == s && ([x] + s[1..])[1..] == s[1..];
    }
  }

  lemma {:induction false} SortFirstAt(s: Series, t: real)
    ensures FirstAt(Sort(BY_TIME, s), t) == FirstAt(s, t)
  {
    if s != [] {
      assert TotalPreorder(BY_TIME);
      SortSorts(BY_TIME, s[1..]);
      SortFirstAt(s[1..], t);
      InsertFirstAt(s[0], Sort(BY_TIME, s[1..]), t);
      assert ([s[0]] + Sort(BY_TIME, s[1..]))[1..] == Sort(BY_TIME, s[1..]);
    }
  }

  predicate AllAfter(s: Series, prev: real) { forall i :: 0 <= i < |s| ==> s[i].t > prev }

  predicate AllFrom(s: Series, prev: real) { forall i :: 0 <= i < |s| ==> s[i].t >= prev }

  lemma SortedTail(s: Series)
    requires s != [] && SortedBy(BY_TIME, s)
    ensures SortedBy(BY_TIME, s[1..]) && AllFrom(s[1..], s[0].t)
  {
    assert forall i :: 0 <= i < |s[1..]| ==> s[1..][i] == s[i + 1] && BY_TIME(s[0], s[i + 1]);
  }

  lemma {:induction false} KeepRisingShape(prev: real, s: Series)
    requires SortedBy(BY_TIME, s) && AllFrom(s, prev)
    ensures Increasing(KeepRising(prev, s)) && AllAfter(KeepRising(prev, s), prev)
    ensures forall x :: x in KeepRising(prev, s) ==> x in s
    decreases |s|
  {
    if s != [] {
      SortedTail(s);
      KeepRisingShape(s[0].t, s[1..]);
      assert KeepRising(prev, s) == (if s[0].t > prev then [s[0]] else []) + KeepRising(s[0].t, s[1..]);
      assert s == [s[0]] + s[1..];
    }
  }

  lemma {:induction false} KeepRisingFirst(prev: real, s: Series, t: real)
    requires SortedBy(BY_TIME, s) && AllFrom(s, prev)
    ensures FirstAt(KeepRising(prev, s), t) == if t > prev then FirstAt(s, t) else None
    decreases |s|
  {
    if s != [] {
      var rest := KeepRising(s[0].t, s[1..]);
      SortedTail(s);
      KeepRisingFirst(s[0].t, s[1..], t);
      FirstAtConcat(if s[0].t > prev then [s[0]] else [], rest, t);
      assert [s[0]][1..] == [];
      if t < s[0].t {
        NothingBefore(s[1..], t);
      }
    }
  }

  lemma {:induction false} NothingBefore(s: Series, t: real)
    requires AllAfter(s, t)
    ensures FirstAt(s, t) == None
  {
    if s != [] {
      NothingBefore(s[1..], t);
    }
  }

  /** No time is lost or invented, and where both sides have a sample the one already cached
      wins. The times come out strictly increasing except that a first fetch is stored as it
      arrives, so there exactly if the fetch itself is. */
  lemma IngestedFacts(held: Series, fetched: Series, t: real)
    ensures Increasing(Ingested(held, fetched)) <==> held != [] || Increasing(fetched)
    ensures FirstAt(Ingested(held, fetched), t) ==
              if FirstAt(held, t) != None then FirstAt(held, t) else FirstAt(fetched, t)
    ensures forall x :: x in Ingested(held, fetched) ==> x in held || x in fetched
    ensures held == [] ==> Ingested(held, fetched) == fetched
  {
    if held != [] {
      var all := held + fetched;
      var s := Sort(BY_TIME, all);
      assert TotalPreorder(BY_TIME);
      SortSorts(BY_TIME, all);
      SortMembers(BY_TIME, all);
      SortFirstAt(all, t);
      FirstAtConcat(held, fetched, t);
      DedupFacts(s, t);
    }
  }

  lemma DedupFacts(s: Series, t: real)
    requires s != [] && SortedBy(BY_TIME, s)
    ensures var r := [s[0]] + KeepRising(s[0].t, s[1..]);
            Increasing(r) && FirstAt(r, t) == FirstAt(s, t) && forall x :: x in r ==> x in s
  {
    hide KeepRising;
    var rest := KeepRising(s[0].t, s[1..]);
    SortedTail(s);
    KeepRisingShape(s[0].t, s[1..]);
    KeepRisingFirst(s[0].t, s[1..], t);
    FirstAtConcat([s[0]], rest, t);
    assert [s[0]][1..] == [];
    if t < s[0].t {
      NothingBefore(s[1..], t);
    }
  }

  lemma {:induction false} FirstAtConcat(a: Series, b: Series, t: real)
    ensures FirstAt(a + b, t) == if FirstAt(a, t) != None then FirstAt(a, t) else FirstAt(b, t)
  {
    if a == [] {
      assert a + b == b;
    } else {
      FirstAtConcat(a[1..], b, t);
      assert (a + b)[1..] == a[1..] + b;
    }
  }

  /** In a strictly increasing series membership is lookup. */
  lemma {:induction false} MemberIsFirst(s: Series, x: Sample)
    requires Increasing(s)
    ensures x in s <==> FirstAt(s, x.t) == Some(x.v)
  {
    if s != [] {
      MemberIsFirst(s[1..], x);
      assert x in s <==> x == s[0] || x in s[1..];
      if s[0].t == x.t {
        NothingBefore(s[1..], x.t);
      }
    }
  }

  /** Two strictly increasing series with the same samples are the same series. */
  lemma {:induction false} IncreasingUnique(a: Series, b: Series)
    requires Increasing(a) && Increasing(b) && forall x :: x in a <==> x in b
    ensures a == b
  {
    if a == [] || b == [] {
      HasMember(a);
      HasMember(b);
    } else {
      assert a[0] in b && b[0] in a;
      assert a[0] == b[0];
      forall x ensures x in a[1..] <==> x in b[1..] {
        assert x in a[1..] <==> x in a && x.t > a[0].t by { TailMember(a, x); }
        assert x in b[1..] <==> x in b && x.t > b[0].t by { TailMember(b, x); }
      }
      IncreasingUnique(a[1..], b[1..]);
      assert a == [a[0]] + a[1..] && b == [b[0]] + b[1..];
    }
  }

  lemma HasMember(a: Series)
    ensures a == [] || exists x :: x in a
  {
    assert a == [] || a[0] in a;
  }

  lemma TailMember(a: Series, x: Sample)
    requires a != [] && Increasing(a)
    ensures x in a[1..] <==> x in a && x.t > a[0].t
  {
    assert forall i :: 0 < i < |a| ==> a[1..][i - 1] == a[i];
  }

  // ----- windows -----

  /** `(t >= t0) & (t <= t1)` as a mask. */
  function Window(s: Series, t0: real, t1: real): Series {
    if s == [] then [] else (if t0 <= s[0].t <= t1 then [s[0]] else []) + Window(s[1..], t0, t1)
  }

  lemma {:induction false} WindowMembers(s: Series, t0: real, t1: real)
    ensures forall x :: x in Window(s, t0, t1) <==> x in s && t0 <= x.t <= t1
  {
    if s != [] {
      WindowMembers(s[1..], t0, t1);
      var head := if t0 <= s[0].t <= t1 then [s[0]] else [];
      assert s == [s[0]] + s[1..] && Window(s, t0, t1) == head + Window(s[1..], t0, t1);
      hide Window;
    }
  }

  lemma {:induction false} WindowIncreasing(s: Series, t0: real, t1: real)
    requires Increasing(s)
    ensures Increasing(Window(s, t0, t1)) && |Window(s, t0, t1)| <= |s|
  {
    if s != [] {
      WindowIncreasing(s[1..], t0, t1);
      WindowMembers(s[1..], t0, t1);
      var rest := Window(s[1..], t0, t1);
      assert Window(s, t0, t1) == (if t0 <= s[0].t <= t1 then [s[0]] else []) + rest;
      hide Window;
      assert AllAfter(s[1..], s[0].t);
      forall i | 0 <= i < |rest| ensures rest[i].t > s[0].t {
        assert rest[i] in s[1..];
      }
    }
  }

  // ----- queries -----

  function Bins(s: Series): (r: seq<D.Bin>)
    ensures |r| == |s|
  {
    seq(|s|, i requires 0 <= i < |s| => D.Bin(s[i].t, s[i].v, s[i].v))
  }

  function Points(s: Series): (r: seq<(Val, Val)>)
    ensures |r| == |s|
  {
    seq(|s|, i requires 0 <= i < |s| => (Num(s[i].t), s[i].v))
  }

  function Query(s: Series, t0: real, t1: real, maxPoints: nat): seq<(Val, Val)>
    requires maxPoints >= 1
  {
    var w := Window(s, t0, t1);
    if |w| > maxPoints * 2 then D.Interleave(D.Downsample(Bins(w), Max(2, |w| / maxPoints))) else Points(w)
  }

  /** The least and greatest readable value of a polyline. */
  function LeastY(p: seq<(Val, Val)>): (v: Val)
    ensures !v.NaN?
  {
    if p == [] then PosInf else D.Lesser(if p[0].1.NaN? then PosInf else p[0].1, LeastY(p[1..]))
  }

  function GreatestY(p: seq<(Val, Val)>): (v: Val)
    ensures !v.NaN?
  {
    if p == [] then NegInf else D.Greater(if p[0].1.NaN? then NegInf else p[0].1, GreatestY(p[1..]))
  }

  lemma {:induction false} PointsExtrema(s: Series)
    ensures LeastY(Points(s)) == D.Least(Bins(s)) && GreatestY(Points(s)) == D.Greatest(Bins(s))
  {
    if s != [] {
      PointsExtrema(s[1..]);
      assert Points(s)[1..] == Points(s[1..]) && Bins(s)[1..] == Bins(s[1..]);
    }
  }

  /** An envelope whose lanes are ordered bucket by bucket. */
  predicate LanesOrdered(s: seq<D.Bin>) {
    forall i :: 0 <= i < |s| ==> (s[i].mn.NaN? && s[i].mx.NaN?) || Leq(s[i].mn, s[i].mx)
  }

  lemma {:induction false} InterleaveExtrema(s: seq<D.Bin>)
    requires LanesOrdered(s)
    ensures LeastY(D.Interleave(s)) == D.Least(s) && GreatestY(D.Interleave(s)) == D.Greatest(s)
  {
    if s != [] {
      InterleaveExtrema(s[1..]);
      var p := D.Interleave(s);
      assert p[1..][1..] == D.Interleave(s[1..]);
    }
  }

  lemma BucketOrdered(row: seq<D.Bin>)
    requires row != [] && forall i :: 0 <= i < |row| ==> row[i].mn == row[i].mx
    ensures LanesOrdered([D.Fold(row)])
  {
    if !D.AllBreaks(row) {
      var i :| 0 <= i < |row| && !row[i].mn.NaN?;
      D.ExtremaMember(row, i);
    }
  }

  lemma {:induction false} RowsSameLanes(s: seq<D.Bin>, f: nat)
    requires f >= 1 && forall i :: 0 <= i < |s| ==> s[i].mn == s[i].mx
    ensures forall r: seq<D.Bin> :: r in D.Rows(s, f) ==> forall i :: 0 <= i < |r| ==> r[i].mn == r[i].mx
    decreases |s|
  {
    if |s| >= f {
      RowsSameLanes(s[f..], f);
    }
  }

  /** A bucketed answer has at most three points per requested one... */
  lemma BucketBudget(k: nat, f: nat, n: nat, maxPoints: nat)
    requires maxPoints >= 1 && n > 2 * maxPoints && f == n / maxPoints && f >= 2
    requires k >= 1 && (k - 1) * f < n
    ensures 2 * k <= 3 * maxPoints
  {
    var r, d := n % maxPoints, k - 1 - maxPoints;
    assert n == f * maxPoints + r;
    assert (k - 1) * f == d * f + f * maxPoints;
    assert d * f <= maxPoints - 2;
    if d >= 0 {
      assert d * 2 <= d * f;
    } else {
      assert k <= maxPoints;
    }
  }

  /** ... and exactly the extremes of the window. */
  lemma QueryFacts(s: Series, t0: real, t1: real, maxPoints: nat)
    requires maxPoints >= 1
    ensures |Query(s, t0, t1, maxPoints)| <= 3 * maxPoints
    ensures LeastY(Query(s, t0, t1, maxPoints)) == LeastY(Points(Window(s, t0, t1)))
    ensures GreatestY(Query(s, t0, t1, maxPoints)) == GreatestY(Points(Window(s, t0, t1)))
  {
    var w := Window(s, t0, t1);
    var n := |w|;
    if n > maxPoints * 2 {
      var b, f := Bins(w), n / maxPoints;
      assert f >= 2;
      D.BucketCount(b, f);
      BucketBudget(|D.Rows(b, f)|, f, n, maxPoints);
      hide Window, D.Rows, D.Interleave, D.Least, D.Greatest, D.AllSound, LanesOrdered;
      D.AlignedSound(b, f);
      D.LevelKeepsExtrema(b, f);
      LevelOrdered(b, f);
      InterleaveExtrema(D.Downsample(b, f));
      PointsExtrema(w);
    }
  }

  lemma LevelOrdered(b: seq<D.Bin>, f: nat)
    requires f >= 1 && forall i :: 0 <= i < |b| ==> b[i].mn == b[i].mx
    ensures LanesOrdered(D.Downsample(b, f))
  {
    var d := D.Downsample(b, f);
    RowsSameLanes(b, f);
    forall i | 0 <= i < |d| ensures (d[i].mn.NaN? && d[i].mx.NaN?) || Leq(d[i].mn, d[i].mx) {
      var row := D.Rows(b, f)[i];
      assert row in D.Rows(b, f);
      BucketOrdered(row);
      assert [D.Fold(row)][0] == d[i];
    }
  }

  /** A window of at most twice the budget comes back sample by sample. */
  lemma QueryRaw(s: Series, t0: real, t1: real, maxPoints: nat)
    requires maxPoints >= 1 && |Window(s, t0, t1)| <= 2 * maxPoints
    ensures var w, r := Window(s, t0, t1), Query(s, t0, t1, maxPoints);
            |r| == |w| && forall i :: 0 <= i < |w| ==> r[i] == (Num(w[i].t), w[i].v)
  {
    hide Window;
  }

  /** A larger one comes back as the least, then the greatest value of each bucket of
      f = max(2, n / maxPoints) samples, at a time inside the window. */
  lemma QueryBuckets(s: Series, t0: real, t1: real, maxPoints: nat, f: nat, i: nat)
    requires maxPoints >= 1 && |Window(s, t0, t1)| > 2 * maxPoints && f == Max(2, |Window(s, t0, t1)| / maxPoints)
    requires i < |D.Downsample(Bins(Window(s, t0, t1)), f)|
    ensures var d, r := D.Downsample(Bins(Window(s, t0, t1)), f), Query(s, t0, t1, maxPoints);
            && |r| == 2 * |d| && t0 <= d[i].t <= t1
            && r[2 * i] == (Num(d[i].t), d[i].mn) && r[2 * i + 1] == (Num(d[i].t), d[i].mx)
    ensures var w := Window(s, t0, t1);
            forall k :: 0 <= k < |w| ==> Bins(w)[k] == D.Bin(w[k].t, w[k].v, w[k].v)
  {
    var b := Bins(Window(s, t0, t1));
    BinsWithin(s, t0, t1);
    hide Window, D.Downsample, D.Interleave;
    D.LevelWithin(b, f, t0, t1);
    D.InterleaveAt(D.Downsample(b, f), i);
  }

  lemma BinsWithin(s: Series, t0: real, t1: real)
    ensures D.TimesWithin(Bins(Window(s, t0, t1)), t0, t1)
  {
    var w := Window(s, t0, t1);
    WindowMembers(s, t0, t1);
    hide Window;
    forall i | 0 <= i < |w| ensures t0 <= Bins(w)[i].t <= t1 {
      assert w[i] in w;
    }
  }

  // ----- the cache state -----

  datatype Cache = Cache(sc: map<string, Series>, cov: map<string, seq<Interval>>, focus: Option<real>)

  function Stored(c: Cache, k: string): Series { if k in c.sc then c.sc[k] else [] }

  function Coverage(c: Cache, k: string): seq<Interval> { if k in c.cov then c.cov[k] else [] }

  ghost function Total(m: map<string, Series>): nat {
    if m == map[] then 0 else
      var k :| k in m;
      |m[k]| + Total(m - {k})
  }

  lemma {:induction false} TotalWithout(m: map<string, Series>, k: string)
    requires k in m
    ensures Total(m) == |m[k]| + Total(m - {k})
    decreases |m|
  {
    var j :| j in m && Total(m) == |m[j]| + Total(m - {j});
    if j != k {
      TotalWithout(m - {j}, k);
      TotalWithout(m - {k}, j);
      assert m - {j} - {k} == m - {k} - {j};
    }
  }

  /** 8 bytes for the time and 8 for the value of every cached sample. */
  ghost function Bytes(c: Cache): nat { 16 * Total(c.sc) }

  /** `_trim_locked`: samples and coverage outside [lo, hi] go, for every series. */
  function Trimmed(c: Cache, lo: real, hi: real): Cache {
    Cache(map k | k in c.sc :: Window(c.sc[k], lo, hi),
          c.cov + map k | k in c.sc :: Common(Coverage(c, k), [(lo, hi)]),
          c.focus)
  }

  /** The state of the trim loop once the series in `done` are cut. */
  function TrimmedOn(c: Cache, done: set<string>, lo: real, hi: real): Cache {
    Cache(map k | k in c.sc :: if k in done then Window(c.sc[k], lo, hi) else c.sc[k],
          c.cov + map k | k in c.sc && k in done :: Common(Coverage(c, k), [(lo, hi)]),
          c.focus)
  }

  lemma TrimEnds(c: Cache, lo: real, hi: real)
    ensures TrimmedOn(c, {}, lo, hi) == c
    ensures TrimmedOn(c, c.sc.Keys, lo, hi) == Trimmed(c, lo, hi)
  {
    hide Window, Common;
    var r, t := TrimmedOn(c, c.sc.Keys, lo, hi), Trimmed(c, lo, hi);
    assert r.sc == t.sc && r.cov == t.cov;
    assert TrimmedOn(c, {}, lo, hi).sc == c.sc;
  }

  lemma TrimOne(c: Cache, done: set<string>, s: string, lo: real, hi: real)
    requires s in c.sc && s !in done
    ensures var p := TrimmedOn(c, done, lo, hi);
            s in p.sc &&
            TrimmedOn(c, done + {s}, lo, hi) ==
              Cache(p.sc[s := Window(p.sc[s], lo, hi)], p.cov[s := Common(Coverage(p, s), [(lo, hi)])], p.focus)
  {
    hide Window, Common;
    var p, q := TrimmedOn(c, done, lo, hi), TrimmedOn(c, done + {s}, lo, hi);
    assert q.sc == p.sc[s := Window(p.sc[s], lo, hi)];
    assert Coverage(p, s) == Coverage(c, s);
    assert q.cov == p.cov[s := Common(Coverage(p, s), [(lo, hi)])];
  }

  /** `_evict_locked`: shrink the kept window around the focus until the budget is met or
      the window is below 30 s. */
  ghost function Evicted(c: Cache, maxBytes: int, keep: real): Cache
    requires c.focus.Some?
    decreases keep
  {
    if Bytes(c) > maxBytes && keep >= 30.0
    then Evicted(Trimmed(c, c.focus.value - keep, c.focus.value + keep), maxBytes, keep * 0.5)
    else c
  }

  /** `_mark_locked`: union the fetched range into the coverage, then evict. */
  ghost function Marked(c: Cache, k: string, a: real, b: real, maxBytes: int, keep: real): Cache {
    var c' := c.(cov := c.cov[k := Merged(Coverage(c, k) + [(a, b)])]);
    if c'.focus.None? then c' else Evicted(c', maxBytes, keep)
  }

  lemma FocusKept(c: Cache, lo: real, hi: real)
    ensures Trimmed(c, lo, hi).focus == c.focus
  {
  }

  lemma EvictStep(c: Cache, maxBytes: int, keep: real)
    requires c.focus.Some?
    ensures Trimmed(c, c.focus.value - keep, c.focus.value + keep).focus == c.focus
    ensures Evicted(c, maxBytes, keep) ==
              if Bytes(c) > maxBytes && keep >= 30.0
              then Evicted(Trimmed(c, c.focus.value - keep, c.focus.value + keep), maxBytes, keep * 0.5) else c
  {
    hide Trimmed, Bytes;
    FocusKept(c, c.focus.value - keep, c.focus.value + keep);
  }

  predicate NearFocus(c: Cache, f: real) {
    forall k :: k in c.sc ==> forall i :: 0 <= i < |c.sc[k]| ==> Abs(c.sc[k][i].t - f) < 60.0
  }

  lemma TrimmedNear(c: Cache, f: real, keep: real)
    requires keep < 60.0
    ensures NearFocus(Trimmed(c, f - keep, f + keep), f)
  {
    hide Window;
    var r := Trimmed(c, f - keep, f + keep);
    forall k, i | k in r.sc && 0 <= i < |r.sc[k]| ensures Abs(r.sc[k][i].t - f) < 60.0 {
      WindowMembers(c.sc[k], f - keep, f + keep);
      assert r.sc[k][i] in Window(c.sc[k], f - keep, f + keep);
    }
  }

  /** An eviction leaves the cache in budget or everything in it within a minute of the
      focus, exactly if it was so before or the window starts at 30 s or more: below that the
      loop never runs. */
  lemma EvictedOutcome(c: Cache, maxBytes: int, keep: real)
    requires c.focus.Some?
    ensures var e := Evicted(c, maxBytes, keep);
            Bytes(e) <= maxBytes || NearFocus(e, c.focus.value)
            <==> keep >= 30.0 || Bytes(c) <= maxBytes || NearFocus(c, c.focus.value)
  {
    hide Bytes, Trimmed, NearFocus;
    if keep >= 30.0 {
      EvictedNear(c, maxBytes, keep);
    }
  }

  lemma {:induction false} EvictedNear(c: Cache, maxBytes: int, keep: real)
    requires c.focus.Some? && keep >= 30.0
    ensures Bytes(Evicted(c, maxBytes, keep)) <= maxBytes || NearFocus(Evicted(c, maxBytes, keep), c.focus.value)
    decreases keep
  {
    hide Bytes, Trimmed, NearFocus;
    if Bytes(c) > maxBytes {
      var f := c.focus.value;
      var c' := Trimmed(c, f - keep, f + keep);
      FocusKept(c, f - keep, f + keep);
      assert Evicted(c, maxBytes, keep) == Evicted(c', maxBytes, keep * 0.5);
      if keep * 0.5 >= 30.0 {
        EvictedNear(c', maxBytes, keep * 0.5);
      } else {
        TrimmedNear(c, f, keep);
      }
    }
  }

  // ----- what an eviction leaves -----

  /** The half width of the kept window after n halvings. */
  function Halved(keep: real, n: nat): real
    decreases n
  {
    if n == 0 then keep else Halved(keep * 0.5, n - 1)
  }

  lemma {:induction false} HalvedBelow(keep: real, n: nat)
    requires keep >= 0.0
    ensures 0.0 <= Halved(keep, n) <= keep
    decreases n
  {
    if n > 0 {
      HalvedBelow(keep * 0.5, n - 1);
    }
  }

  /** A window inside another one: only the narrower cut matters. */
  lemma {:induction false} WindowNested(s: Series, a: real, b: real, lo: real, hi: real)
    requires a <= lo && hi <= b
    ensures Window(Window(s, a, b), lo, hi) == Window(s, lo, hi)
  {
    if s != [] {
      WindowNested(s[1..], a, b, lo, hi);
      var rest := Window(s[1..], a, b);
      assert ([s[0]] + rest)[1..] == rest && [] + rest == rest;
      if a <= s[0].t <= b {
        assert Window(s, a, b) == [s[0]] + rest;
      } else {
        assert Window(s, a, b) == rest;
      }
    }
  }

  /** The bytes stored within w of the focus. */
  ghost function BytesWithin(c: Cache, w: real): nat
    requires c.focus.Some?
  {
    16 * Total(map k | k in c.sc :: Window(c.sc[k], c.focus.value - w, c.focus.value + w))
  }

  /** The bytes stored when round j of the eviction is due. */
  ghost function BytesBefore(c: Cache, keep: real, j: nat): nat
    requires c.focus.Some?
  {
    if j == 0 then 16 * Total(c.sc) else BytesWithin(c, Halved(keep, j - 1))
  }

  /** e is c with the samples and the coverage of every stored series cut to [lo, hi]. */
  ghost predicate IsCut(e: Cache, c: Cache, lo: real, hi: real) {
    && e.focus == c.focus && e.sc == (map k | k in c.sc :: Window(c.sc[k], lo, hi))
    && forall k, x :: InHalf(Coverage(e, k), x) <==> InHalf(Coverage(c, k), x) && (k in c.sc ==> lo <= x < hi)
  }

  lemma TrimmedIsCut(c: Cache, lo: real, hi: real)
    ensures IsCut(Trimmed(c, lo, hi), c, lo, hi)
  {
    hide Window, Common, InHalf;
    var e := Trimmed(c, lo, hi);
    forall k, x ensures InHalf(Coverage(e, k), x) <==> InHalf(Coverage(c, k), x) && (k in c.sc ==> lo <= x < hi) {
      if k in c.sc {
        CommonDenotes(Coverage(c, k), [(lo, hi)]);
        Singleton((lo, hi), x);
      }
    }
  }

  lemma CutTwice(c: Cache, d: Cache, e: Cache, a: real, b: real, lo: real, hi: real)
    requires IsCut(d, c, a, b) && IsCut(e, d, lo, hi) && a <= lo && hi <= b
    ensures IsCut(e, c, lo, hi)
  {
    hide Window, Coverage, InHalf;
    forall k | k in c.sc ensures Window(d.sc[k], lo, hi) == Window(c.sc[k], lo, hi) {
      WindowNested(c.sc[k], a, b, lo, hi);
    }
    assert e.sc == (map k | k in c.sc :: Window(c.sc[k], lo, hi));
  }

  lemma BytesOfCut(c: Cache, d: Cache, keep: real, w: real)
    requires c.focus.Some? && IsCut(d, c, c.focus.value - keep, c.focus.value + keep) && w <= keep
    ensures 16 * Total(d.sc) == BytesWithin(c, keep) && BytesWithin(d, w) == BytesWithin(c, w)
  {
    hide Window, Coverage, InHalf, Total;
    var f := c.focus.value;
    forall k | k in c.sc ensures Window(d.sc[k], f - w, f + w) == Window(c.sc[k], f - w, f + w) {
      WindowNested(c.sc[k], f - keep, f + keep, f - w, f + w);
    }
    assert (map k | k in d.sc :: Window(d.sc[k], f - w, f + w)) == (map k | k in c.sc :: Window(c.sc[k], f - w, f + w));
  }

  /** The eviction ends after n rounds, the first that meet the budget or take the window
      below 30 s, with the cache cut to the window of the last one. */
  ghost predicate Rounds(c: Cache, e: Cache, maxBytes: int, keep: real, n: nat)
    requires c.focus.Some?
  {
    && (if n == 0 then e == c else IsCut(e, c, c.focus.value - Halved(keep, n - 1), c.focus.value + Halved(keep, n - 1)))
    && (forall j: nat :: j < n ==> Halved(keep, j) >= 30.0 && BytesBefore(c, keep, j) > maxBytes)
    && (16 * Total(e.sc) <= maxBytes || Halved(keep, n) < 30.0)
  }

  lemma {:induction false} EvictionRounds(c: Cache, maxBytes: int, keep: real) returns (n: nat)
    requires c.focus.Some?
    ensures Rounds(c, Evicted(c, maxBytes, keep), maxBytes, keep, n)
    decreases keep
  {
    hide Total, Trimmed, IsCut, BytesWithin;
    if Bytes(c) > maxBytes && keep >= 30.0 {
      var f := c.focus.value;
      var d := Trimmed(c, f - keep, f + keep);
      FocusKept(c, f - keep, f + keep);
      TrimmedIsCut(c, f - keep, f + keep);
      var m := EvictionRounds(d, maxBytes, keep * 0.5);
      n := m + 1;
      RoundsStep(c, d, Evicted(d, maxBytes, keep * 0.5), maxBytes, keep, m);
    } else {
      n := 0;
    }
  }

  lemma RoundsStep(c: Cache, d: Cache, e: Cache, maxBytes: int, keep: real, m: nat)
    requires c.focus.Some? && IsCut(d, c, c.focus.value - keep, c.focus.value + keep)
    requires 16 * Total(c.sc) > maxBytes && keep >= 30.0 && d.focus == c.focus && Rounds(d, e, maxBytes, keep * 0.5, m)
    ensures Rounds(c, e, maxBytes, keep, m + 1)
  {
    hide Total, IsCut, BytesWithin;
    var f := c.focus.value;
    forall j: nat | j < m + 1 ensures Halved(keep, j) >= 30.0 && BytesBefore(c, keep, j) > maxBytes {
      if j > 0 {
        assert Halved(keep, j) == Halved(keep * 0.5, j - 1) && BytesBefore(d, keep * 0.5, j - 1) > maxBytes;
        if j > 1 {
          HalvedBelow(keep * 0.5, j - 2);
          assert Halved(keep, j - 1) == Halved(keep * 0.5, j - 2);
        }
        BytesOfCut(c, d, keep, if j > 1 then Halved(keep, j - 1) else keep);
      }
    }
    if m > 0 {
      HalvedBelow(keep * 0.5, m - 1);
      assert Halved(keep, m) == Halved(keep * 0.5, m - 1);
      CutTwice(c, d, e, f - keep, f + keep, f - Halved(keep, m), f + Halved(keep, m));
    }
  }

  // ----- coherence with the hub -----

  /** Every hub series has strictly increasing times. */
  predicate HubOk(hub: map<string, Series>) { forall k :: k in hub ==> Increasing(hub[k]) }

  function HubSeries(hub: map<string, Series>, k: string): Series { if k in hub then hub[k] else [] }

  /** A series agrees with the hub where it claims coverage. */
  ghost predicate Faithful(s: Series, cov: seq<Interval>, h: Series) {
    && Increasing(s) && WellFormed(cov)
    && (forall x :: x in s ==> x in h)
    && (forall x :: x in h && InClosed(cov, x.t) ==> x in s)
  }

  ghost predicate Coherent(hub: map<string, Series>, c: Cache) {
    forall k :: Faithful(Stored(c, k), Coverage(c, k), HubSeries(hub, k))
  }

  /** The writer works in two locked sections with the merge in between, so other threads
      may set the focus or clear the cache while a merged snapshot is pending. */
  datatype Pending = Idle | Merging(k: string, merged: Series, a: real, b: real)

  datatype State = State(c: Cache, pending: Pending)

  datatype Event =
    | Begin(k: string, a: real, b: real)
    | Commit
    | SetFocus(t: real)
    | Clear

  predicate Enabled(s: State, e: Event) {
    match e
    case Begin(_, a, b) => s.pending.Idle? && a <= b
    case Commit => s.pending.Merging?
    case _ => true
  }

  ghost function Next(hub: map<string, Series>, s: State, e: Event, maxBytes: int, keep: real): State
    requires Enabled(s, e)
  {
    match e
    case Begin(k, a, b) => s.(pending := Merging(k, Ingested(Stored(s.c, k), Window(HubSeries(hub, k), a, b)), a, b))
    case Commit =>
      var p := s.pending;
      State(Marked(s.c.(sc := s.c.sc[p.k := p.merged]), p.k, p.a, p.b, maxBytes, keep), Idle)
    case SetFocus(t) => s.(c := s.c.(focus := Some(t)))
    case Clear => s.(c := Cache(map[], map[], s.c.focus))
  }

  ghost predicate Inv(hub: map<string, Series>, s: State) {
    && HubOk(hub) && Coherent(hub, s.c)
    && (s.pending.Merging? ==>
          var p := s.pending;
          p.a <= p.b && Faithful(p.merged, [(p.a, p.b)], HubSeries(hub, p.k))
          && forall x :: x in Stored(s.c, p.k) ==> x in p.merged)
  }

  /** Cutting both data and coverage to a window keeps a series faithful. */
  lemma CutFaithful(s: Series, cov: seq<Interval>, h: Series, lo: real, hi: real)
    requires Faithful(s, cov, h) && lo <= hi
    ensures Faithful(Window(s, lo, hi), Common(cov, [(lo, hi)]), h)
  {
    hide Common, Window;
    WindowIncreasing(s, lo, hi);
    WindowMembers(s, lo, hi);
    CommonDenotes(cov, [(lo, hi)]);
    forall x | x in h && InClosed(Common(cov, [(lo, hi)]), x.t) ensures x in Window(s, lo, hi) {
      Singleton((lo, hi), x.t);
    }
  }

  lemma TrimmedCoherent(hub: map<string, Series>, c: Cache, lo: real, hi: real)
    requires Coherent(hub, c) && lo <= hi
    ensures Coherent(hub, Trimmed(c, lo, hi))
  {
    hide Faithful, Common, Window;
    var r := Trimmed(c, lo, hi);
    forall k ensures Faithful(Stored(r, k), Coverage(r, k), HubSeries(hub, k)) {
      assert Faithful(Stored(c, k), Coverage(c, k), HubSeries(hub, k));
      CutFaithful(Stored(c, k), Coverage(c, k), HubSeries(hub, k), lo, hi);
    }
  }

  lemma {:induction false} EvictedCoherent(hub: map<string, Series>, c: Cache, maxBytes: int, keep: real)
    requires Coherent(hub, c) && c.focus.Some?
    ensures Coherent(hub, Evicted(c, maxBytes, keep))
    decreases keep
  {
    hide Coherent, Trimmed, Bytes;
    if Bytes(c) > maxBytes && keep >= 30.0 {
      FocusKept(c, c.focus.value - keep, c.focus.value + keep);
      TrimmedCoherent(hub, c, c.focus.value - keep, c.focus.value + keep);
      EvictedCoherent(hub, Trimmed(c, c.focus.value - keep, c.focus.value + keep), maxBytes, keep * 0.5);
    }
  }

  lemma BeginFaithful(hub: map<string, Series>, c: Cache, k: string, a: real, b: real)
    requires HubOk(hub) && Coherent(hub, c) && a <= b
    ensures var m := Ingested(Stored(c, k), Window(HubSeries(hub, k), a, b));
            Faithful(m, [(a, b)], HubSeries(hub, k)) && forall x :: x in Stored(c, k) ==> x in m
  {
    var held, h := Stored(c, k), HubSeries(hub, k);
    var w := Window(h, a, b);
    var m := Ingested(held, w);
    assert Faithful(held, Coverage(c, k), h);
    WindowIncreasing(h, a, b);
    WindowMembers(h, a, b);
    if held != [] {
      IngestedFacts(held, w, 0.0);
      forall x ensures x in m <==> x in held || x in w {
        IngestedFacts(held, w, x.t);
        MemberIsFirst(m, x);
        MemberIsFirst(held, x);
        MemberIsFirst(w, x);
        if x in w && x !in held {
          OneValuePerTime(held, h, x);
        }
      }
    }
    forall x | x in h && InClosed([(a, b)], x.t) ensures x in m {
      Singleton((a, b), x.t);
    }
  }

  /** A hub sample that is not cached has no cached rival at its time. */
  lemma OneValuePerTime(held: Series, h: Series, x: Sample)
    requires Increasing(held) && Increasing(h) && (forall y :: y in held ==> y in h) && x in h && x !in held
    ensures FirstAt(held, x.t) == None
  {
    if FirstAt(held, x.t).Some? {
      var y := Sample(x.t, FirstAt(held, x.t).value);
      MemberIsFirst(held, y);
      MemberIsFirst(h, y);
      MemberIsFirst(h, x);
    }
  }

  /** Replacing a faithful series by a larger one that also covers [a, b]. */
  lemma GrowFaithful(s: Series, cov: seq<Interval>, m: Series, a: real, b: real, h: Series)
    requires Faithful(s, cov, h) && Faithful(m, [(a, b)], h) && a <= b && forall x :: x in s ==> x in m
    ensures Faithful(m, Merged(cov + [(a, b)]), h)
  {
    hide Merged;
    InConcat(cov, [(a, b)]);
    MergedDenotes(cov + [(a, b)]);
  }

  lemma CommitCoherent(hub: map<string, Series>, s: State, maxBytes: int, keep: real)
    requires Inv(hub, s) && s.pending.Merging?
    ensures Coherent(hub, Next(hub, s, Commit, maxBytes, keep).c)
  {
    hide Merged, Faithful, Evicted;
    var p := s.pending;
    var c1 := s.c.(sc := s.c.sc[p.k := p.merged]);
    var c2 := c1.(cov := c1.cov[p.k := Merged(Coverage(c1, p.k) + [(p.a, p.b)])]);
    forall k ensures Faithful(Stored(c2, k), Coverage(c2, k), HubSeries(hub, k)) {
      assert Faithful(Stored(s.c, k), Coverage(s.c, k), HubSeries(hub, k));
      if k == p.k {
        GrowFaithful(Stored(s.c, k), Coverage(s.c, k), p.merged, p.a, p.b, HubSeries(hub, k));
      }
    }
    if c2.focus.Some? {
      EvictedCoherent(hub, c2, maxBytes, keep);
    }
  }

  lemma NextInv(hub: map<string, Series>, s: State, e: Event, maxBytes: int, keep: real)
    requires Inv(hub, s) && Enabled(s, e)
    ensures Inv(hub, Next(hub, s, e, maxBytes, keep))
  {
    match e {
      case Begin(k, a, b) =>
        BeginFaithful(hub, s.c, k, a, b);
      case Commit =>
        CommitCoherent(hub, s, maxBytes, keep);
      case SetFocus(t) =>
        var c := s.c.(focus := Some(t));
        assert forall k :: Stored(c, k) == Stored(s.c, k) && Coverage(c, k) == Coverage(s.c, k);
      case Clear =>
        var c := Cache(map[], map[], s.c.focus);
        assert forall k :: Faithful(Stored(c, k), Coverage(c, k), HubSeries(hub, k));
    }
  }

  ghost predicate EnabledRun(hub: map<string, Series>, s: State, es: seq<Event>, maxBytes: int, keep: real)
    decreases |es|
  {
    es == [] || (Enabled(s, es[0]) && EnabledRun(hub, Next(hub, s, es[0], maxBytes, keep), es[1..], maxBytes, keep))
  }

  ghost function Run(hub: map<string, Series>, s: State, es: seq<Event>, maxBytes: int, keep: real): State
    requires EnabledRun(hub, s, es, maxBytes, keep)
    decreases |es|
  {
    if es == [] then s else Run(hub, Next(hub, s, es[0], maxBytes, keep), es[1..], maxBytes, keep)
  }

  lemma {:induction false} RunInv(hub: map<string, Series>, s: State, es: seq<Event>, maxBytes: int, keep: real)
    requires Inv(hub, s) && EnabledRun(hub, s, es, maxBytes, keep)
    ensures Inv(hub, Run(hub, s, es, maxBytes, keep))
    decreases |es|
  {
    if es != [] {
      NextInv(hub, s, es[0], maxBytes, keep);
      RunInv(hub, Next(hub, s, es[0], maxBytes, keep), es[1..], maxBytes, keep);
    }
  }

  const EMPTY := State(Cache(map[], map[], None), Idle)

  /** The main result: whatever the interleaving of fetches, focus changes, clears and the
      evictions they trigger, a read inside one advertised interval is the hub's answer. */
  lemma ReadsLikeHub(hub: map<string, Series>, es: seq<Event>, maxBytes: int, keep: real, k: string, t0: real, t1: real)
    requires HubOk(hub) && EnabledRun(hub, EMPTY, es, maxBytes, keep)
    requires var cov := Coverage(Run(hub, EMPTY, es, maxBytes, keep).c, k);
             exists i :: 0 <= i < |cov| && cov[i].0 <= t0 && t1 <= cov[i].1
    ensures Window(Stored(Run(hub, EMPTY, es, maxBytes, keep).c, k), t0, t1) == Window(HubSeries(hub, k), t0, t1)
  {
    hide Run, Window;
    RunInv(hub, EMPTY, es, maxBytes, keep);
    var c := Run(hub, EMPTY, es, maxBytes, keep).c;
    assert Faithful(Stored(c, k), Coverage(c, k), HubSeries(hub, k));
    FaithfulReads(Stored(c, k), Coverage(c, k), HubSeries(hub, k), t0, t1);
  }

  lemma FaithfulReads(s: Series, cov: seq<Interval>, h: Series, t0: real, t1: real)
    requires Faithful(s, cov, h) && Increasing(h)
    requires exists i :: 0 <= i < |cov| && cov[i].0 <= t0 && t1 <= cov[i].1
    ensures Window(s, t0, t1) == Window(h, t0, t1)
  {
    hide Window;
    PointwiseReads(s, cov, h, t0, t1);
  }

  // ----- what a fetch adds -----

  /** Whether x is inside the window the eviction ended with, if it made a round at all. */
  predicate Spared(x: real, f: real, keep: real, n: nat) {
    n == 0 || f - Halved(keep, n - 1) <= x < f + Halved(keep, n - 1)
  }

  predicate Advertises(c: Cache, k: string, x: real) { InHalf(Coverage(c, k), x) }

  predicate Holds(c: Cache, k: string, y: Sample) { y in Stored(c, k) }

  predicate SparedSample(x: real, f: real, keep: real, n: nat) {
    n == 0 || f - Halved(keep, n - 1) <= x <= f + Halved(keep, n - 1)
  }

  /** Without a focus, or within the budget, a commit stores the merged series, advertises
      exactly the fetched range on top of what was advertised, and touches no other series. */
  lemma CommitAdds(hub: map<string, Series>, s: State, maxBytes: int, keep: real)
    requires s.pending.Merging? && s.pending.a <= s.pending.b && WellFormed(Coverage(s.c, s.pending.k))
    requires s.c.focus.None? || 16 * Total(s.c.sc[s.pending.k := s.pending.merged]) <= maxBytes
    ensures var p, next := s.pending, Next(hub, s, Commit, maxBytes, keep);
            && next.pending.Idle? && next.c.focus == s.c.focus && Stored(next.c, p.k) == p.merged
            && (forall x :: InClosed(Coverage(next.c, p.k), x) <==> InClosed(Coverage(s.c, p.k), x) || p.a <= x <= p.b)
            && forall k :: k != p.k ==> Stored(next.c, k) == Stored(s.c, k) && Coverage(next.c, k) == Coverage(s.c, k)
  {
    hide Merged, InClosed, WellFormed, Total;
    var p := s.pending;
    var all := Coverage(s.c, p.k) + [(p.a, p.b)];
    OneOrdered(p.a, p.b);
    InConcat(Coverage(s.c, p.k), [(p.a, p.b)]);
    MergedDenotes(all);
    forall x ensures InClosed(Merged(all), x) <==> InClosed(Coverage(s.c, p.k), x) || p.a <= x <= p.b {
      Singleton((p.a, p.b), x);
    }
  }

  lemma OneOrdered(a: real, b: real)
    requires a <= b
    ensures WellFormed([(a, b)])
  {
  }

  lemma MarkedPoints(cov: seq<Interval>, a: real, b: real, x: real)
    ensures InHalf(Merged(cov + [(a, b)]), x) <==> InHalf(cov, x) || a <= x < b
  {
    hide Merged, InHalf;
    InConcat(cov, [(a, b)]);
    MergedDenotes(cov + [(a, b)]);
    Singleton((a, b), x);
  }

  /** With a focus, the commit advertises exactly that set cut to the window the eviction
      ended with, and loses no stored sample inside it. */
  lemma CommitEvicts(hub: map<string, Series>, s: State, maxBytes: int, keep: real) returns (n: nat)
    requires s.pending.Merging? && s.c.focus.Some?
    ensures var p, f, c := s.pending, s.c.focus.value, Next(hub, s, Commit, maxBytes, keep).c;
            && (forall k, x :: Advertises(c, k, x) <==>
                  (Advertises(s.c, k, x) || (k == p.k && p.a <= x < p.b)) && (k == p.k || k in s.c.sc ==> Spared(x, f, keep, n)))
            && (forall k, y :: Holds(c, k, y) <==>
                  (if k == p.k then y in p.merged else Holds(s.c, k, y)) && SparedSample(y.t, f, keep, n))
            && (forall j: nat :: j < n ==>
                  Halved(keep, j) >= 30.0 && BytesBefore(s.c.(sc := s.c.sc[p.k := p.merged]), keep, j) > maxBytes)
            && (16 * Total(c.sc) <= maxBytes || Halved(keep, n) < 30.0)
  {
    hide Merged, Evicted, Bytes, BytesBefore, Halved, InHalf, IsCut, Window;
    var p, f := s.pending, s.c.focus.value;
    var c1 := s.c.(sc := s.c.sc[p.k := p.merged]);
    var c2 := c1.(cov := c1.cov[p.k := Merged(Coverage(c1, p.k) + [(p.a, p.b)])]);
    var c := Next(hub, s, Commit, maxBytes, keep).c;
    assert c == Evicted(c2, maxBytes, keep);
    n := EvictionRounds(c2, maxBytes, keep);
    SameBytes(c1, c2, keep);
    forall k, x
      ensures Advertises(c, k, x) <==>
                (Advertises(s.c, k, x) || (k == p.k && p.a <= x < p.b)) && (k == p.k || k in s.c.sc ==> Spared(x, f, keep, n))
    {
      MarkedPoints(Coverage(s.c, p.k), p.a, p.b, x);
      RoundsPoints(c2, c, maxBytes, keep, n, k, x);
    }
    forall k, y
      ensures Holds(c, k, y) <==>
                (if k == p.k then y in p.merged else Holds(s.c, k, y)) && SparedSample(y.t, f, keep, n)
    {
      RoundsSamples(c2, c, maxBytes, keep, n, k, y);
    }
  }

  lemma RoundsPoints(c: Cache, e: Cache, maxBytes: int, keep: real, n: nat, k: string, x: real)
    requires c.focus.Some? && Rounds(c, e, maxBytes, keep, n)
    ensures InHalf(Coverage(e, k), x) <==> InHalf(Coverage(c, k), x) && (k in c.sc ==> Spared(x, c.focus.value, keep, n))
  {
    hide InHalf, Coverage, Halved, BytesBefore, Bytes, Window;
  }

  lemma RoundsSamples(c: Cache, e: Cache, maxBytes: int, keep: real, n: nat, k: string, y: Sample)
    requires c.focus.Some? && Rounds(c, e, maxBytes, keep, n)
    ensures y in Stored(e, k) <==> y in Stored(c, k) && SparedSample(y.t, c.focus.value, keep, n)
  {
    hide Coverage, Halved, BytesBefore, Bytes, Window;
    if n > 0 && k in c.sc {
      WindowMembers(c.sc[k], c.focus.value - Halved(keep, n - 1), c.focus.value + Halved(keep, n - 1));
    }
  }

  lemma SameBytes(c: Cache, d: Cache, keep: real)
    requires c.sc == d.sc && c.focus == d.focus && c.focus.Some?
    ensures forall j: nat :: BytesBefore(c, keep, j) == BytesBefore(d, keep, j)
  {
  }

  /** Moving the focus keeps all data; a clear drops all data and keeps the focus. Neither
      touches a merge that is pending, nor does beginning one touch the cache. */
  lemma OthersDo(hub: map<string, Series>, s: State, t: real, k: string, a: real, b: real, maxBytes: int, keep: real)
    ensures var r := Next(hub, s, SetFocus(t), maxBytes, keep);
            r.pending == s.pending && r.c.focus == Some(t) && r.c.sc == s.c.sc && r.c.cov == s.c.cov
    ensures var r := Next(hub, s, Clear, maxBytes, keep);
            r.pending == s.pending && r.c.focus == s.c.focus && forall j :: Stored(r.c, j) == [] && Coverage(r.c, j) == []
    ensures s.pending.Idle? && a <= b ==>
              var r := Next(hub, s, Begin(k, a, b), maxBytes, keep);
              r.c == s.c && r.pending.Merging? && r.pending.k == k && r.pending.a == a && r.pending.b == b
  {
    hide Ingested, Window;
  }

  /** Fetching [a, b] without a focus makes a read of [a, b] the answer of the hub. */
  lemma FetchedReadsLikeHub(hub: map<string, Series>, s: State, k: string, a: real, b: real, maxBytes: int, keep: real)
    requires Inv(hub, s) && s.pending.Idle? && a <= b && s.c.focus.None?
    ensures var c := Next(hub, Next(hub, s, Begin(k, a, b), maxBytes, keep), Commit, maxBytes, keep).c;
            && Coverage(c, k) != [] && (forall x :: a <= x <= b ==> InClosed(Coverage(c, k), x))
            && Window(Stored(c, k), a, b) == Window(HubSeries(hub, k), a, b)
  {
    hide Window, Ingested, Marked, Merged;
    var s1 := Next(hub, s, Begin(k, a, b), maxBytes, keep);
    NextInv(hub, s, Begin(k, a, b), maxBytes, keep);
    NextInv(hub, s1, Commit, maxBytes, keep);
    var c := Next(hub, s1, Commit, maxBytes, keep).c;
    assert Faithful(Stored(s.c, k), Coverage(s.c, k), HubSeries(hub, k));
    CommitAdds(hub, s1, maxBytes, keep);
    assert Faithful(Stored(c, k), Coverage(c, k), HubSeries(hub, k));
    assert InClosed(Coverage(c, k), a);
    PointwiseReads(Stored(c, k), Coverage(c, k), HubSeries(hub, k), a, b);
  }

  lemma PointwiseReads(s: Series, cov: seq<Interval>, h: Series, t0: real, t1: real)
    requires Faithful(s, cov, h) && Increasing(h) && forall x :: t0 <= x <= t1 ==> InClosed(cov, x)
    ensures Window(s, t0, t1) == Window(h, t0, t1)
  {
    hide Window, InClosed;
    WindowMembers(s, t0, t1);
    WindowMembers(h, t0, t1);
    WindowIncreasing(s, t0, t1);
    WindowIncreasing(h, t0, t1);
    IncreasingUnique(Window(s, t0, t1), Window(h, t0, t1));
  }
}
