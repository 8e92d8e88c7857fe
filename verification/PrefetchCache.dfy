/** PrefetchCache, scalar lane (ferrodac/store/prefetch.py): the dictionaries and the
    byte count are fields, the locked sections are methods, each tied to PrefetchSpec. */
module PrefetchCaches {
  import opened Values
  import opened Intervals
  import opened PrefetchSpec
  import D = Decimate

  class PrefetchCache {
    const maxBytes: int
    const keep: real
    var sc: map<string, Series>
    var cov: map<string, seq<Interval>>
    var bytes: nat
    var focus: Option<real>

    constructor (maxBytes: int, keep: real)
      ensures Valid() && State() == EMPTY.c
      ensures this.maxBytes == maxBytes && this.keep == keep
    {
      this.maxBytes, this.keep := maxBytes, keep;
      sc, cov, bytes, focus := map[], map[], 0, None;
    }

    function State(): Cache
      reads this
    {
      Cache(sc, cov, focus)
    }

    /** The byte count is always the recount of what is stored. */
    ghost predicate Valid()
      reads this
    {
      bytes == Bytes(State())
    }

    method Has(series: string) returns (r: bool)
      ensures r <==> Coverage(State(), series) != []
    {
      r := series in cov && cov[series] != [];
    }

    method ReadRaw(series: string, t0: real, t1: real) returns (r: Series)
      ensures r == Window(Stored(State(), series), t0, t1)
    {
      if series !in sc {
        return [];
      }
      r := Window(sc[series], t0, t1);
    }

    method QueryWindow(series: string, t0: real, t1: real, maxPoints: nat) returns (r: seq<(Val, Val)>)
      requires maxPoints >= 1
      ensures r == Query(Stored(State(), series), t0, t1, maxPoints)
      ensures |r| <= 3 * maxPoints
    {
      QueryFacts(Stored(State(), series), t0, t1, maxPoints);
      var w := ReadRaw(series, t0, t1);
      if |w| > maxPoints * 2 {
        var f := Max(2, |w| / maxPoints);
        r := D.Interleave(D.Downsample(Bins(w), f));
      } else {
        r := Points(w);
      }
    }

    method SetFocus(t: real)
      requires Valid()
      modifies this`focus
      ensures Valid() && State() == old(State()).(focus := Some(t))
    {
      focus := Some(t);
    }

    method Clear()
      modifies this
      ensures Valid() && State() == Cache(map[], map[], old(focus))
    {
      sc, cov, bytes := map[], map[], 0;
    }

    /** The first locked section and the merge outside the lock. */
    method Snapshot(series: string, fetched: Series) returns (merged: Series)
      ensures merged == Ingested(Stored(State(), series), fetched)
    {
      var held := if series in sc then sc[series] else [];
      merged := Ingested(held, fetched);
    }

    /** The second locked section of `add_scalar`. */
    method Commit(series: string, merged: Series, a: real, b: real)
      modifies this
      ensures Valid()
      ensures State() == Marked(old(State()).(sc := old(sc)[series := merged]), series, a, b, maxBytes, keep)
    {
      sc := sc[series := merged];
      MarkLocked(series, a, b);
    }

    method AddScalar(series: string, fetched: Series, a: real, b: real)
      modifies this
      ensures Valid()
      ensures State() == Marked(old(State()).(sc := old(sc)[series := Ingested(Stored(old(State()), series), fetched)]),
                                series, a, b, maxBytes, keep)
    {
      var merged := Snapshot(series, fetched);
      Commit(series, merged, a, b);
    }

    method MarkLocked(series: string, a: real, b: real)
      modifies this
      ensures Valid()
      ensures State() == Marked(old(State()), series, a, b, maxBytes, keep)
      ensures old(focus).None? ==>
                forall x :: InHalf(Coverage(State(), series), x) <==> InHalf(Coverage(old(State()), series), x) || a <= x < b
    {
      forall x { MarkedPoints(Coverage(State(), series), a, b, x); }
      var held := if series in cov then cov[series] else [];
      var merged := Merge(held + [(a, b)]);
      cov := cov[series := merged];
      RecountLocked();
      EvictLocked();
    }

    method RecountLocked()
      modifies this`bytes
      ensures Valid() && bytes == 16 * Total(sc)
    {
      var n := 0;
      var keys := sc.Keys;
      assert (map k | k in keys :: sc[k]) == sc;
      while keys != {}
        invariant keys <= sc.Keys
        invariant n + 16 * Total(map k | k in keys :: sc[k]) == 16 * Total(sc)
        decreases |keys|
      {
        var k :| k in keys;
        ghost var m := map j | j in keys :: sc[j];
        TotalWithout(m, k);
        assert m - {k} == (map j | j in keys - {k} :: sc[j]);
        n := n + 16 * |sc[k]|;
        keys := keys - {k};
      }
      bytes := n;
    }

    method EvictLocked()
      requires Valid()
      modifies this
      ensures Valid()
      ensures State() == if old(focus).None? then old(State()) else Evicted(old(State()), maxBytes, keep)
    {
      hide Bytes, Trimmed, Evicted;
      if bytes <= maxBytes || focus.None? {
        if focus.Some? {
          EvictStep(State(), maxBytes, keep);
        }
        return;
      }
      EvictStep(State(), maxBytes, keep);
      var kept := keep;
      while bytes > maxBytes && kept >= 30.0
        invariant Valid() && focus == old(focus)
        invariant Evicted(State(), maxBytes, kept) == Evicted(old(State()), maxBytes, keep)
        decreases kept
      {
        EvictStep(State(), maxBytes, kept);
        TrimLocked(focus.value - kept, focus.value + kept);
        kept := kept * 0.5;
      }
      EvictStep(State(), maxBytes, kept);
    }

    method TrimLocked(lo: real, hi: real)
      modifies this
      ensures Valid() && State() == Trimmed(old(State()), lo, hi)
    {
      ghost var before := State();
      var todo := sc.Keys;
      ghost var done: set<string> := {};
      TrimEnds(before, lo, hi);
      hide Window, Common, TrimmedOn, Trimmed, Bytes, Total;
      while todo != {}
        invariant todo !! done && todo + done == before.sc.Keys
        invariant State() == TrimmedOn(before, done, lo, hi)
        decreases |todo|
      {
        var s :| s in todo;
        TrimOne(before, done, s, lo, hi);
        var held := if s in cov then cov[s] else [];
        var cut := Intersect(held, [(lo, hi)]);
        sc := sc[s := Window(sc[s], lo, hi)];
        cov := cov[s := cut];
        todo, done := todo - {s}, done + {s};
      }
      RecountLocked();
    }
  }
}
