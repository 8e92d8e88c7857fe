/** The interval algebra (ferrodac/store/intervals.py). An interval is a pair of
    endpoints; coverage reads it closed, the gap finder reads it half-open. */
module Intervals {
  import opened Values
  import opened Sorting

  type Interval = (real, real)

  const GAP_MIN_S := 30.0
  const GAP_EPS := 0.001

  // ----- point sets -----

  predicate InHalf(l: seq<Interval>, x: real) { exists i :: 0 <= i < |l| && l[i].0 <= x < l[i].1 }

  predicate InClosed(l: seq<Interval>, x: real) { exists i :: 0 <= i < |l| && l[i].0 <= x <= l[i].1 }

  ghost predicate SameHalf(a: seq<Interval>, b: seq<Interval>) { forall x :: InHalf(a, x) <==> InHalf(b, x) }

  ghost predicate SameClosed(a: seq<Interval>, b: seq<Interval>) { forall x :: InClosed(a, x) <==> InClosed(b, x) }

  /** Every interval has its endpoints in order; points are allowed. */
  predicate WellFormed(l: seq<Interval>) { forall i :: 0 <= i < |l| ==> l[i].0 <= l[i].1 }

  predicate StartsSorted(l: seq<Interval>) { forall i, j :: 0 <= i < j < |l| ==> l[i].0 <= l[j].0 }

  /** A strict gap between any two members. */
  predicate Separated(l: seq<Interval>) { forall i, j :: 0 <= i < j < |l| ==> l[i].1 < l[j].0 }

  /** Sorted, positive width, not overlapping; touching is allowed. */
  predicate Tidy(l: seq<Interval>) {
    && (forall i :: 0 <= i < |l| ==> l[i].0 < l[i].1)
    && (forall i, j :: 0 <= i < j < |l| ==> l[i].1 <= l[j].0)
  }

  function Length(l: seq<Interval>): real {
    if l == [] then 0.0 else l[0].1 - l[0].0 + Length(l[1..])
  }

  function MinR(a: real, b: real): real { if a <= b then a else b }

  function MaxR(a: real, b: real): real { if a >= b then a else b }

  // ----- merge -----

  /** Python's order on pairs. */
  const LEX_LE: (Interval, Interval) -> bool := (p: Interval, q: Interval) => p.0 < q.0 || (p.0 == q.0 && p.1 <= q.1)

  /** One round of the merge loop. */
  function Absorb(out: seq<Interval>, iv: Interval): seq<Interval> {
    if out != [] && iv.0 <= out[|out| - 1].1
    then out[..|out| - 1] + [(out[|out| - 1].0, MaxR(out[|out| - 1].1, iv.1))]
    else out + [iv]
  }

  function AbsorbAll(out: seq<Interval>, rest: seq<Interval>): seq<Interval>
    decreases |rest|
  {
    if rest == [] then out else AbsorbAll(Absorb(out, rest[0]), rest[1..])
  }

  function Merged(l: seq<Interval>): seq<Interval> {
    AbsorbAll([], Sort(LEX_LE, l))
  }

  method Merge(intervals: seq<Interval>) returns (out: seq<Interval>)
    ensures out == Merged(intervals)
  {
    out := [];
    var sorted := Sort(LEX_LE, intervals);
    for i := 0 to |sorted|
      invariant AbsorbAll(out, sorted[i..]) == Merged(intervals)
    {
      var iv := sorted[i];
      if out != [] && iv.0 <= out[|out| - 1].1 {
        out := out[..|out| - 1] + [(out[|out| - 1].0, MaxR(out[|out| - 1].1, iv.1))];
      } else {
        out := out + [iv];
      }
      assert sorted[i..][0] == iv && sorted[i..][1..] == sorted[i + 1..];
    }
  }

  lemma AbsorbShape(out: seq<Interval>, iv: Interval)
    requires StartsSorted(out) && Separated(out)
    requires forall i :: 0 <= i < |out| ==> out[i].0 <= iv.0
    ensures var r := Absorb(out, iv);
            StartsSorted(r) && Separated(r) && forall i :: 0 <= i < |r| ==> r[i].0 <= iv.0
  {
  }

  lemma AbsorbPoints(out: seq<Interval>, iv: Interval, x: real)
    requires forall i :: 0 <= i < |out| ==> out[i].0 <= iv.0
    ensures InHalf(Absorb(out, iv), x) <==> InHalf(out, x) || iv.0 <= x < iv.1
    ensures WellFormed(out) && iv.0 <= iv.1 ==>
              WellFormed(Absorb(out, iv)) && (InClosed(Absorb(out, iv), x) <==> InClosed(out, x) || iv.0 <= x <= iv.1)
  {
    Singleton(iv, x);
    if out != [] && iv.0 <= out[|out| - 1].1 {
      var init, last := out[..|out| - 1], out[|out| - 1];
      assert out == init + [last];
      InConcat(init, [last]);
      InConcat(init, [(last.0, MaxR(last.1, iv.1))]);
      Singleton(last, x);
      Singleton((last.0, MaxR(last.1, iv.1)), x);
    } else {
      InConcat(out, [iv]);
    }
  }

  lemma Singleton(iv: Interval, x: real)
    ensures InHalf([iv], x) <==> iv.0 <= x < iv.1
    ensures InClosed([iv], x) <==> iv.0 <= x <= iv.1
  {
    assert [iv][0] == iv;
  }

  lemma {:induction false} AbsorbAllDenotes(out: seq<Interval>, rest: seq<Interval>)
    requires StartsSorted(out) && Separated(out) && StartsSorted(rest)
    requires forall i, j :: 0 <= i < |out| && 0 <= j < |rest| ==> out[i].0 <= rest[j].0
    ensures var r := AbsorbAll(out, rest);
            && StartsSorted(r) && Separated(r)
            && (forall x :: InHalf(r, x) <==> InHalf(out, x) || InHalf(rest, x))
            && (WellFormed(out) && WellFormed(rest) ==>
                  WellFormed(r) && forall x :: InClosed(r, x) <==> InClosed(out, x) || InClosed(rest, x))
    decreases |rest|
  {
    if rest != [] {
      AbsorbShape(out, rest[0]);
      forall x { AbsorbPoints(out, rest[0], x); }
      AbsorbPoints(out, rest[0], 0.0);
      AbsorbAllDenotes(Absorb(out, rest[0]), rest[1..]);
      SplitHead(rest);
    }
  }

  lemma SplitHead(l: seq<Interval>)
    requires l != []
    ensures forall x :: InHalf(l, x) <==> l[0].0 <= x < l[0].1 || InHalf(l[1..], x)
    ensures forall x :: InClosed(l, x) <==> l[0].0 <= x <= l[0].1 || InClosed(l[1..], x)
  {
    forall x
      ensures InHalf(l, x) <==> l[0].0 <= x < l[0].1 || InHalf(l[1..], x)
      ensures InClosed(l, x) <==> l[0].0 <= x <= l[0].1 || InClosed(l[1..], x)
    {
      assert forall i :: 0 < i < |l| ==> l[i] == l[1..][i - 1];
    }
  }

  lemma SameMembers(a: seq<Interval>, b: seq<Interval>)
    requires multiset(a) == multiset(b)
    ensures SameHalf(a, b) && SameClosed(a, b) && (WellFormed(a) <==> WellFormed(b))
  {
    MembersInto(a, b);
    MembersInto(b, a);
  }

  lemma MembersInto(a: seq<Interval>, b: seq<Interval>)
    requires multiset(a) == multiset(b)
    ensures forall x :: (InHalf(a, x) ==> InHalf(b, x)) && (InClosed(a, x) ==> InClosed(b, x))
    ensures WellFormed(b) ==> WellFormed(a)
  {
    forall i | 0 <= i < |a|
      ensures exists j :: 0 <= j < |b| && b[j] == a[i]
    {
      assert a[i] in multiset(a);
      assert a[i] in b;
    }
  }

  /** `merge` for any input, even with crossed endpoints: sorted, strictly separated, and
      the same half-open point set; for well-formed input also the same closed set. */
  lemma MergedDenotes(l: seq<Interval>)
    ensures StartsSorted(Merged(l)) && Separated(Merged(l)) && SameHalf(Merged(l), l)
    ensures WellFormed(l) ==> WellFormed(Merged(l)) && SameClosed(Merged(l), l)
  {
    var s := Sort(LEX_LE, l);
    SortSorts(LEX_LE, l);
    SortPermutes(LEX_LE, l);
    SameMembers(s, l);
    assert forall i, j :: 0 <= i < j < |s| ==> LEX_LE(s[i], s[j]);
    AbsorbAllDenotes([], s);
  }

  /** A closed point set has at most one strictly separated presentation. */
  lemma {:induction false} SeparatedUnique(a: seq<Interval>, b: seq<Interval>)
    requires WellFormed(a) && WellFormed(b) && Separated(a) && Separated(b)
    requires SameClosed(a, b)
    ensures a == b
    decreases |a|
  {
    if a == [] || b == [] {
      assert a != [] ==> InClosed(a, a[0].0);
      assert b != [] ==> InClosed(b, b[0].0);
    } else {
      assert InClosed(a, a[0].0) && InClosed(b, b[0].0);
      assert a[0].0 == b[0].0;
      HeadNotLonger(a, b);
      HeadNotLonger(b, a);
      TailPoints(a);
      TailPoints(b);
      SeparatedUnique(a[1..], b[1..]);
      assert a == [a[0]] + a[1..] && b == [b[0]] + b[1..];
    }
  }

  lemma TailPoints(a: seq<Interval>)
    requires a != [] && WellFormed(a) && Separated(a)
    ensures forall x :: InClosed(a[1..], x) <==> InClosed(a, x) && x > a[0].1
  {
    SplitHead(a);
  }

  lemma HeadNotLonger(a: seq<Interval>, b: seq<Interval>)
    requires a != [] && b != [] && WellFormed(a) && WellFormed(b) && Separated(b)
    requires SameClosed(a, b) && a[0].0 == b[0].0
    ensures a[0].1 <= b[0].1
  {
    if a[0].1 > b[0].1 {
      // a point of a just beyond the head of b, short of b's next interval
      var far := if |b| > 1 then MinR(a[0].1, b[1].0) else a[0].1;
      var x := (b[0].1 + far) / 2.0;
      assert b[0].1 < x && x <= a[0].1 && (|b| > 1 ==> x < b[1].0);
      assert !InClosed(b, x);
      assert InClosed(a, x);
    }
  }

  /** `merge` is canonical: any two well-formed lists that cover the same points give the
      identical output. */
  lemma MergeCanonical(a: seq<Interval>, b: seq<Interval>)
    requires WellFormed(a) && WellFormed(b) && SameClosed(a, b)
    ensures Merged(a) == Merged(b)
  {
    MergedDenotes(a);
    MergedDenotes(b);
    SeparatedUnique(Merged(a), Merged(b));
  }

  /** Hence it is idempotent, blind to order, and may be applied batch by batch. */
  lemma MergeLaws(a: seq<Interval>, b: seq<Interval>)
    requires WellFormed(a) && WellFormed(b)
    ensures Merged(Merged(a)) == Merged(a)
    ensures multiset(a) == multiset(b) ==> Merged(a) == Merged(b)
    ensures Merged(Merged(a) + b) == Merged(a + b)
    ensures Merged(a + b) == Merged(b + a)
  {
    MergedDenotes(a);
    MergeCanonical(Merged(a), a);
    if multiset(a) == multiset(b) {
      SameMembers(a, b);
      MergeCanonical(a, b);
    }
    InConcat(Merged(a), b);
    InConcat(a, b);
    InConcat(b, a);
    MergeCanonical(Merged(a) + b, a + b);
    MergeCanonical(a + b, b + a);
  }

  lemma InConcat(a: seq<Interval>, b: seq<Interval>)
    ensures forall x :: InHalf(a + b, x) <==> InHalf(a, x) || InHalf(b, x)
    ensures forall x :: InClosed(a + b, x) <==> InClosed(a, x) || InClosed(b, x)
    ensures WellFormed(a + b) <==> WellFormed(a) && WellFormed(b)
  {
    var c := a + b;
    assert forall i :: 0 <= i < |a| ==> c[i] == a[i];
    assert forall i :: 0 <= i < |b| ==> c[|a| + i] == b[i];
  }

  // ----- intersect -----

  /** The two-pointer walk over two merged lists. */
  function Walk(a: seq<Interval>, b: seq<Interval>): seq<Interval>
    decreases |a| + |b|
  {
    if a == [] || b == [] then [] else
      Overlap(a[0], b[0]) + (if a[0].1 < b[0].1 then Walk(a[1..], b) else Walk(a, b[1..]))
  }

  /** The positive-width overlap of two intervals, if any. */
  function Overlap(p: Interval, q: Interval): seq<Interval> {
    var lo, hi := MaxR(p.0, q.0), MinR(p.1, q.1);
    if lo < hi then [(lo, hi)] else []
  }

  function Common(a: seq<Interval>, b: seq<Interval>): seq<Interval> {
    Walk(Merged(a), Merged(b))
  }

  method Intersect(aList: seq<Interval>, bList: seq<Interval>) returns (out: seq<Interval>)
    ensures out == Common(aList, bList)
  {
    var a := Merge(aList);
    var b := Merge(bList);
    hide Merged, Walk;
    out := [];
    var i, j := 0, 0;
    while i < |a| && j < |b|
      invariant 0 <= i <= |a| && 0 <= j <= |b|
      invariant out + Walk(a[i..], b[j..]) == Walk(a, b)
      decreases |a| - i + |b| - j
    {
      var lo, hi := MaxR(a[i].0, b[j].0), MinR(a[i].1, b[j].1);
      WalkStep(out, a, b, i, j);
      if lo < hi {
        out := out + [(lo, hi)];
      }
      if a[i].1 < b[j].1 {
        i := i + 1;
      } else {
        j := j + 1;
      }
    }
    WalkStep(out, a, b, i, j);
  }

  lemma WalkStep(out: seq<Interval>, a: seq<Interval>, b: seq<Interval>, i: nat, j: nat)
    requires i <= |a| && j <= |b|
    ensures i == |a| || j == |b| ==> Walk(a[i..], b[j..]) == []
    ensures i < |a| && j < |b| ==>
              out + Walk(a[i..], b[j..]) == (out + Overlap(a[i], b[j])) +
                (if a[i].1 < b[j].1 then Walk(a[i + 1..], b[j..]) else Walk(a[i..], b[j + 1..]))
  {
    if i < |a| && j < |b| {
      assert a[i..][1..] == a[i + 1..] && b[j..][1..] == b[j + 1..];
    }
  }

  predicate StartsFrom(l: seq<Interval>, x: real) { forall i :: 0 <= i < |l| ==> x <= l[i].0 }

  /** The walk starts no earlier than both heads, is strictly separated and tidy. */
  lemma {:induction false} WalkShape(a: seq<Interval>, b: seq<Interval>)
    requires StartsSorted(a) && StartsSorted(b) && Separated(a) && Separated(b)
    ensures Tidy(Walk(a, b)) && Separated(Walk(a, b))
    ensures if a == [] || b == [] then Walk(a, b) == [] else StartsFrom(Walk(a, b), MaxR(a[0].0, b[0].0))
    decreases |a| + |b|
  {
    hide Tidy, Separated, StartsSorted, StartsFrom;
    NoneIsTidy(0.0);
    if a != [] && b != [] {
      var lo, hi := MaxR(a[0].0, b[0].0), MinR(a[0].1, b[0].1);
      NoneIsTidy(lo);
      if a[0].1 < b[0].1 {
        Uncons(a);
        WalkShape(a[1..], b);
        Prepend(a[0], b[0], Walk(a[1..], b), if |a| > 1 then MaxR(a[1..][0].0, b[0].0) else hi + 1.0);
      } else {
        Uncons(b);
        WalkShape(a, b[1..]);
        Prepend(a[0], b[0], Walk(a, b[1..]), if |b| > 1 then MaxR(a[0].0, b[1..][0].0) else hi + 1.0);
      }
    }
  }

  lemma NoneIsTidy(x: real)
    ensures Tidy([]) && Separated([]) && StartsFrom([], x)
  {
  }

  /** The tail of a separated list is one, and starts beyond the head. */
  lemma Uncons(l: seq<Interval>)
    requires l != [] && Separated(l)
    ensures Separated(l[1..])
    ensures StartsSorted(l) ==> StartsSorted(l[1..]) && (|l| > 1 ==> l[0].0 <= l[1..][0].0)
    ensures WellFormed(l) ==> WellFormed(l[1..]) && l[0].0 <= l[0].1
    ensures |l| > 1 ==> l[0].1 < l[1..][0].0
  {
  }

  /** Put the overlap of p and q in front of a list that starts later. */
  lemma Prepend(p: Interval, q: Interval, l: seq<Interval>, x: real)
    requires Tidy(l) && Separated(l) && (l == [] || StartsFrom(l, x))
    requires l == [] || (MinR(p.1, q.1) < x && MaxR(p.0, q.0) <= x)
    ensures Tidy(Overlap(p, q) + l) && Separated(Overlap(p, q) + l) && StartsFrom(Overlap(p, q) + l, MaxR(p.0, q.0))
  {
  }

  lemma {:induction false} WalkDenotes(a: seq<Interval>, b: seq<Interval>, x: real)
    requires StartsSorted(a) && StartsSorted(b) && Separated(a) && Separated(b)
    ensures InHalf(Walk(a, b), x) <==> InHalf(a, x) && InHalf(b, x)
    ensures InClosed(Walk(a, b), x) ==> InClosed(a, x) && InClosed(b, x)
    decreases |a| + |b|
  {
    if a == [] || b == [] {
      assert Walk(a, b) == [];
    } else {
      var rest := if a[0].1 < b[0].1 then Walk(a[1..], b) else Walk(a, b[1..]);
      assert Walk(a, b) == Overlap(a[0], b[0]) + rest;
      if a[0].1 < b[0].1 {
        Uncons(a);
        WalkDenotes(a[1..], b, x);
      } else {
        Uncons(b);
        WalkDenotes(a, b[1..], x);
      }
      SplitHead(a);
      SplitHead(b);
      StartsBeyond(a, x);
      StartsBeyond(b, x);
      hide Walk, InHalf, InClosed, StartsSorted, Separated;
      InConcat(Overlap(a[0], b[0]), rest);
      PieceHolds(MaxR(a[0].0, b[0].0), MinR(a[0].1, b[0].1), x);
    }
  }

  /** What is in the tail of a separated list lies beyond its head. */
  lemma StartsBeyond(l: seq<Interval>, x: real)
    requires l != [] && Separated(l)
    ensures InHalf(l[1..], x) ==> x > l[0].1
  {
  }

  lemma PieceHolds(lo: real, hi: real, x: real)
    ensures InHalf(if lo < hi then [(lo, hi)] else [], x) <==> lo <= x < hi
    ensures InClosed(if lo < hi then [(lo, hi)] else [], x) <==> lo < hi && lo <= x <= hi
  {
    assert lo < hi ==> [(lo, hi)][0] == (lo, hi);
  }

  /** `intersect` denotes exactly the common half-open points, strictly separated, and its
      closed points lie in both inputs. */
  lemma CommonDenotes(a: seq<Interval>, b: seq<Interval>)
    ensures Tidy(Common(a, b)) && Separated(Common(a, b))
    ensures forall x :: InHalf(Common(a, b), x) <==> InHalf(a, x) && InHalf(b, x)
    ensures WellFormed(a) && WellFormed(b) ==> forall x :: InClosed(Common(a, b), x) ==> InClosed(a, x) && InClosed(b, x)
  {
    MergedDenotes(a);
    MergedDenotes(b);
    WalkShape(Merged(a), Merged(b));
    forall x
      ensures InHalf(Common(a, b), x) <==> InHalf(a, x) && InHalf(b, x)
      ensures InClosed(Common(a, b), x) ==> InClosed(Merged(a), x) && InClosed(Merged(b), x)
    {
      WalkDenotes(Merged(a), Merged(b), x);
    }
  }

  // ----- subtract -----

  function Tail(cur: real, b: real): seq<Interval> {
    if cur < b then [(cur, b)] else []
  }

  /** The inner loop for one interval [cur, b) against the remaining holes. */
  function Carve(cur: real, b: real, holes: seq<Interval>): seq<Interval>
    decreases |holes|, 0
  {
    if holes == [] then Tail(cur, b)
    else if holes[0].1 <= cur then Carve(cur, b, holes[1..])
    else if holes[0].0 >= b then Tail(cur, b)
    else
      (if holes[0].0 > cur then [(cur, MinR(holes[0].0, b))] else []) + CarveRest(MaxR(cur, holes[0].1), b, holes[1..])
  }

  /** `if cur >= b: break` before the next hole. */
  function CarveRest(cur: real, b: real, holes: seq<Interval>): seq<Interval>
    decreases |holes|, 1
  {
    if cur >= b then Tail(cur, b) else Carve(cur, b, holes)
  }

  function CarveAll(a: seq<Interval>, holes: seq<Interval>): seq<Interval> {
    if a == [] then [] else Carve(a[0].0, a[0].1, holes) + CarveAll(a[1..], holes)
  }

  function Minus(a: seq<Interval>, b: seq<Interval>): seq<Interval> {
    CarveAll(Merged(a), Merged(b))
  }

  method Subtract(aList: seq<Interval>, bList: seq<Interval>) returns (out: seq<Interval>)
    ensures out == Minus(aList, bList)
  {
    var holes := Merge(bList);
    var a := Merge(aList);
    out := [];
    for i := 0 to |a|
      invariant out + CarveAll(a[i..], holes) == CarveAll(a, holes)
    {
      assert a[i..][0] == a[i] && a[i..][1..] == a[i + 1..];
      var pieces := CarveOne(a[i].0, a[i].1, holes);
      assert out + CarveAll(a[i..], holes) == (out + pieces) + CarveAll(a[i + 1..], holes);
      out := out + pieces;
    }
  }

  /** The body of the outer loop: one interval against every hole. */
  method CarveOne(a: real, b: real, holes: seq<Interval>) returns (out: seq<Interval>)
    ensures out == Carve(a, b, holes)
  {
    hide Carve, CarveRest;
    out := [];
    var cur := a;
    var j := 0;
    assert holes[0..] == holes;
    while j < |holes|
      invariant 0 <= j <= |holes|
      invariant out + Carve(cur, b, holes[j..]) == Carve(a, b, holes)
    {
      var lo, hi := holes[j].0, holes[j].1;
      CarveStep(out, cur, b, holes, j);
      if hi <= cur {
        j := j + 1;
        continue;
      }
      if lo >= b {
        break;
      }
      if lo > cur {
        out := out + [(cur, MinR(lo, b))];
      }
      cur := MaxR(cur, hi);
      CarveGoesOn(cur, b, holes[j + 1..]);
      if cur >= b {
        break;
      }
      j := j + 1;
    }
    CarveStep(out, cur, b, holes, j);
    assert out + Tail(cur, b) == Carve(a, b, holes);
    if cur < b {
      out := out + [(cur, b)];
    }
  }

  lemma CarveStep(out: seq<Interval>, cur: real, b: real, holes: seq<Interval>, j: nat)
    requires j <= |holes|
    ensures var c := Carve(cur, b, holes[j..]);
            if j == |holes| then c == Tail(cur, b)
            else if holes[j].1 <= cur then c == Carve(cur, b, holes[j + 1..])
            else if holes[j].0 >= b then c == Tail(cur, b)
            else out + c == (out + if holes[j].0 > cur then [(cur, MinR(holes[j].0, b))] else [])
                              + CarveRest(MaxR(cur, holes[j].1), b, holes[j + 1..])
  {
    if j < |holes| {
      assert holes[j..][0] == holes[j] && holes[j..][1..] == holes[j + 1..];
    }
  }

  lemma CarveGoesOn(cur: real, b: real, holes: seq<Interval>)
    ensures CarveRest(cur, b, holes) == if cur >= b then Tail(cur, b) else Carve(cur, b, holes)
  {
  }

  lemma {:induction false} CarveDenotes(cur: real, b: real, holes: seq<Interval>, x: real)
    requires StartsSorted(holes) && Separated(holes)
    ensures InHalf(Carve(cur, b, holes), x) <==> cur <= x < b && !InHalf(holes, x)
    decreases |holes|
  {
    PieceHolds(cur, b, x);
    if holes != [] {
      SplitHead(holes);
      var lo, hi := holes[0].0, holes[0].1;
      if hi <= cur {
        CarveDenotes(cur, b, holes[1..], x);
      } else if lo < b {
        var next := MaxR(cur, hi);
        PieceHolds(cur, MinR(lo, b), x);
        PieceHolds(next, b, x);
        InConcat(if lo > cur then [(cur, MinR(lo, b))] else [], CarveRest(next, b, holes[1..]));
        assert InHalf(holes[1..], x) ==> x >= lo && x >= hi;
        if next < b {
          CarveDenotes(next, b, holes[1..], x);
        }
      }
    }
  }

  /** Hole j sends the walk over [cur, b) backwards: its endpoints are crossed, strictly
      inside, and its end lies beyond that of every earlier hole. */
  predicate Rewinds(cur: real, b: real, holes: seq<Interval>, j: nat)
    requires j < |holes|
  {
    cur < holes[j].1 < holes[j].0 < b && forall i :: 0 <= i < j ==> holes[i].1 < holes[j].1
  }

  predicate Rewound(cur: real, b: real, holes: seq<Interval>) {
    exists j: nat :: j < |holes| && Rewinds(cur, b, holes, j)
  }

  /** Whether the first hole or the rest of the walk goes backwards, by the branch it takes. */
  lemma RewoundStep(cur: real, b: real, holes: seq<Interval>)
    requires holes != [] && StartsSorted(holes)
    ensures var h := holes[0];
            Rewound(cur, b, holes) <==>
              if h.1 <= cur then Rewound(cur, b, holes[1..])
              else if h.0 >= b || h.1 >= b then false
              else h.1 < h.0 || Rewound(h.1, b, holes[1..])
  {
    var h, rest := holes[0], holes[1..];
    assert forall i :: 0 <= i < |rest| ==> rest[i] == holes[i + 1] && h.0 <= rest[i].0;
    var from := if h.1 <= cur then cur else h.1;
    if Rewound(cur, b, holes) {
      var j: nat :| j < |holes| && Rewinds(cur, b, holes, j);
      assert j > 0 ==> Rewinds(from, b, rest, j - 1);
    }
    if Rewound(from, b, rest) && h.0 < b && h.1 < b {
      var j: nat :| j < |rest| && Rewinds(from, b, rest, j);
      assert Rewinds(cur, b, holes, j + 1);
    }
    if h.1 <= cur && Rewound(cur, b, rest) {
      var j: nat :| j < |rest| && Rewinds(cur, b, rest, j);
      assert Rewinds(cur, b, holes, j + 1);
    }
    if cur < h.1 < h.0 < b {
      assert Rewinds(cur, b, holes, 0);
    }
  }

  /** What is carved before the first later hole starts at the current position. */
  lemma {:induction false} CarveStart(cur: real, b: real, holes: seq<Interval>)
    requires cur < b && forall i :: 0 <= i < |holes| ==> cur < holes[i].0
    ensures Carve(cur, b, holes) != [] && Carve(cur, b, holes)[0].0 == cur
    decreases |holes|
  {
    if holes != [] {
      CarveStart(cur, b, holes[1..]);
    }
  }

  predicate Inside(l: seq<Interval>, lo: real, hi: real) { forall i :: 0 <= i < |l| ==> lo <= l[i].0 && l[i].1 <= hi }

  predicate Before(p: seq<Interval>, q: seq<Interval>) {
    forall i, j :: 0 <= i < |p| && 0 <= j < |q| ==> p[i].1 <= q[j].0
  }

  lemma TidySlice(r: seq<Interval>, lo: nat, hi: nat)
    requires Tidy(r) && lo <= hi <= |r|
    ensures Tidy(r[lo..hi])
  {
    var s := r[lo..hi];
    assert forall i :: 0 <= i < |s| ==> s[i] == r[lo + i];
  }

  lemma TidyConcat(p: seq<Interval>, q: seq<Interval>)
    ensures Tidy(p + q) <==> Tidy(p) && Tidy(q) && Before(p, q)
  {
    var r := p + q;
    if Tidy(r) {
      TidySlice(r, 0, |p|);
      TidySlice(r, |p|, |r|);
      assert r[0..|p|] == p && r[|p|..|r|] == q;
      forall i, j | 0 <= i < |p| && 0 <= j < |q| ensures p[i].1 <= q[j].0 {
        assert r[i] == p[i] && r[|p| + j] == q[j];
      }
    }
  }

  /** The pieces of one interval stay inside it, and are in order and apart exactly when no
      hole sends the walk backwards. */
  lemma {:induction false} CarveShape(cur: real, b: real, holes: seq<Interval>)
    requires StartsSorted(holes) && Separated(holes)
    ensures Inside(Carve(cur, b, holes), cur, b)
    ensures Tidy(Carve(cur, b, holes)) <==> !Rewound(cur, b, holes)
    decreases |holes|
  {
    if holes != [] {
      var lo, hi, rest := holes[0].0, holes[0].1, holes[1..];
      RewoundStep(cur, b, holes);
      hide Rewound, Tidy;
      Uncons(holes);
      if hi <= cur {
        CarveShape(cur, b, rest);
      } else if lo >= b {
        TailTidy(cur, b);
      } else if hi >= b {
        PieceTidy(cur, lo, b);
        assert CarveRest(MaxR(cur, hi), b, rest) == [];
        assert Carve(cur, b, holes) == if lo > cur then [(cur, lo)] else [];
      } else {
        CarveShape(hi, b, rest);
        CarveStart(hi, b, rest);
        assert Carve(cur, b, holes) == (if lo > cur then [(cur, lo)] else []) + Carve(hi, b, rest);
        CarveOn(cur, lo, hi, b, Carve(hi, b, rest));
      }
    } else {
      TailTidy(cur, b);
      NotRewound(cur, b);
    }
  }

  lemma PieceTidy(cur: real, lo: real, b: real)
    requires lo < b
    ensures var piece := if lo > cur then [(cur, lo)] else []; Tidy(piece) && Inside(piece, cur, b)
  {
  }

  /** Carving goes on at hi: overlapping what was carved exactly if the hole was crossed. */
  lemma CarveOn(cur: real, lo: real, hi: real, b: real, later: seq<Interval>)
    requires cur < hi < b && lo < b && later != [] && later[0].0 == hi && Inside(later, hi, b)
    ensures var r := (if lo > cur then [(cur, lo)] else []) + later;
            Inside(r, cur, b) && (Tidy(r) <==> lo <= hi && Tidy(later))
  {
    var piece := if lo > cur then [(cur, lo)] else [];
    PieceTidy(cur, lo, b);
    hide Tidy;
    TidyConcat(piece, later);
  }

  lemma NotRewound(cur: real, b: real)
    ensures !Rewound(cur, b, [])
  {
  }

  lemma TailTidy(cur: real, b: real)
    ensures Tidy(Tail(cur, b)) && Inside(Tail(cur, b), cur, b) && Tidy([])
  {
  }

  lemma {:induction false} CarveAllDenotes(a: seq<Interval>, holes: seq<Interval>, x: real)
    requires StartsSorted(holes) && Separated(holes)
    ensures InHalf(CarveAll(a, holes), x) <==> InHalf(a, x) && !InHalf(holes, x)
  {
    if a != [] {
      SplitHead(a);
      CarveDenotes(a[0].0, a[0].1, holes, x);
      CarveAllDenotes(a[1..], holes, x);
      InConcat(Carve(a[0].0, a[0].1, holes), CarveAll(a[1..], holes));
    }
  }

  lemma {:induction false} CarveAllShape(a: seq<Interval>, holes: seq<Interval>)
    requires StartsSorted(holes) && Separated(holes) && Separated(a) && StartsSorted(a)
    ensures Tidy(CarveAll(a, holes)) <==> forall p :: p in a ==> !Rewound(p.0, p.1, holes)
    ensures forall i :: 0 <= i < |CarveAll(a, holes)| ==> a != [] && a[0].0 <= CarveAll(a, holes)[i].0
  {
    if a != [] {
      var head, rest := Carve(a[0].0, a[0].1, holes), CarveAll(a[1..], holes);
      CarveShape(a[0].0, a[0].1, holes);
      CarveAllShape(a[1..], holes);
      assert a == [a[0]] + a[1..];
      hide Carve, CarveAll, Rewound;
      Uncons(a);
      assert Before(head, rest);
      TidyConcat(head, rest);
      assert CarveAll(a, holes) == head + rest by { CarveAllStep(a, holes); }
    }
  }

  lemma CarveAllStep(a: seq<Interval>, holes: seq<Interval>)
    requires a != []
    ensures CarveAll(a, holes) == Carve(a[0].0, a[0].1, holes) + CarveAll(a[1..], holes)
  {
  }

  /** `subtract` denotes exactly the half-open difference, for any input. */
  lemma MinusDenotes(a: seq<Interval>, b: seq<Interval>)
    ensures forall x :: InHalf(Minus(a, b), x) <==> InHalf(a, x) && !InHalf(b, x)
    ensures WellFormed(b) ==> Tidy(Minus(a, b))
  {
    MergedDenotes(a);
    MergedDenotes(b);
    forall x ensures InHalf(Minus(a, b), x) <==> InHalf(a, x) && !InHalf(b, x) {
      CarveAllDenotes(Merged(a), Merged(b), x);
    }
    MinusTidyExactly(a, b);
  }

  /** Its output is sorted, of positive width and not overlapping exactly when no merged hole
      rewinds the walk over a merged interval; holes with ordered endpoints never do. */
  lemma MinusTidyExactly(a: seq<Interval>, b: seq<Interval>)
    ensures Tidy(Minus(a, b)) <==> forall p :: p in Merged(a) ==> !Rewound(p.0, p.1, Merged(b))
    ensures WellFormed(b) ==> forall p: Interval :: !Rewound(p.0, p.1, Merged(b))
  {
    MergedDenotes(a);
    MergedDenotes(b);
    CarveAllShape(Merged(a), Merged(b));
  }

  /** An instance: a crossed hole inside an interval leaves two overlapping pieces. */
  lemma CrossedHoleOverlaps()
    ensures Minus([(0.0, 10.0)], [(5.0, 3.0)]) == [(0.0, 5.0), (3.0, 10.0)]
    ensures !Tidy(Minus([(0.0, 10.0)], [(5.0, 3.0)]))
  {
    var a, b := [(0.0, 10.0)], [(5.0, 3.0)];
    assert Sort(LEX_LE, a) == a && Sort(LEX_LE, b) == b;
    assert AbsorbAll([], a) == AbsorbAll([(0.0, 10.0)], []) && AbsorbAll([], b) == AbsorbAll([(5.0, 3.0)], []);
    assert Merged(a) == a && Merged(b) == b;
    assert Carve(3.0, 10.0, []) == [(3.0, 10.0)];
    assert Carve(0.0, 10.0, b) == [(0.0, 5.0)] + [(3.0, 10.0)];
    assert CarveAll(a, b) == [(0.0, 5.0), (3.0, 10.0)] + CarveAll([], b);
    assert Minus(a, b)[0].1 > Minus(a, b)[1].0;
  }

  // ----- conservation of length -----

  /** Cut e off the front of a tidy list. */
  function CutHead(l: seq<Interval>, e: real): seq<Interval>
    requires l != []
  {
    if e < l[0].1 then [(e, l[0].1)] + l[1..] else l[1..]
  }

  lemma CutHeadFacts(l: seq<Interval>, e: real)
    requires l != [] && Tidy(l) && l[0].0 < e <= l[0].1
    ensures Tidy(CutHead(l, e)) && Length(CutHead(l, e)) == Length(l) - (e - l[0].0)
    ensures forall x :: InHalf(CutHead(l, e), x) <==> InHalf(l, x) && x >= e
  {
    var r := CutHead(l, e);
    SplitHead(l);
    if e < l[0].1 {
      SplitHead(r);
      assert r[1..] == l[1..];
    }
  }

  lemma FirstPoint(l: seq<Interval>)
    requires Tidy(l)
    ensures l == [] || InHalf(l, l[0].0)
  {
    assert l != [] ==> l[0].0 <= l[0].0 < l[0].1;
  }

  /** In a tidy list the point set starts at the first start. */
  lemma StartsFirst(l: seq<Interval>, x: real)
    requires Tidy(l) && InHalf(l, x)
    ensures l != [] && l[0].0 <= x && InHalf(l, l[0].0)
  {
    assert l[0].0 <= l[0].0 < l[0].1;
  }

  /** If m is the disjoint union of p and q as point sets, lengths add up. */
  lemma {:induction false} LengthAdds(m: seq<Interval>, p: seq<Interval>, q: seq<Interval>)
    requires Tidy(m) && Tidy(p) && Tidy(q)
    requires forall x :: InHalf(m, x) <==> InHalf(p, x) || InHalf(q, x)
    requires forall x :: !(InHalf(p, x) && InHalf(q, x))
    ensures Length(m) == Length(p) + Length(q)
    decreases |m| + |p| + |q|
  {
    if m == [] {
      FirstPoint(p);
      FirstPoint(q);
    } else {
      var a := m[0].0;
      FirstPoint(m);
      if InHalf(p, a) {
        LengthAddsStep(m, p, q);
      } else {
        LengthAddsStep(m, q, p);
      }
    }
  }

  lemma {:induction false} LengthAddsStep(m: seq<Interval>, p: seq<Interval>, q: seq<Interval>)
    requires Tidy(m) && Tidy(p) && Tidy(q) && m != [] && InHalf(p, m[0].0)
    requires forall x :: InHalf(m, x) <==> InHalf(p, x) || InHalf(q, x)
    requires forall x :: !(InHalf(p, x) && InHalf(q, x))
    ensures Length(m) == Length(p) + Length(q)
    decreases |m| + |p| + |q|, 0
  {
    var a := m[0].0;
    StartsFirst(p, a);
    StartsFirst(m, p[0].0);
    assert p[0].0 == a;
    var e := MinR(m[0].1, p[0].1);
    CutHeadFacts(m, e);
    CutHeadFacts(p, e);
    var m', p' := CutHead(m, e), CutHead(p, e);
    forall x | InHalf(q, x) ensures x >= e {
      assert InHalf(m, x);
      StartsFirst(m, x);
      assert p[0].0 <= x < p[0].1 ==> InHalf(p, x);
    }
    LengthAdds(m', p', q);
  }

  function NonEmpty(l: seq<Interval>): seq<Interval> {
    if l == [] then [] else (if l[0].0 < l[0].1 then [l[0]] else []) + NonEmpty(l[1..])
  }

  lemma {:induction false} NonEmptyShape(l: seq<Interval>)
    requires WellFormed(l) && Separated(l)
    ensures Tidy(NonEmpty(l)) && Separated(NonEmpty(l)) && Length(NonEmpty(l)) == Length(l)
    ensures if l == [] then NonEmpty(l) == [] else StartsFrom(NonEmpty(l), l[0].0)
  {
    hide Tidy, Separated, WellFormed, StartsFrom;
    NoneIsTidy(0.0);
    if l != [] {
      var rest := NonEmpty(l[1..]);
      Uncons(l);
      NonEmptyShape(l[1..]);
      NoneIsTidy(l[0].0);
      Prepend(l[0], l[0], rest, if |l| > 1 then l[1..][0].0 else 0.0);
      assert NonEmpty(l) == Overlap(l[0], l[0]) + rest;
      assert l[0].0 < l[0].1 ==> NonEmpty(l)[1..] == rest;
      assert l[0].0 == l[0].1 ==> NonEmpty(l) == rest;
    }
  }

  lemma {:induction false} NonEmptyPoints(l: seq<Interval>, x: real)
    ensures InHalf(NonEmpty(l), x) <==> InHalf(l, x)
  {
    if l != [] {
      NonEmptyPoints(l[1..], x);
      SplitHead(l);
      InConcat([l[0]], NonEmpty(l[1..]));
      Singleton(l[0], x);
      assert l[0].0 >= l[0].1 ==> NonEmpty(l) == NonEmpty(l[1..]);
    }
  }

  /** Length is conserved: what A covers is split between the part B has and the rest. */
  lemma LengthConserved(a: seq<Interval>, b: seq<Interval>)
    requires WellFormed(a)
    ensures Tidy(Minus(a, b)) ==> Length(Merged(a)) == Length(Common(a, b)) + Length(Minus(a, b))
    ensures WellFormed(b) ==> Tidy(Minus(a, b))
  {
    MergedDenotes(a);
    NonEmptyShape(Merged(a));
    forall x { NonEmptyPoints(Merged(a), x); }
    CommonDenotes(a, b);
    MinusDenotes(a, b);
    if Tidy(Minus(a, b)) {
      LengthAdds(NonEmpty(Merged(a)), Common(a, b), Minus(a, b));
    }
  }

  // ----- the gap finder -----

  /** Coverage after marking each fetched range in turn (prefetch.py:129-131). */
  function MarkAll(cov: seq<Interval>, fetched: seq<Interval>): seq<Interval>
    decreases |fetched|
  {
    if fetched == [] then cov else MarkAll(Merged(cov + [fetched[0]]), fetched[1..])
  }

  lemma {:induction false} MarkAllDenotes(cov: seq<Interval>, fetched: seq<Interval>)
    ensures forall x :: InHalf(MarkAll(cov, fetched), x) <==> InHalf(cov, x) || InHalf(fetched, x)
    decreases |fetched|
  {
    if fetched != [] {
      MergedDenotes(cov + [fetched[0]]);
      InConcat(cov, [fetched[0]]);
      SplitHead(fetched);
      SplitHead([fetched[0]]);
      MarkAllDenotes(Merged(cov + [fetched[0]]), fetched[1..]);
    }
  }

  /** The ranges still to fetch (prefetcher.py:165). */
  function Gaps(hub: seq<Interval>, target: seq<Interval>, local: seq<Interval>): seq<Interval> {
    Minus(Common(hub, target), local)
  }

  predicate StartsAt(l: seq<Interval>, x: real) { exists i :: 0 <= i < |l| && l[i].0 == x }

  predicate EndsAt(l: seq<Interval>, x: real) { exists i :: 0 <= i < |l| && l[i].1 == x }

  lemma EndsOfTail(l: seq<Interval>, x: real)
    requires l != []
    ensures StartsAt(l, x) <==> l[0].0 == x || StartsAt(l[1..], x)
    ensures EndsAt(l, x) <==> l[0].1 == x || EndsAt(l[1..], x)
  {
    assert forall i :: 0 < i < |l| ==> l[1..][i - 1] == l[i];
    assert forall i :: 0 <= i < |l[1..]| ==> l[1..][i] == l[i + 1];
  }

  lemma {:induction false} CarveEnds(cur: real, b: real, holes: seq<Interval>, p: Interval)
    requires p in Carve(cur, b, holes)
    ensures (p.0 == cur || EndsAt(holes, p.0)) && (p.1 == b || StartsAt(holes, p.1))
    decreases |holes|
  {
    if holes != [] {
      EndsOfTail(holes, p.0);
      EndsOfTail(holes, p.1);
      hide StartsAt, EndsAt;
      if holes[0].1 <= cur {
        CarveEnds(cur, b, holes[1..], p);
      } else if holes[0].0 < b && p in CarveRest(holes[0].1, b, holes[1..]) && holes[0].1 < b {
        CarveEnds(holes[0].1, b, holes[1..], p);
      }
    }
  }

  /** No piece of a difference is cut where there is no reason to: it starts where a merged
      interval starts or a merged hole ends, and ends where one ends or starts. */
  lemma MinusEnds(a: seq<Interval>, b: seq<Interval>, p: Interval)
    requires p in Minus(a, b)
    ensures StartsAt(Merged(a), p.0) || EndsAt(Merged(b), p.0)
    ensures EndsAt(Merged(a), p.1) || StartsAt(Merged(b), p.1)
  {
    CarveAllEnds(Merged(a), Merged(b), p);
  }

  lemma {:induction false} CarveAllEnds(a: seq<Interval>, holes: seq<Interval>, p: Interval)
    requires p in CarveAll(a, holes)
    ensures StartsAt(a, p.0) || EndsAt(holes, p.0)
    ensures EndsAt(a, p.1) || StartsAt(holes, p.1)
  {
    EndsOfTail(a, p.0);
    EndsOfTail(a, p.1);
    hide StartsAt, EndsAt;
    if p in Carve(a[0].0, a[0].1, holes) {
      CarveEnds(a[0].0, a[0].1, holes, p);
    } else {
      CarveAllEnds(a[1..], holes, p);
    }
  }

  /** The gaps are exactly the hub data of the target that is not local yet, and once ranges
      covering them are marked, in any order and any chunking, none is left. */
  lemma GapFixpoint(hub: seq<Interval>, target: seq<Interval>, local: seq<Interval>, fetched: seq<Interval>)
    requires WellFormed(local)
    requires forall x :: InHalf(Gaps(hub, target, local), x) ==> InHalf(fetched, x)
    requires WellFormed(fetched)
    ensures forall x :: InHalf(Gaps(hub, target, local), x) <==> !InHalf(local, x) && InHalf(hub, x) && InHalf(target, x)
    ensures Gaps(hub, target, MarkAll(local, fetched)) == []
  {
    var want, after := Common(hub, target), MarkAll(local, fetched);
    CommonDenotes(hub, target);
    MinusDenotes(want, local);
    MarkAllDenotes(local, fetched);
    MarkAllWellFormed(local, fetched);
    MinusDenotes(want, after);
    var left := Gaps(hub, target, after);
    FirstPoint(left);
  }

  lemma {:induction false} MarkAllWellFormed(cov: seq<Interval>, fetched: seq<Interval>)
    requires WellFormed(cov) && WellFormed(fetched)
    ensures WellFormed(MarkAll(cov, fetched))
    decreases |fetched|
  {
    if fetched != [] {
      InConcat(cov, [fetched[0]]);
      MergedDenotes(cov + [fetched[0]]);
      MarkAllWellFormed(Merged(cov + [fetched[0]]), fetched[1..]);
    }
  }
}
