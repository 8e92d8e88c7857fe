/** The pure side of the bounded chart buffer (ferrodac/core/plotbuffer.py): which
    samples one decimation keeps, what a sequence of calls leaves in the buffer, and
    the laws both obey. The class that works in place is in CurveBufferClass.dfy. */
module CurveSpec {
  import opened Values

  /** One buffered sample: time, value and the two inline sigma lanes. */
  datatype Point = Point(x: real, y: Val, slo: Val, shi: Val)

  /** The sigma argument of `append`: absent, one symmetric lane, or a (lo, hi) pair. */
  datatype Sigma = Absent | Symmetric(s: seq<Val>) | Pair(lo: seq<Val>, hi: seq<Val>)

  // ----- one bucket of four samples -----

  /** `argmin` with NaN read as +inf: the first index of a least element. */
  function ArgMin(b: seq<Val>): (r: nat)
    requires |b| > 0
    ensures r < |b|
    ensures forall i :: 0 <= i < |b| ==> Leq(OrInf(b[r]), OrInf(b[i]))
    ensures forall i :: 0 <= i < r ==> Less(OrInf(b[r]), OrInf(b[i]))
  {
    if |b| == 1 then 0 else
      var r := ArgMin(b[..|b| - 1]);
      if Less(OrInf(b[|b| - 1]), OrInf(b[r])) then |b| - 1 else r
  }

  /** `argmax` with NaN read as -inf: the first index of a greatest element. */
  function ArgMax(b: seq<Val>): (r: nat)
    requires |b| > 0
    ensures r < |b|
    ensures forall i :: 0 <= i < |b| ==> Leq(OrNegInf(b[i]), OrNegInf(b[r]))
    ensures forall i :: 0 <= i < r ==> Less(OrNegInf(b[i]), OrNegInf(b[r]))
  {
    if |b| == 1 then 0 else
      var r := ArgMax(b[..|b| - 1]);
      if Less(OrNegInf(b[r]), OrNegInf(b[|b| - 1])) then |b| - 1 else r
  }

  function OrInf(v: Val): Val { if v.NaN? then PosInf else v }

  function OrNegInf(v: Val): Val { if v.NaN? then NegInf else v }

  predicate HasNaN(b: seq<Val>) { exists i :: 0 <= i < |b| && b[i].NaN? }

  predicate AllNaN(b: seq<Val>) { forall i :: 0 <= i < |b| ==> b[i].NaN? }

  function FirstNaN(b: seq<Val>): (r: nat)
    requires HasNaN(b)
    ensures r < |b| && b[r].NaN?
    ensures forall i :: 0 <= i < r ==> !b[i].NaN?
  {
    if b[0].NaN? then 0 else
      assert HasNaN(b[1..]) by {
        var i :| 0 <= i < |b| && b[i].NaN?;
        assert b[1..][i - 1] == b[i];
      }
      1 + FirstNaN(b[1..])
  }

  function SumNums(b: seq<Val>): real {
    if b == [] then 0.0 else (if b[0].Num? then b[0].v else 0.0) + SumNums(b[1..])
  }

  function CountNums(b: seq<Val>): nat {
    if b == [] then 0 else (if b[0].Num? then 1 else 0) + CountNums(b[1..])
  }

  /** `abs(v_max - mean) >= abs(v_min - mean)` in IEEE arithmetic. An infinite member
      makes one side of the comparison NaN, so the test is then false. */
  predicate MaxIsStronger(b: seq<Val>, imin: nat, imax: nat)
    requires imin < |b| && imax < |b|
  {
    && (forall i :: 0 <= i < |b| ==> b[i].Num? || b[i].NaN?)
    && b[imin].Num? && b[imax].Num? && CountNums(b) > 0
    && Abs(b[imax].v - Mean(b)) >= Abs(b[imin].v - Mean(b))
  }

  /** The two in-bucket slots that survive, in time order. `first` marks bucket 0,
      whose slot 0 is pinned. */
  function Slots(b: seq<Val>, first: bool): (s: (nat, nat))
    requires |b| == 4
    ensures s.0 <= s.1 < 4
    ensures first ==> s.0 == 0
  {
    var imin, imax := ArgMin(b), ArgMax(b);
    var strong := if MaxIsStronger(b, imin, imax) then imax else imin;
    if HasNaN(b) then
      var brk := FirstNaN(b);
      var keep := if AllNaN(b) then brk else strong;
      if first then (0, brk) else (Min(keep, brk), Max(keep, brk))
    else if first && Min(imin, imax) != 0 then (0, strong)
    else (Min(imin, imax), Max(imin, imax))
  }

  /** A value is one of the two emitted ones. */
  predicate Emits(b: seq<Val>, s: (nat, nat), v: Val)
    requires s.0 < |b| && s.1 < |b|
  {
    b[s.0] == v || b[s.1] == v
  }

  predicate IsLeast(b: seq<Val>, v: Val) {
    v in b && forall i :: 0 <= i < |b| ==> Leq(v, b[i])
  }

  predicate IsGreatest(b: seq<Val>, v: Val) {
    v in b && forall i :: 0 <= i < |b| ==> Leq(b[i], v)
  }

  /** An ordinary bucket without a break keeps both extremes. */
  lemma SlotsKeepExtremes(b: seq<Val>, lo: Val, hi: Val)
    requires |b| == 4 && !HasNaN(b) && IsLeast(b, lo) && IsGreatest(b, hi)
    ensures Emits(b, Slots(b, false), lo) && Emits(b, Slots(b, false), hi)
  {
    ExtremesAreArg(b, lo, hi);
  }

  lemma ExtremesAreArg(b: seq<Val>, lo: Val, hi: Val)
    requires |b| > 0 && !HasNaN(b) && IsLeast(b, lo) && IsGreatest(b, hi)
    ensures b[ArgMin(b)] == lo && b[ArgMax(b)] == hi
  {
    assert forall i :: 0 <= i < |b| ==> !b[i].NaN? && OrInf(b[i]) == b[i] && OrNegInf(b[i]) == b[i];
    var i :| 0 <= i < |b| && b[i] == lo;
    var j :| 0 <= j < |b| && b[j] == hi;
    assert Leq(OrInf(b[ArgMin(b)]), OrInf(b[i])) && Leq(OrNegInf(b[j]), OrNegInf(b[ArgMax(b)]));
  }

  /** Bucket 0 gives one slot to sample 0, so a break-free bucket 0 keeps both extremes
      exactly when sample 0 is itself one of them. */
  lemma FirstBucketKeepsExtremes(b: seq<Val>, lo: Val, hi: Val)
    requires |b| == 4 && !HasNaN(b) && IsLeast(b, lo) && IsGreatest(b, hi)
    ensures Emits(b, Slots(b, true), b[0])
    ensures Emits(b, Slots(b, true), lo) || Emits(b, Slots(b, true), hi)
    ensures Emits(b, Slots(b, true), lo) && Emits(b, Slots(b, true), hi) <==> b[0] == lo || b[0] == hi
  {
    ExtremesAreArg(b, lo, hi);
    var imin, imax := ArgMin(b), ArgMax(b);
    assert forall i :: 0 <= i < |b| ==> !b[i].NaN? && OrInf(b[i]) == b[i] && OrNegInf(b[i]) == b[i];
    if b[0] == lo {
      assert imin == 0;
    }
    if b[0] == hi {
      assert imax == 0;
    }
  }

  /** A bucket holding a break emits that break, its own first NaN sample, in either
      position; outside bucket 0 a finite extreme of the bucket survives beside it. */
  lemma SlotsKeepBreak(b: seq<Val>, first: bool)
    requires |b| == 4 && HasNaN(b)
    ensures FirstNaN(b) == Slots(b, first).0 || FirstNaN(b) == Slots(b, first).1
    ensures !first && (forall i :: 0 <= i < |b| ==> b[i].Num? || b[i].NaN?) && !AllNaN(b) ==>
              exists i :: (i == Slots(b, first).0 || i == Slots(b, first).1) && 0 <= i < 4 && b[i].Num?
                && ((forall j :: 0 <= j < 4 && b[j].Num? ==> b[i].v <= b[j].v) || (forall j :: 0 <= j < 4 && b[j].Num? ==> b[j].v <= b[i].v))
  {
    var imin, imax := ArgMin(b), ArgMax(b);
    if (forall i :: 0 <= i < |b| ==> b[i].Num? || b[i].NaN?) && !AllNaN(b) {
      var k :| 0 <= k < |b| && !b[k].NaN?;
      assert Leq(OrInf(b[imin]), OrInf(b[k])) && Leq(OrNegInf(b[k]), OrNegInf(b[imax]));
      assert b[imin].Num? && b[imax].Num?;
      assert forall j :: 0 <= j < 4 && b[j].Num? ==> Leq(OrInf(b[imin]), OrInf(b[j])) && Leq(OrNegInf(b[j]), OrNegInf(b[imax]));
      var strong := if MaxIsStronger(b, imin, imax) then imax else imin;
      assert b[strong].Num?;
    }
  }

  function Mean(b: seq<Val>): real
    requires CountNums(b) > 0
  {
    SumNums(b) / CountNums(b) as real
  }

  /** v is at least as far from the bucket's mean as any of its samples. */
  predicate Farthest(b: seq<Val>, v: Val) {
    && v in b && v.Num? && CountNums(b) > 0
    && forall j :: 0 <= j < |b| && b[j].Num? ==> Abs(b[j].v - Mean(b)) <= Abs(v.v - Mean(b))
  }

  predicate NoInfinity(b: seq<Val>) { forall i :: 0 <= i < |b| ==> b[i].Num? || b[i].NaN? }

  /** Where only one extreme fits, it is the one farther from the mean: beside a break in
      an ordinary bucket, and beside the pinned sample 0 when that is no extreme itself. */
  lemma StrongestSurvives(b: seq<Val>, first: bool, k: nat)
    requires |b| == 4 && NoInfinity(b) && k < 4 && b[k].Num?
    requires if first then !HasNaN(b) && ArgMin(b) != 0 && ArgMax(b) != 0 else HasNaN(b)
    ensures Farthest(b, b[Slots(b, first).0]) || Farthest(b, b[Slots(b, first).1])
  {
    hide CountNums, SumNums;
    var imin, imax := ArgMin(b), ArgMax(b);
    CountsOne(b, k);
    assert Leq(OrInf(b[imin]), OrInf(b[k])) && Leq(OrNegInf(b[k]), OrNegInf(b[imax]));
    var strong := if MaxIsStronger(b, imin, imax) then imax else imin;
    forall j | 0 <= j < 4 && b[j].Num? ensures Abs(b[j].v - Mean(b)) <= Abs(b[strong].v - Mean(b)) {
      assert Leq(OrInf(b[imin]), OrInf(b[j])) && Leq(OrNegInf(b[j]), OrNegInf(b[imax]));
    }
    assert Farthest(b, b[strong]);
  }

  lemma {:induction false} CountsOne(b: seq<Val>, k: nat)
    requires k < |b| && b[k].Num?
    ensures CountNums(b) > 0
  {
    if k > 0 {
      CountsOne(b[1..], k - 1);
    }
  }

  /** Sample i is the first of the least (greatest) ones, a break counting as neither; it is
      the first break. */
  predicate FirstLeast(b: seq<Val>, i: nat) {
    && i < |b| && (forall j :: 0 <= j < |b| ==> Leq(OrInf(b[i]), OrInf(b[j])))
    && forall j :: 0 <= j < i ==> Less(OrInf(b[i]), OrInf(b[j]))
  }

  predicate FirstGreatest(b: seq<Val>, i: nat) {
    && i < |b| && (forall j :: 0 <= j < |b| ==> Leq(OrNegInf(b[j]), OrNegInf(b[i])))
    && forall j :: 0 <= j < i ==> Less(OrNegInf(b[j]), OrNegInf(b[i]))
  }

  predicate FirstBreak(b: seq<Val>, i: nat) {
    i < |b| && b[i].NaN? && forall j :: 0 <= j < i ==> !b[j].NaN?
  }

  /** The greatest value is kept if only one fits: no infinity among the samples, and it is
      at least as far from their mean as the least one. A tie goes to the greatest. */
  predicate GreatestWins(b: seq<Val>, lo: nat, hi: nat)
    requires lo < |b| && hi < |b|
  {
    NoInfinity(b) && b[lo].Num? && b[hi].Num? && CountNums(b) > 0 && Abs(b[hi].v - Mean(b)) >= Abs(b[lo].v - Mean(b))
  }

  /** The set of samples a bucket emits. */
  function Kept(b: seq<Val>, first: bool): set<nat>
    requires |b| == 4
  {
    {Slots(b, first).0, Slots(b, first).1}
  }

  /** Which samples a bucket without a break emits: its extremes; in bucket 0 sample 0 and,
      if that is no extreme, the stronger one. */
  lemma SlotsAre(b: seq<Val>, lo: nat, hi: nat)
    requires |b| == 4 && !HasNaN(b) && FirstLeast(b, lo) && FirstGreatest(b, hi)
    ensures Kept(b, false) == {lo, hi}
    ensures Kept(b, true) == if lo == 0 || hi == 0 then {lo, hi} else {0, if GreatestWins(b, lo, hi) then hi else lo}
  {
    LeastUnique(b, lo);
    GreatestUnique(b, hi);
    assert GreatestWins(b, lo, hi) <==> MaxIsStronger(b, lo, hi);
    hide FirstLeast, FirstGreatest, ArgMin, ArgMax, GreatestWins, MaxIsStronger, FirstNaN, AllNaN;
  }

  /** With a break: that break and, if there is another sample, the stronger extreme; in
      bucket 0 the break and sample 0. */
  lemma BrokenSlotsAre(b: seq<Val>, lo: nat, hi: nat, k: nat)
    requires |b| == 4 && FirstBreak(b, k) && FirstLeast(b, lo) && FirstGreatest(b, hi)
    ensures Kept(b, true) == {0, k}
    ensures Kept(b, false) == if AllNaN(b) then {k} else {k, if GreatestWins(b, lo, hi) then hi else lo}
  {
    LeastUnique(b, lo);
    GreatestUnique(b, hi);
    assert GreatestWins(b, lo, hi) <==> MaxIsStronger(b, lo, hi);
    assert HasNaN(b) && FirstNaN(b) == k;
    hide FirstLeast, FirstGreatest, ArgMin, ArgMax, GreatestWins, MaxIsStronger, FirstNaN, AllNaN;
  }

  lemma LeastUnique(b: seq<Val>, i: nat)
    requires FirstLeast(b, i)
    ensures ArgMin(b) == i
  {
  }

  lemma GreatestUnique(b: seq<Val>, i: nat)
    requires FirstGreatest(b, i)
    ensures ArgMax(b) == i
  {
  }

  lemma MeanIs(b: seq<Val>)
    requires CountNums(b) > 0
    ensures Mean(b) * CountNums(b) as real == SumNums(b)
  {
    hide CountNums, SumNums;
  }

  /** The mean is that of the samples that are numbers. */
  lemma {:induction false} MeanOfNums(b: seq<Val>, v: Val)
    ensures CountNums([]) == 0 && SumNums([]) == 0.0
    ensures CountNums(b + [v]) == CountNums(b) + (if v.Num? then 1 else 0)
    ensures SumNums(b + [v]) == SumNums(b) + (if v.Num? then v.v else 0.0)
  {
    if b == [] {
      assert [] + [v] == [v] && [v][1..] == [];
    } else {
      MeanOfNums(b[1..], v);
      assert (b + [v])[1..] == b[1..] + [v];
    }
  }

  // ----- one decimation -----

  /** Index of the i-th survivor of a decimation of a buffer with these y values. */
  function Survivor(ys: seq<Val>, i: nat): (r: nat)
    requires i < KeptCount(|ys|)
    ensures r < |ys|
  {
    if |ys| < 4 then 2 * i
    else
      var full := |ys| / 4;
      if i < 2 * full then
        var j := i / 2;
        var s := Slots(ys[4 * j..4 * j + 4], j == 0);
        4 * j + (if i % 2 == 0 then s.0 else s.1)
      else i + 2 * full
  }

  /** How many samples one decimation of n leaves. */
  function KeptCount(n: nat): (m: nat)
    ensures n <= 2 * m && m <= n
    ensures n >= 2 ==> m < n
    ensures n >= 1 ==> m >= 1
  {
    if n < 4 then (n + 1) / 2 else 2 * (n / 4) + n % 4
  }

  function Ys(s: seq<Point>): (r: seq<Val>)
    ensures |r| == |s| && forall i :: 0 <= i < |s| ==> r[i] == s[i].y
  {
    seq(|s|, i requires 0 <= i < |s| => s[i].y)
  }

  /** The whole buffer after one decimation: every lane read through the same indices. */
  function Decimated(s: seq<Point>): (r: seq<Point>)
    ensures |r| == KeptCount(|s|)
  {
    var ys := Ys(s);
    seq(KeptCount(|s|), i requires 0 <= i < KeptCount(|s|) => s[Survivor(ys, i)])
  }

  /** Survivors are in index order and start at sample 0; the last n % 4 are verbatim. */
  lemma SurvivorOrder(ys: seq<Val>, i: nat, j: nat)
    requires i <= j < KeptCount(|ys|)
    ensures Survivor(ys, i) <= Survivor(ys, j)
    ensures Survivor(ys, 0) == 0
  {
    hide Slots;
    if |ys| >= 4 {
      var full := |ys| / 4;
      assert Survivor(ys, 0) == 0 by { assert ys[4 * 0..4 * 0 + 4] == ys[0..4]; }
      if j < 2 * full {
        if i / 2 != j / 2 {
          assert Survivor(ys, i) < 4 * (i / 2) + 4 <= 4 * (j / 2) <= Survivor(ys, j);
        }
      } else if i < 2 * full {
        assert Survivor(ys, i) < 4 * (i / 2) + 4 <= 4 * full;
      }
    }
  }

  function Bucket(s: seq<Point>, j: nat): (b: seq<Val>)
    requires 4 * j + 4 <= |s|
    ensures |b| == 4
  {
    Ys(s)[4 * j..4 * j + 4]
  }

  lemma SlotSurvivors(ys: seq<Val>, j: nat)
    requires 4 * j + 4 <= |ys|
    ensures KeptCount(|ys|) >= 2 * j + 2
    ensures Survivor(ys, 2 * j) == 4 * j + Slots(ys[4 * j..4 * j + 4], j == 0).0
    ensures Survivor(ys, 2 * j + 1) == 4 * j + Slots(ys[4 * j..4 * j + 4], j == 0).1
  {
    hide Slots;
  }

  /** The two points bucket j leaves behind. */
  lemma EmittedPair(s: seq<Point>, j: nat)
    requires 4 * j + 4 <= |s|
    ensures KeptCount(|s|) >= 2 * j + 2
    ensures var sl := Slots(Bucket(s, j), j == 0);
            Decimated(s)[2 * j] == s[4 * j + sl.0] && Decimated(s)[2 * j + 1] == s[4 * j + sl.1]
  {
    hide Slots, Survivor;
    SlotSurvivors(Ys(s), j);
  }

  /** One decimation of at least four samples leaves 2 * (n / 4) + n % 4 points, keeps
      sample 0 in front and the last n % 4 points verbatim at the end. */
  lemma DecimationShape(s: seq<Point>)
    requires |s| >= 4
    ensures |Decimated(s)| == 2 * (|s| / 4) + |s| % 4
    ensures Decimated(s)[0] == s[0]
    ensures Decimated(s)[2 * (|s| / 4)..] == s[4 * (|s| / 4)..]
  {
    hide Slots;
    EmittedPair(s, 0);
  }

  /** Below four samples every second one is kept. */
  lemma SmallDecimation(s: seq<Point>)
    requires |s| < 4
    ensures |Decimated(s)| == (|s| + 1) / 2
    ensures forall i :: 0 <= i < |Decimated(s)| ==> Decimated(s)[i] == s[2 * i]
  {
  }

  /** Every break-free bucket after the first keeps its least and its greatest value. */
  lemma DecimationKeepsExtremes(s: seq<Point>, j: nat, lo: Val, hi: Val)
    requires 0 < j && 4 * j + 4 <= |s|
    requires !HasNaN(Bucket(s, j)) && IsLeast(Bucket(s, j), lo) && IsGreatest(Bucket(s, j), hi)
    ensures KeptCount(|s|) >= 2 * j + 2
    ensures lo == Decimated(s)[2 * j].y || lo == Decimated(s)[2 * j + 1].y
    ensures hi == Decimated(s)[2 * j].y || hi == Decimated(s)[2 * j + 1].y
  {
    hide *;
    SlotsKeepExtremes(Bucket(s, j), lo, hi);
    EmittedValue(s, j, lo);
    EmittedValue(s, j, hi);
  }

  lemma EmittedValue(s: seq<Point>, j: nat, v: Val)
    requires 4 * j + 4 <= |s| && Emits(Bucket(s, j), Slots(Bucket(s, j), j == 0), v)
    ensures KeptCount(|s|) >= 2 * j + 2
    ensures v == Decimated(s)[2 * j].y || v == Decimated(s)[2 * j + 1].y
  {
    var sl := Slots(Bucket(s, j), j == 0);
    assert v == Bucket(s, j)[sl.0] || v == Bucket(s, j)[sl.1];
    hide *;
    EmittedPair(s, j);
    BucketAt(s, j, sl.0);
    BucketAt(s, j, sl.1);
  }

  /** Every bucket that holds a break emits its own first NaN sample, at its own x. */
  lemma DecimationKeepsBreak(s: seq<Point>, j: nat)
    requires 4 * j + 4 <= |s| && HasNaN(Bucket(s, j))
    ensures KeptCount(|s|) >= 2 * j + 2
    ensures var p := s[4 * j + FirstNaN(Bucket(s, j))];
            p.y.NaN? && (p == Decimated(s)[2 * j] || p == Decimated(s)[2 * j + 1])
  {
    hide *;
    EmittedPair(s, j);
    SlotsKeepBreak(Bucket(s, j), j == 0);
    BucketAt(s, j, FirstNaN(Bucket(s, j)));
  }

  lemma BucketAt(s: seq<Point>, j: nat, k: nat)
    requires 4 * j + 4 <= |s| && k < 4
    ensures Bucket(s, j)[k] == s[4 * j + k].y
  {
  }

  predicate HasBreak(s: seq<Point>) { exists i :: 0 <= i < |s| && s[i].y.NaN? }

  /** A buffer of at least four samples that holds a break still holds one afterwards. */
  lemma BreakSurvives(s: seq<Point>)
    requires |s| >= 4 && HasBreak(s)
    ensures HasBreak(Decimated(s))
  {
    var i :| 0 <= i < |s| && s[i].y.NaN?;
    if 4 * (i / 4) + 4 <= |s| {
      BreakInBucket(s, i / 4, i % 4);
    } else {
      BreakInTail(s, i);
    }
  }

  lemma BreakInBucket(s: seq<Point>, j: nat, k: nat)
    requires 4 * j + 4 <= |s| && k < 4 && s[4 * j + k].y.NaN?
    ensures HasBreak(Decimated(s))
  {
    hide Slots, Survivor, FirstNaN, Decimated, Bucket, KeptCount;
    BucketAt(s, j, k);
    DecimationKeepsBreak(s, j);
  }

  lemma BreakInTail(s: seq<Point>, i: nat)
    requires |s| >= 4 && 4 * (|s| / 4) <= i < |s| && s[i].y.NaN?
    ensures HasBreak(Decimated(s))
  {
    hide Slots, Survivor, Decimated, KeptCount;
    DecimationShape(s);
    var full := |s| / 4;
    assert Decimated(s)[2 * full..][i - 4 * full] == s[4 * full..][i - 4 * full];
  }

  /** Sample 3 goes strictly above (below) the readable values of the other three. */
  predicate LastIsTop(b: seq<Val>)
    requires |b| == 4
  {
    forall i :: 0 <= i < 3 ==> Less(OrNegInf(b[i]), OrNegInf(b[3]))
  }

  predicate LastIsBottom(b: seq<Val>)
    requires |b| == 4
  {
    forall i :: 0 <= i < 3 ==> Less(OrInf(b[3]), OrInf(b[i]))
  }

  /** Sample 3 is the one extreme that is kept where only one fits. */
  predicate LastIsStronger(b: seq<Val>)
    requires |b| == 4
  {
    if GreatestWins(b, ArgMin(b), ArgMax(b)) then LastIsTop(b) else LastIsBottom(b)
  }

  predicate OnlyLastIsNaN(b: seq<Val>)
    requires |b| == 4
  {
    b[3].NaN? && !b[0].NaN? && !b[1].NaN? && !b[2].NaN?
  }

  /** Sample 0 is neither a least nor a greatest value. */
  predicate FirstIsInner(b: seq<Val>)
    requires |b| == 4
  {
    (exists i :: 0 < i < 4 && Less(b[i], b[0])) && (exists i :: 0 < i < 4 && Less(b[0], b[i]))
  }

  /** When a bucket emits its final sample. */
  predicate EmitsLast(b: seq<Val>, first: bool)
    requires |b| == 4
  {
    if HasNaN(b) then OnlyLastIsNaN(b) || (!first && !AllNaN(b) && LastIsStronger(b))
    else if first && FirstIsInner(b) then LastIsStronger(b)
    else LastIsTop(b) || LastIsBottom(b)
  }

  lemma ArgAtLast(b: seq<Val>)
    requires |b| == 4
    ensures ArgMax(b) == 3 <==> LastIsTop(b)
    ensures ArgMin(b) == 3 <==> LastIsBottom(b)
    ensures !HasNaN(b) ==> (ArgMin(b) != 0 && ArgMax(b) != 0 <==> FirstIsInner(b))
  {
    if !HasNaN(b) {
      assert forall i :: 0 <= i < 4 ==> !b[i].NaN? && OrInf(b[i]) == b[i] && OrNegInf(b[i]) == b[i];
      assert ArgMin(b) != 0 ==> Less(b[ArgMin(b)], b[0]);
      assert ArgMax(b) != 0 ==> Less(b[0], b[ArgMax(b)]);
    }
  }

  lemma LaterSlotIsLast(b: seq<Val>, first: bool)
    requires |b| == 4
    ensures Slots(b, first).1 == 3 <==> EmitsLast(b, first)
  {
    ArgAtLast(b);
    assert GreatestWins(b, ArgMin(b), ArgMax(b)) <==> MaxIsStronger(b, ArgMin(b), ArgMax(b));
    hide LastIsTop, LastIsBottom, GreatestWins, MaxIsStronger, ArgMin, ArgMax, FirstIsInner;
    assert HasNaN(b) ==> (FirstNaN(b) == 3 <==> OnlyLastIsNaN(b));
  }

  /** The last survivor of a decimation is the final sample. */
  predicate KeepsLast(s: seq<Point>)
    requires s != []
  {
    Survivor(Ys(s), KeptCount(|s|) - 1) == |s| - 1
  }

  /** The right edge is not pinned (plotbuffer.py:106-107 says it is). A decimation keeps the
      final sample exactly if there is a verbatim tail, or the last bucket happens to emit
      it; below four samples, exactly if their number is odd. */
  lemma RightEdge(s: seq<Point>)
    requires s != []
    ensures KeepsLast(s) <==>
              if |s| < 4 then |s| % 2 == 1
              else |s| % 4 != 0 || EmitsLast(Bucket(s, |s| / 4 - 1), |s| == 4)
  {
    hide *;
    if |s| >= 4 && |s| % 4 == 0 {
      BucketEdge(s, |s| / 4 - 1);
    } else {
      TailEdge(s);
    }
  }

  lemma BucketEdge(s: seq<Point>, j: nat)
    requires |s| == 4 * j + 4
    ensures KeepsLast(s) <==> EmitsLast(Bucket(s, j), j == 0)
  {
    hide Slots, EmitsLast, Survivor;
    SlotSurvivors(Ys(s), j);
    LaterSlotIsLast(Bucket(s, j), j == 0);
  }

  lemma TailEdge(s: seq<Point>)
    requires s != [] && (|s| < 4 || |s| % 4 != 0)
    ensures KeepsLast(s) <==> |s| >= 4 || |s| % 2 == 1
  {
    hide Slots;
  }

  // ----- the shrink loop -----

  function Iterate(s: seq<Point>, rounds: nat): seq<Point> {
    if rounds == 0 then s else Decimated(Iterate(s, rounds - 1))
  }

  /** The loop `while n + k > cap: decimate` reaches its exit for every batch size
      except one: a batch of exactly `cap` samples on a non-empty buffer. */
  lemma ShrinkLoopEnds(cap: nat, s: seq<Point>, k: nat)
    requires k <= cap
    ensures (exists r :: |Iterate(s, r)| + k <= cap) <==> k < cap || s == []
  {
    if k < cap || s == [] {
      var r := ShrinkRounds(cap, s, k, 0);
      assert |Iterate(s, r)| + k <= cap;
    } else {
      forall r ensures |Iterate(s, r)| + k > cap {
        NeverEmpties(s, r);
      }
    }
  }

  lemma {:induction false} ShrinkRounds(cap: nat, s: seq<Point>, k: nat, r0: nat) returns (r: nat)
    requires k < cap || s == []
    requires k <= cap
    ensures |Iterate(s, r)| + k <= cap
    decreases |Iterate(s, r0)|
  {
    if |Iterate(s, r0)| + k <= cap {
      r := r0;
    } else {
      if s == [] {
        AllEmpty(r0);
      }
      assert Iterate(s, r0 + 1) == Decimated(Iterate(s, r0));
      r := ShrinkRounds(cap, s, k, r0 + 1);
    }
  }

  lemma AllEmpty(r: nat)
    ensures Iterate([], r) == []
  {
  }

  lemma NeverEmpties(s: seq<Point>, r: nat)
    requires s != []
    ensures Iterate(s, r) != []
  {
  }

  /** The buffer after the shrink loop has made room for k more points. */
  function Shrunk(cap: nat, s: seq<Point>, k: nat): (r: seq<Point>)
    requires k < cap || (k == cap && s == [])
    ensures |r| + k <= cap
    decreases |s|
  {
    if |s| + k > cap then Shrunk(cap, Decimated(s), k) else s
  }

  /** One decimation never discards more than half, so an append that had to decimate
      leaves more than half the cap occupied. */
  lemma {:induction false} ShrunkStaysHalfFull(cap: nat, s: seq<Point>, k: nat)
    requires k < cap && |s| + k > cap
    ensures 2 * (|Shrunk(cap, s, k)| + k) > cap + k
    decreases |s|
  {
    var d := Decimated(s);
    if |d| + k > cap {
      ShrunkStaysHalfFull(cap, d, k);
    }
  }

  /** While at least three slots stay free beside the batch, the shrink loop only ever
      envelopes, so a buffer holding a break still holds one when it ends. */
  lemma {:induction false} ShrunkKeepsBreak(cap: nat, s: seq<Point>, k: nat)
    requires k + 3 <= cap && HasBreak(s)
    ensures HasBreak(Shrunk(cap, s, k))
    decreases |s|
  {
    if |s| + k > cap {
      BreakSurvives(s);
      ShrunkKeepsBreak(cap, Decimated(s), k);
    }
  }

  /** Below four samples a decimation keeps every second one, so a break survives exactly
      at an even place. */
  lemma SmallBreak(s: seq<Point>)
    requires |s| < 4
    ensures HasBreak(Decimated(s)) <==> exists i :: 0 <= i < |s| && i % 2 == 0 && s[i].y.NaN?
  {
    var d := Decimated(s);
    forall i | 0 <= i < |d| ensures d[i] == s[2 * i] {
    }
    if i :| 0 <= i < |s| && i % 2 == 0 && s[i].y.NaN? {
      assert d[i / 2] == s[i];
    }
  }

  /** Three free slots beside the batch is the exact condition: with fewer, the shrink loop
      can drop the only break of a three-point buffer. */
  lemma BreakKeptExactly(cap: nat, k: nat)
    requires 4 <= cap && k < cap
    ensures (forall s :: HasBreak(s) && |s| <= cap ==> HasBreak(Shrunk(cap, s, k))) <==> k + 3 <= cap
  {
    if k + 3 <= cap {
      forall s | HasBreak(s) && |s| <= cap ensures HasBreak(Shrunk(cap, s, k)) {
        ShrunkKeepsBreak(cap, s, k);
      }
    } else {
      var p := Point(0.0, Num(0.0), NaN, NaN);
      var s := [p, p.(y := NaN), p];
      assert s[1].y.NaN?;
      assert HasBreak(s);
      SmallBreak(s);
      var d := Decimated(s);
      SmallBreak(d);
      if k == cap - 2 {
        assert Shrunk(cap, s, k) == d;
      } else {
        assert Shrunk(cap, d, k) == Decimated(d);
        assert Shrunk(cap, s, k) == Decimated(d);
      }
    }
  }

  // ----- whole calls -----

  /** `_lane`: pad a short sigma lane with NaN up to k, leave a long one alone. */
  function Lane(a: seq<Val>, k: nat): (r: seq<Val>)
    ensures |r| >= k && a <= r && forall i :: |a| <= i < |r| ==> r[i].NaN?
  {
    if |a| < k then a + seq(k - |a|, _ => NaN) else a
  }

  function LoLane(ss: Sigma, k: nat): (r: seq<Val>)
    ensures |r| >= k
  {
    match ss
    case Absent => Lane([], k)
    case Symmetric(s) => Lane(s, k)
    case Pair(lo, _) => Lane(lo, k)
  }

  function HiLane(ss: Sigma, k: nat): (r: seq<Val>)
    ensures |r| >= k
  {
    match ss
    case Absent => Lane([], k)
    case Symmetric(s) => Lane(s, k)
    case Pair(_, hi) => Lane(hi, k)
  }

  function Last<T>(s: seq<T>, k: nat): (r: seq<T>)
    requires k <= |s|
    ensures |r| == k
  {
    s[|s| - k..]
  }

  function Zip(xs: seq<real>, ys: seq<Val>, lo: seq<Val>, hi: seq<Val>, k: nat): (r: seq<Point>)
    requires k <= |xs| && k <= |ys| && k <= |lo| && k <= |hi|
    ensures |r| == k && forall i :: 0 <= i < k ==> r[i] == Point(xs[i], ys[i], lo[i], hi[i])
  {
    seq(k, i requires 0 <= i < k => Point(xs[i], ys[i], lo[i], hi[i]))
  }

  /** The points a call contributes. A batch above the cap is cut to `cap` by taking the
      last `cap` entries of each lane, each lane counted from its own end. */
  function Batch(cap: nat, xs: seq<real>, ys: seq<Val>, ss: Sigma): (b: seq<Point>)
    ensures |b| == Min(cap, Min(|xs|, |ys|))
  {
    var k := Min(|xs|, |ys|);
    var lo, hi := LoLane(ss, k), HiLane(ss, k);
    if k > cap then Zip(Last(xs, cap), Last(ys, cap), Last(lo, cap), Last(hi, cap), cap)
    else Zip(xs, ys, lo, hi, k)
  }

  /** Calls on which the shrink loop ends; see ShrinkLoopEnds. */
  predicate Fits(cap: nat, stored: nat, xs: seq<real>, ys: seq<Val>) {
    Min(|xs|, |ys|) == cap ==> stored == 0
  }

  function Appended(cap: nat, s: seq<Point>, xs: seq<real>, ys: seq<Val>, ss: Sigma): (r: seq<Point>)
    requires Fits(cap, |s|, xs, ys) && |s| <= cap
    ensures |r| <= cap
  {
    var b := Batch(cap, xs, ys, ss);
    if |b| == 0 then s
    else if Min(|xs|, |ys|) > cap then b
    else Shrunk(cap, s, |b|) + b
  }

  /** `searchsorted(..., side="left")`: halve [lo, hi) until it is empty. */
  function Bisect(s: seq<Point>, xMin: real, lo: nat, hi: nat): (i: nat)
    requires lo <= hi <= |s|
    ensures lo <= i <= hi
    decreases hi - lo
  {
    if lo == hi then lo
    else
      var mid := (lo + hi) / 2;
      if s[mid].x < xMin then Bisect(s, xMin, mid + 1, hi) else Bisect(s, xMin, lo, mid)
  }

  /** Slide mode: everything before the searched cut goes. */
  function Trimmed(s: seq<Point>, xMin: real): (r: seq<Point>)
    ensures |r| <= |s| && r == s[|s| - |r|..]
  {
    if s != [] && s[0].x < xMin then s[Bisect(s, xMin, 0, |s|)..] else s
  }

  /** On any x lane: only a buffer that starts before xMin is cut, and the search halves what
      is left, so the middle sample decides which half it goes on in. */
  lemma TrimIs(s: seq<Point>, xMin: real, lo: nat, hi: nat)
    requires lo < hi <= |s|
    ensures Trimmed(s, xMin) == if s[0].x < xMin then s[Bisect(s, xMin, 0, |s|)..] else s
    ensures var mid := lo + (hi - lo) / 2;
            && (s[mid].x < xMin ==> Bisect(s, xMin, lo, hi) == Bisect(s, xMin, mid + 1, hi) > mid)
            && (s[mid].x >= xMin ==> Bisect(s, xMin, lo, hi) == Bisect(s, xMin, lo, mid) <= mid)
  {
  }

  predicate Ordered(s: seq<Point>) { forall i, j :: 0 <= i < j < |s| ==> s[i].x <= s[j].x }

  /** No sample older than xMin comes after one that is not. */
  predicate Parted(s: seq<Point>, xMin: real) {
    forall i, j :: 0 <= i < j < |s| && s[j].x < xMin ==> s[i].x < xMin
  }

  function IfRecent(p: Point, xMin: real): seq<Point> { if p.x >= xMin then [p] else [] }

  /** The samples not older than xMin. */
  function Recent(s: seq<Point>, xMin: real): seq<Point> {
    if s == [] then [] else IfRecent(s[0], xMin) + Recent(s[1..], xMin)
  }

  lemma {:induction false} RecentConcat(p: seq<Point>, q: seq<Point>, xMin: real)
    ensures Recent(p + q, xMin) == Recent(p, xMin) + Recent(q, xMin)
  {
    hide IfRecent;
    if p == [] {
      assert p + q == q;
    } else {
      RecentConcat(p[1..], q, xMin);
      assert (p + q)[1..] == p[1..] + q;
    }
  }

  predicate AllOld(s: seq<Point>, xMin: real) { forall i :: 0 <= i < |s| ==> s[i].x < xMin }

  predicate AllRecent(s: seq<Point>, xMin: real) { forall i :: 0 <= i < |s| ==> s[i].x >= xMin }

  lemma {:induction false} RecentFacts(s: seq<Point>, xMin: real)
    ensures AllRecent(Recent(s, xMin), xMin)
    ensures Recent(s, xMin) == [] <==> AllOld(s, xMin)
  {
    if s != [] {
      RecentFacts(s[1..], xMin);
      assert Recent(s, xMin) == IfRecent(s[0], xMin) + Recent(s[1..], xMin);
      assert s == [s[0]] + s[1..];
      hide Recent;
    }
  }

  lemma {:induction false} RecentAll(s: seq<Point>, xMin: real)
    requires AllRecent(s, xMin)
    ensures Recent(s, xMin) == s
  {
    if s != [] {
      RecentAll(s[1..], xMin);
      assert s == [s[0]] + s[1..];
    }
  }

  lemma {:induction false} BisectParts(s: seq<Point>, xMin: real, lo: nat, hi: nat)
    requires lo <= hi <= |s| && Parted(s, xMin)
    requires (forall i :: 0 <= i < lo ==> s[i].x < xMin) && (forall i :: hi <= i < |s| ==> s[i].x >= xMin)
    ensures var c := Bisect(s, xMin, lo, hi);
            (forall i :: 0 <= i < c ==> s[i].x < xMin) && (forall i :: c <= i < |s| ==> s[i].x >= xMin)
    decreases hi - lo
  {
    if lo < hi {
      var mid := (lo + hi) / 2;
      if s[mid].x < xMin {
        BisectParts(s, xMin, mid + 1, hi);
      } else {
        BisectParts(s, xMin, lo, mid);
      }
    }
  }

  /** A trim keeps exactly the samples not older than xMin if and only if none of the older
      ones comes after one of the others; on a time-ordered buffer that always holds. */
  lemma TrimmedExactly(s: seq<Point>, xMin: real)
    ensures Trimmed(s, xMin) == Recent(s, xMin) <==> Parted(s, xMin)
    ensures Ordered(s) ==> Parted(s, xMin)
  {
    OrderedParted(s, xMin);
    hide *;
    var c := |s| - |Trimmed(s, xMin)|;
    var older, kept := s[..c], s[c..];
    assert s == older + kept;
    if Parted(s, xMin) {
      TrimParts(s, xMin);
    }
    PartsParted(older, kept, xMin);
    CutExactly(older, kept, xMin);
  }

  lemma OrderedParted(s: seq<Point>, xMin: real)
    ensures Ordered(s) ==> Parted(s, xMin)
  {
  }

  lemma PartsParted(older: seq<Point>, kept: seq<Point>, xMin: real)
    ensures AllOld(older, xMin) && AllRecent(kept, xMin) ==> Parted(older + kept, xMin)
  {
  }

  /** A suffix is the recent samples exactly if the cut parts the older ones off. */
  lemma CutExactly(older: seq<Point>, kept: seq<Point>, xMin: real)
    ensures kept == Recent(older + kept, xMin) <==> AllOld(older, xMin) && AllRecent(kept, xMin)
  {
    hide Recent, AllOld, AllRecent;
    RecentConcat(older, kept, xMin);
    RecentFacts(older, xMin);
    RecentFacts(older + kept, xMin);
    if AllRecent(kept, xMin) {
      RecentAll(kept, xMin);
    }
    if kept == Recent(older + kept, xMin) {
      assert |Recent(older, xMin)| == 0;
    } else if AllOld(older, xMin) {
      assert [] + Recent(kept, xMin) == Recent(kept, xMin);
    }
  }

  lemma TrimParts(s: seq<Point>, xMin: real)
    requires Parted(s, xMin)
    ensures var c := |s| - |Trimmed(s, xMin)|; AllOld(s[..c], xMin) && AllRecent(s[c..], xMin)
  {
    if s != [] && s[0].x < xMin {
      BisectParts(s, xMin, 0, |s|);
    }
  }

  /** Entry i of a sigma lane, NaN beyond its end. */
  function SigmaAt(lane: seq<Val>, i: nat): Val { if i < |lane| then lane[i] else NaN }

  /** Where a sigma lane is cut: an oversized batch takes its last cap entries, padding
      included. */
  function SigmaStart(lane: seq<Val>, k: nat, cap: nat): nat { if k > cap then Max(|lane|, k) - cap else 0 }

  predicate SigmasAt(p: Point, lo: seq<Val>, hi: seq<Val>, k: nat, cap: nat, i: nat) {
    p.slo == SigmaAt(lo, SigmaStart(lo, k, cap) + i) && p.shi == SigmaAt(hi, SigmaStart(hi, k, cap) + i)
  }

  lemma LaneAt(lane: seq<Val>, k: nat, i: nat)
    requires i < |Lane(lane, k)|
    ensures |Lane(lane, k)| == Max(|lane|, k) && Lane(lane, k)[i] == SigmaAt(lane, i)
  {
  }

  /** Entry i of the batch on a lane that is padded, then cut from its own end. */
  lemma CutLane(lane: seq<Val>, k: nat, cap: nat, i: nat)
    requires i < Min(cap, k)
    ensures var l := Lane(lane, k);
            SigmaAt(lane, SigmaStart(lane, k, cap) + i) == if k > cap then Last(l, cap)[i] else l[i]
  {
    LaneAt(lane, k, if k > cap then |Lane(lane, k)| - cap + i else i);
    hide Lane, SigmaAt;
  }

  lemma NoSigma(i: nat)
    ensures SigmaAt([], i).NaN?
  {
  }

  /** x and y of the batch point by point, each cut from its own end if the call is
      oversized. */
  lemma BatchXY(cap: nat, xs: seq<real>, ys: seq<Val>, ss: Sigma, i: nat)
    requires i < |Batch(cap, xs, ys, ss)|
    ensures var b, k := Batch(cap, xs, ys, ss), Min(|xs|, |ys|);
            && |b| == Min(k, cap)
            && (if k <= cap then b[i].x == xs[i] && b[i].y == ys[i]
                else b[i].x == xs[|xs| - cap + i] && b[i].y == ys[|ys| - cap + i])
  {
    hide LoLane, HiLane;
  }

  /** A pair of sigma lanes goes to the two lanes of the buffer, lower to lower ... */
  lemma BatchPair(cap: nat, xs: seq<real>, ys: seq<Val>, lo: seq<Val>, hi: seq<Val>, i: nat)
    requires i < |Batch(cap, xs, ys, Pair(lo, hi))|
    ensures var p, k := Batch(cap, xs, ys, Pair(lo, hi))[i], Min(|xs|, |ys|);
            p.slo == SigmaAt(lo, SigmaStart(lo, k, cap) + i) && p.shi == SigmaAt(hi, SigmaStart(hi, k, cap) + i)
  {
    hide Lane, SigmaAt, SigmaStart;
    CutLane(lo, Min(|xs|, |ys|), cap, i);
    CutLane(hi, Min(|xs|, |ys|), cap, i);
  }

  /** ... a symmetric one to both ... */
  lemma BatchSymmetric(cap: nat, xs: seq<real>, ys: seq<Val>, s: seq<Val>, i: nat)
    requires i < |Batch(cap, xs, ys, Symmetric(s))|
    ensures var p, k := Batch(cap, xs, ys, Symmetric(s))[i], Min(|xs|, |ys|);
            p.slo == SigmaAt(s, SigmaStart(s, k, cap) + i) && p.shi == SigmaAt(s, SigmaStart(s, k, cap) + i)
  {
    hide Lane, SigmaAt, SigmaStart;
    CutLane(s, Min(|xs|, |ys|), cap, i);
  }

  /** ... and without sigma both are NaN. */
  lemma BatchAbsent(cap: nat, xs: seq<real>, ys: seq<Val>, i: nat)
    requires i < |Batch(cap, xs, ys, Absent)|
    ensures Batch(cap, xs, ys, Absent)[i].slo.NaN? && Batch(cap, xs, ys, Absent)[i].shi.NaN?
  {
    hide Lane, SigmaAt, SigmaStart;
    CutLane([], Min(|xs|, |ys|), cap, i);
    NoSigma(SigmaStart([], Min(|xs|, |ys|), cap) + i);
  }

  /** In an oversized batch the lanes are cut each from its own end. With lanes of one
      length that leaves the most recent `cap` points, whole. */
  predicate Parallel(xs: seq<real>, ys: seq<Val>, ss: Sigma) {
    var k := Min(|xs|, |ys|);
    && |xs| == k && |ys| == k
    && match ss
       case Absent => true
       case Symmetric(s) => |s| <= k
       case Pair(lo, hi) => |lo| <= k && |hi| <= k
  }

  /** Every point of the batch reads all four lanes at one common input position, a sigma
      lane that has ended as NaN. */
  predicate WholeFrom(cap: nat, xs: seq<real>, ys: seq<Val>, ss: Sigma, start: nat) {
    var b := Batch(cap, xs, ys, ss);
    start + |b| <= Min(|xs|, |ys|) && forall i :: 0 <= i < |b| ==> IsPointAt(b[i], xs, ys, ss, start + i)
  }

  predicate IsPointAt(p: Point, xs: seq<real>, ys: seq<Val>, ss: Sigma, i: nat)
    requires i < |xs| && i < |ys|
  {
    && p.x == xs[i] && p.y == ys[i]
    && match ss
       case Absent => p.slo.NaN? && p.shi.NaN?
       case Symmetric(s) => p.slo == SigmaAt(s, i) && p.shi == SigmaAt(s, i)
       case Pair(lo, hi) => p.slo == SigmaAt(lo, i) && p.shi == SigmaAt(hi, i)
  }

  lemma BatchIsWhole(cap: nat, xs: seq<real>, ys: seq<Val>, ss: Sigma)
    ensures Min(|xs|, |ys|) <= cap || Parallel(xs, ys, ss) ==>
              WholeFrom(cap, xs, ys, ss, Min(|xs|, |ys|) - Min(cap, Min(|xs|, |ys|)))
  {
    if Min(|xs|, |ys|) <= cap || Parallel(xs, ys, ss) {
      hide Batch, Parallel, IsPointAt;
      forall i: nat | i < |Batch(cap, xs, ys, ss)| { WholePoint(cap, xs, ys, ss, i); }
    }
  }

  lemma WholePoint(cap: nat, xs: seq<real>, ys: seq<Val>, ss: Sigma, i: nat)
    requires i < |Batch(cap, xs, ys, ss)| && (Min(|xs|, |ys|) <= cap || Parallel(xs, ys, ss))
    ensures IsPointAt(Batch(cap, xs, ys, ss)[i], xs, ys, ss, Min(|xs|, |ys|) - Min(cap, Min(|xs|, |ys|)) + i)
  {
    hide Batch, SigmaAt;
    BatchXY(cap, xs, ys, ss, i);
    match ss {
      case Absent => BatchAbsent(cap, xs, ys, i);
      case Symmetric(s) => BatchSymmetric(cap, xs, ys, s, i);
      case Pair(lo, hi) => BatchPair(cap, xs, ys, lo, hi, i);
    }
  }

  ghost predicate Whole(cap: nat, xs: seq<real>, ys: seq<Val>, ss: Sigma) {
    exists start: nat :: WholeFrom(cap, xs, ys, ss, start)
  }

  /** The lanes of two calls have the same lengths. */
  predicate SameLengths(xs: seq<real>, ys: seq<Val>, ss: Sigma, xt: seq<real>, yt: seq<Val>, st: Sigma) {
    && |xs| == |xt| && |ys| == |yt|
    && match (ss, st)
       case (Absent, Absent) => true
       case (Symmetric(s), Symmetric(t)) => |s| == |t|
       case (Pair(lo, hi), Pair(lt, ht)) => |lo| == |lt| && |hi| == |ht|
       case _ => false
  }

  function Ramp(n: nat): (r: seq<Val>)
    ensures |r| == n
  {
    seq(n, i => Num(i as real))
  }

  /** A call of the same lengths in which every lane counts its own positions. */
  function Counted(ss: Sigma): Sigma {
    match ss
    case Absent => Absent
    case Symmetric(s) => Symmetric(Ramp(|s|))
    case Pair(lo, hi) => Pair(Ramp(|lo|), Ramp(|hi|))
  }

  /** The lane lengths alone decide: every call of these lengths puts whole points into the
      buffer exactly when the batch is within the cap or all four lanes have one length. */
  lemma WholeExactly(cap: nat, xs: seq<real>, ys: seq<Val>, ss: Sigma)
    requires cap > 0
    ensures (forall xt, yt, st :: SameLengths(xs, ys, ss, xt, yt, st) ==> Whole(cap, xt, yt, st))
            <==> Min(|xs|, |ys|) <= cap || Parallel(xs, ys, ss)
  {
    hide Batch, Whole, WholeFrom;
    if Min(|xs|, |ys|) <= cap || Parallel(xs, ys, ss) {
      forall xt, yt, st | SameLengths(xs, ys, ss, xt, yt, st) ensures Whole(cap, xt, yt, st) {
        BatchIsWhole(cap, xt, yt, st);
        WholeAt(cap, xt, yt, st, Min(|xt|, |yt|) - Min(cap, Min(|xt|, |yt|)));
      }
    } else {
      var xt, yt, st := seq(|xs|, i => i as real), Ramp(|ys|), Counted(ss);
      assert SameLengths(xs, ys, ss, xt, yt, st);
      Torn(cap, xs, ys, ss);
    }
  }

  lemma WholeAt(cap: nat, xs: seq<real>, ys: seq<Val>, ss: Sigma, start: nat)
    requires WholeFrom(cap, xs, ys, ss, start)
    ensures Whole(cap, xs, ys, ss)
  {
  }

  /** The first point of an oversized call that counts positions shows where each lane was
      cut. */
  lemma Torn(cap: nat, xs: seq<real>, ys: seq<Val>, ss: Sigma)
    requires 0 < cap < Min(|xs|, |ys|) && !Parallel(xs, ys, ss)
    ensures !Whole(cap, seq(|xs|, i => i as real), Ramp(|ys|), Counted(ss))
  {
    var xt, yt, st := seq(|xs|, i => i as real), Ramp(|ys|), Counted(ss);
    hide Batch, WholeFrom;
    forall start: nat ensures !WholeFrom(cap, xt, yt, st, start) {
      BatchXY(cap, xt, yt, st, 0);
      WholeFirst(cap, xt, yt, st, start);
      if |xs| == |ys| == Min(|xs|, |ys|) {
        TornSigma(cap, xt, yt, ss, start);
      }
    }
  }

  /** A sigma lane longer than the batch shows another position than x does. */
  lemma TornSigma(cap: nat, xs: seq<real>, ys: seq<Val>, ss: Sigma, start: nat)
    requires 0 < cap < |xs| == |ys| && !Parallel(xs, ys, ss) && Batch(cap, xs, ys, Counted(ss)) != []
    ensures start == |xs| - cap ==> !IsPointAt(Batch(cap, xs, ys, Counted(ss))[0], xs, ys, Counted(ss), start)
  {
    hide Batch, SigmaAt, SigmaStart;
    match ss {
      case Absent =>
      case Symmetric(s) =>
        BatchSymmetric(cap, xs, ys, Ramp(|s|), 0);
        CountedLanes(cap, |xs|, s);
      case Pair(lo, hi) =>
        BatchPair(cap, xs, ys, Ramp(|lo|), Ramp(|hi|), 0);
        if |lo| > |xs| {
          CountedLanes(cap, |xs|, lo);
        } else {
          CountedLanes(cap, |xs|, hi);
        }
    }
  }

  lemma WholeFirst(cap: nat, xs: seq<real>, ys: seq<Val>, ss: Sigma, start: nat)
    requires Batch(cap, xs, ys, ss) != []
    ensures WholeFrom(cap, xs, ys, ss, start) ==>
              start < |xs| && start < |ys| && IsPointAt(Batch(cap, xs, ys, ss)[0], xs, ys, ss, start)
  {
    hide Batch, IsPointAt;
    assert start + 0 == start;
  }

  lemma CountedLanes(cap: nat, k: nat, lane: seq<Val>)
    requires 0 < cap < k < |lane|
    ensures SigmaAt(Ramp(|lane|), SigmaStart(Ramp(|lane|), k, cap)) != SigmaAt(Ramp(|lane|), k - cap)
  {
  }

  /** The batch just appended is at the end, untouched by the coarsening before it. */
  lemma NewestVerbatim(cap: nat, s: seq<Point>, xs: seq<real>, ys: seq<Val>, ss: Sigma)
    requires Fits(cap, |s|, xs, ys) && |s| <= cap
    ensures var b, r := Batch(cap, xs, ys, ss), Appended(cap, s, xs, ys, ss);
            && |r| >= |b| && r[|r| - |b|..] == b
            && (b == [] ==> r == s)
            && (b != [] && |s| + |b| > cap && |b| < cap ==> 2 * |r| > cap + |b|)
  {
    hide Batch;
    var b := Batch(cap, xs, ys, ss);
    if b != [] && |s| + |b| > cap && |b| < cap {
      ShrunkStaysHalfFull(cap, s, |b|);
    }
  }

  lemma {:induction false} IterateFirst(s: seq<Point>, r: nat)
    ensures Iterate(Decimated(s), r) == Iterate(s, r + 1)
  {
    hide Decimated;
    if r > 0 {
      IterateFirst(s, r - 1);
    } else {
      assert Iterate(s, 1) == Decimated(Iterate(s, 0));
    }
  }

  /** r decimations of s are the first that leave room for k points. */
  ghost predicate FewestRounds(cap: nat, s: seq<Point>, k: nat, r: nat) {
    |Iterate(s, r)| + k <= cap && forall q: nat :: q < r ==> |Iterate(s, q)| + k > cap
  }

  lemma {:induction false} ShrunkIs(cap: nat, s: seq<Point>, k: nat) returns (r: nat)
    requires k < cap || (k == cap && s == [])
    ensures Shrunk(cap, s, k) == Iterate(s, r) && FewestRounds(cap, s, k, r)
    decreases |s|
  {
    hide Decimated;
    if |s| + k > cap {
      var q := ShrunkIs(cap, Decimated(s), k);
      r := q + 1;
      IterateFirst(s, q);
      forall j: nat | j < r ensures |Iterate(s, j)| + k > cap {
        if j > 0 {
          IterateFirst(s, j - 1);
        }
      }
    } else {
      r := 0;
    }
  }

  /** The buffer after a call: an oversized batch replaces it, any other follows the fewest
      decimations of it that make room. An empty one changes nothing. */
  lemma AppendedIs(cap: nat, s: seq<Point>, xs: seq<real>, ys: seq<Val>, ss: Sigma) returns (r: nat)
    requires Fits(cap, |s|, xs, ys) && |s| <= cap
    ensures var k, b := Min(|xs|, |ys|), Batch(cap, xs, ys, ss);
            && (k == 0 ==> Appended(cap, s, xs, ys, ss) == s)
            && (k > cap ==> Appended(cap, s, xs, ys, ss) == b)
            && (0 < k <= cap ==> Appended(cap, s, xs, ys, ss) == Iterate(s, r) + b && FewestRounds(cap, s, k, r))
  {
    hide Batch, Shrunk, Iterate;
    var k := Min(|xs|, |ys|);
    r := 0;
    if 0 < k <= cap {
      r := ShrunkIs(cap, s, k);
    }
  }

  // ----- runs -----

  datatype Op = Append(xs: seq<real>, ys: seq<Val>, ss: Sigma) | Trim(xMin: real) | Clear

  /** A run keeps the buffer, everything accepted since the last reset (a clear or an
      oversized batch), and whether a trim happened since then. */
  datatype Trace = Trace(buf: seq<Point>, hist: seq<Point>, trimmed: bool)

  predicate Legal(cap: nat, t: Trace, op: Op) {
    cap >= 4 && |t.buf| <= cap && (op.Append? ==> Fits(cap, |t.buf|, op.xs, op.ys))
  }

  function Step(cap: nat, t: Trace, op: Op): Trace
    requires Legal(cap, t, op)
  {
    match op
    case Append(xs, ys, ss) =>
      var b := Batch(cap, xs, ys, ss);
      var buf := Appended(cap, t.buf, xs, ys, ss);
      if Min(|xs|, |ys|) > cap then Trace(buf, b, false)
      else Trace(buf, t.hist + b, t.trimmed)
    case Trim(xMin) => Trace(Trimmed(t.buf, xMin), t.hist, true)
    case Clear => Trace([], [], false)
  }

  predicate LegalRun(cap: nat, t: Trace, ops: seq<Op>)
    decreases |ops|
  {
    ops == [] || (Legal(cap, t, ops[0]) && LegalRun(cap, Step(cap, t, ops[0]), ops[1..]))
  }

  function Run(cap: nat, t: Trace, ops: seq<Op>): Trace
    requires LegalRun(cap, t, ops)
    decreases |ops|
  {
    if ops == [] then t else Run(cap, Step(cap, t, ops[0]), ops[1..])
  }

  predicate Monotone(idx: seq<nat>) { forall i, j :: 0 <= i < j < |idx| ==> idx[i] <= idx[j] }

  /** The buffer is the history read through idx, whole points at a time. */
  predicate Reads(buf: seq<Point>, hist: seq<Point>, idx: seq<nat>) {
    && |idx| == |buf| && Monotone(idx)
    && forall i :: 0 <= i < |idx| ==> idx[i] < |hist| && buf[i] == hist[idx[i]]
  }

  ghost predicate Sampled(buf: seq<Point>, hist: seq<Point>) { exists idx :: Reads(buf, hist, idx) }

  /** ... and the first point of the history is the first point of the buffer. */
  ghost predicate Anchored(buf: seq<Point>, hist: seq<Point>) {
    exists idx :: Reads(buf, hist, idx) && (hist != [] ==> buf != [] && idx[0] == 0)
  }

  ghost predicate Inv(cap: nat, t: Trace) {
    && |t.buf| <= cap
    && Sampled(t.buf, t.hist)
    && (!t.trimmed ==> Anchored(t.buf, t.hist))
  }

  lemma DecimatedReads(s: seq<Point>, hist: seq<Point>, idx: seq<nat>) returns (idx': seq<nat>)
    requires Reads(s, hist, idx)
    ensures Reads(Decimated(s), hist, idx')
    ensures s != [] ==> idx' != [] && idx'[0] == idx[0]
  {
    hide Survivor;
    var ys := Ys(s);
    idx' := seq(KeptCount(|s|), i requires 0 <= i < KeptCount(|s|) => idx[Survivor(ys, i)]);
    forall i, j | 0 <= i < j < |idx'| ensures idx'[i] <= idx'[j] {
      SurvivorOrder(ys, i, j);
    }
    if s != [] {
      SurvivorOrder(ys, 0, 0);
    }
  }

  lemma {:induction false} ShrunkReads(cap: nat, s: seq<Point>, k: nat, hist: seq<Point>, idx: seq<nat>)
    returns (idx': seq<nat>)
    requires k < cap || (k == cap && s == [])
    requires Reads(s, hist, idx)
    ensures Reads(Shrunk(cap, s, k), hist, idx')
    ensures s != [] ==> idx' != [] && idx'[0] == idx[0]
    decreases |s|
  {
    if |s| + k > cap {
      var mid := DecimatedReads(s, hist, idx);
      idx' := ShrunkReads(cap, Decimated(s), k, hist, mid);
    } else {
      idx' := idx;
    }
  }

  lemma ExtendReads(s: seq<Point>, hist: seq<Point>, idx: seq<nat>, b: seq<Point>) returns (idx': seq<nat>)
    requires Reads(s, hist, idx)
    ensures Reads(s + b, hist + b, idx')
    ensures |idx'| >= |idx| && idx'[..|idx|] == idx
    ensures |s| == 0 && |b| > 0 ==> idx'[0] == |hist|
  {
    idx' := idx + seq(|b|, i requires 0 <= i < |b| => |hist| + i);
  }

  lemma TrimReads(s: seq<Point>, hist: seq<Point>, idx: seq<nat>, xMin: real)
    requires Reads(s, hist, idx)
    ensures Sampled(Trimmed(s, xMin), hist)
  {
    hide Trimmed;
    assert Reads(Trimmed(s, xMin), hist, idx[|s| - |Trimmed(s, xMin)|..]);
  }

  lemma AppendReads(cap: nat, s: seq<Point>, hist: seq<Point>, idx: seq<nat>, b: seq<Point>)
    requires |b| < cap || (|b| == cap && s == [])
    requires Reads(s, hist, idx)
    ensures Sampled(Shrunk(cap, s, |b|) + b, hist + b)
    ensures b != [] && (hist != [] ==> s != [] && idx[0] == 0) ==> Anchored(Shrunk(cap, s, |b|) + b, hist + b)
  {
    hide Shrunk;
    var mid := ShrunkReads(cap, s, |b|, hist, idx);
    var idx' := ExtendReads(Shrunk(cap, s, |b|), hist, mid, b);
    if b != [] && hist != [] && s != [] && idx[0] == 0 {
      assert idx'[0] == idx'[..|mid|][0] == 0;
    }
  }

  lemma StepInv(cap: nat, t: Trace, op: Op)
    requires Inv(cap, t) && Legal(cap, t, op)
    ensures Inv(cap, Step(cap, t, op))
  {
    hide Shrunk, Trimmed, Batch;
    match op {
      case Clear =>
        assert Reads([], [], []);
      case Trim(xMin) =>
        var idx :| Reads(t.buf, t.hist, idx);
        TrimReads(t.buf, t.hist, idx, xMin);
      case Append(xs, ys, ss) =>
        var b := Batch(cap, xs, ys, ss);
        if Min(|xs|, |ys|) > cap {
          assert Reads(b, b, seq(|b|, i => i));
        } else {
          var idx :| Reads(t.buf, t.hist, idx) && (!t.trimmed && t.hist != [] ==> t.buf != [] && idx[0] == 0);
          if |b| == 0 {
            assert t.hist + b == t.hist;
          } else {
            AppendReads(cap, t.buf, t.hist, idx, b);
          }
        }
    }
  }

  /** The main result: in every state any run reaches, the buffer is bounded and is the
      accepted history read through one non-decreasing index map shared by all lanes;
      unless a trim intervened the first accepted point is still in front. */
  lemma {:induction false} RunInv(cap: nat, t: Trace, ops: seq<Op>)
    requires Inv(cap, t) && LegalRun(cap, t, ops)
    ensures Inv(cap, Run(cap, t, ops))
    decreases |ops|
  {
    if ops != [] {
      StepInv(cap, t, ops[0]);
      RunInv(cap, Step(cap, t, ops[0]), ops[1..]);
    }
  }

  /** What the chart relies on: bounded, real samples only, ordered if the input was, and
      the first accepted point in front unless a trim intervened. */
  predicate Drawable(cap: nat, t: Trace) {
    && |t.buf| <= cap
    && (forall i :: 0 <= i < |t.buf| ==> t.buf[i] in t.hist)
    && (Ordered(t.hist) ==> Ordered(t.buf))
    && (!t.trimmed && t.hist != [] ==> t.buf != [] && t.buf[0] == t.hist[0])
  }

  lemma InvDrawable(cap: nat, t: Trace)
    requires Inv(cap, t)
    ensures Drawable(cap, t)
  {
    var idx :| Reads(t.buf, t.hist, idx) && (!t.trimmed && t.hist != [] ==> t.buf != [] && idx[0] == 0);
    if Ordered(t.hist) {
      forall i, j | 0 <= i < j < |t.buf| ensures t.buf[i].x <= t.buf[j].x {
        assert idx[i] <= idx[j];
      }
    }
  }

  predicate IsFresh(t: Trace) { t.buf == [] && t.hist == [] && !t.trimmed }

  /** What the chart sees after any run from an empty buffer. */
  lemma RunFacts(cap: nat, start: Trace, ops: seq<Op>)
    requires IsFresh(start) && LegalRun(cap, start, ops)
    ensures Drawable(cap, Run(cap, start, ops))
  {
    hide LegalRun, Run, Drawable;
    assert Reads([], [], []);
    RunInv(cap, start, ops);
    InvDrawable(cap, Run(cap, start, ops));
  }
}
