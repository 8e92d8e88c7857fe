/** Cutting a recording into contiguous intervals at real gaps
    (`widen` and `split_intervals`, ferrodac/store/intervals.py:32-63). */
module GapSplit {
  import opened Values
  import opened Sorting
  import opened Intervals

  function Widen(s: real, e: real): Interval {
    if e - s < GAP_EPS then (s - 0.5 * GAP_EPS, e + 0.5 * GAP_EPS) else (s, e)
  }

  const REAL_LE: (real, real) -> bool := (a: real, b: real) => a <= b

  function Diffs(t: seq<real>): (d: seq<real>)
    requires t != []
    ensures |d| == |t| - 1
  {
    seq(|t| - 1, i requires 0 <= i < |t| - 1 => t[i + 1] - t[i])
  }

  function Positives(d: seq<real>): (p: seq<real>)
    ensures forall i :: 0 <= i < |p| ==> p[i] > 0.0
  {
    if d == [] then [] else (if d[0] > 0.0 then [d[0]] else []) + Positives(d[1..])
  }

  /** `np.median`: the middle of the sorted values, or the mean of the two middle ones. */
  function Median(s: seq<real>): real
    requires s != []
  {
    var r := Sort(REAL_LE, s);
    if |r| % 2 == 1 then r[|r| / 2] else (r[|r| / 2 - 1] + r[|r| / 2]) / 2.0
  }

  /** The dt beyond which two neighbours belong to different recordings. */
  function Threshold(t: seq<real>, gapK: real): (r: real)
    requires t != []
    ensures r >= GAP_MIN_S
  {
    var pos := Positives(Diffs(t));
    var med := if pos != [] then Median(pos) else 0.0;
    if med > 0.0 then MaxR(GAP_MIN_S, gapK * med) else GAP_MIN_S
  }

  /** The indices i < m with a gap between t[i] and t[i + 1]. */
  function Cuts(t: seq<real>, thresh: real, m: nat): (c: seq<nat>)
    requires m < |t|
    ensures |c| <= m && forall k :: 0 <= k < |c| ==> c[k] < m
  {
    if m == 0 then [] else Cuts(t, thresh, m - 1) + (if t[m] - t[m - 1] > thresh then [m - 1] else [])
  }

  function StartIx(c: seq<nat>, j: nat): nat
    requires j <= |c|
  {
    if j == 0 then 0 else c[j - 1] + 1
  }

  function EndIx(c: seq<nat>, n: nat, j: nat): nat
    requires j <= |c| && n > 0
  {
    if j < |c| then c[j] else n - 1
  }

  function Split(t: seq<real>, gapK: real): seq<Interval> {
    if |t| == 0 then []
    else if |t| < 3 then [Widen(t[0], t[|t| - 1])]
    else
      var c := Cuts(t, Threshold(t, gapK), |t| - 1);
      seq(|c| + 1, j requires 0 <= j <= |c| => Widen(t[StartIx(c, j)], t[EndIx(c, |t|, j)]))
  }

  predicate Chronological(t: seq<real>) { forall i, j :: 0 <= i < j < |t| ==> t[i] <= t[j] }

  /** The number of the interval that owns sample i. */
  function Owner(t: seq<real>, gapK: real, i: nat): nat
    requires i < |t|
  {
    if |t| < 3 then 0 else |Cuts(t, Threshold(t, gapK), i)|
  }

  lemma {:induction false} CutsPrefix(t: seq<real>, thresh: real, i: nat, m: nat)
    requires i <= m < |t|
    ensures |Cuts(t, thresh, i)| <= |Cuts(t, thresh, m)|
    ensures Cuts(t, thresh, m)[..|Cuts(t, thresh, i)|] == Cuts(t, thresh, i)
    ensures forall k :: |Cuts(t, thresh, i)| <= k < |Cuts(t, thresh, m)| ==> Cuts(t, thresh, m)[k] >= i
  {
    if i < m {
      CutsPrefix(t, thresh, i, m - 1);
    }
  }

  predicate Increasing(c: seq<nat>, bound: nat) {
    && (forall j, k :: 0 <= j < k < |c| ==> c[j] < c[k])
    && (forall k :: 0 <= k < |c| ==> c[k] < bound)
  }

  /** The cuts are in strictly increasing order and sit exactly at the large steps. */
  lemma {:induction false} CutsFacts(t: seq<real>, thresh: real, m: nat)
    requires m < |t|
    ensures Increasing(Cuts(t, thresh, m), m)
    ensures forall k: nat :: k in Cuts(t, thresh, m) <==> k < m && t[k + 1] - t[k] > thresh
  {
    if m > 0 {
      CutsFacts(t, thresh, m - 1);
      var p, c := Cuts(t, thresh, m - 1), Cuts(t, thresh, m);
      assert c == p + (if t[m] - t[m - 1] > thresh then [m - 1] else []);
      forall j, k | 0 <= j < k < |c| ensures c[j] < c[k] {
        assert c[j] == p[j];
      }
    }
  }

  lemma SegmentOrder(c: seq<nat>, n: nat, j: nat, k: nat)
    requires n > 0 && Increasing(c, n - 1) && j <= k <= |c|
    ensures StartIx(c, j) <= EndIx(c, n, j)
    ensures j < k ==> EndIx(c, n, j) + 1 <= StartIx(c, k)
  {
  }

  /** For chronological samples the intervals are strictly separated, at least GAP_EPS
      wide, and already in the form `merge` produces. */
  lemma SplitSeparated(t: seq<real>, gapK: real)
    requires Chronological(t)
    ensures Separated(Split(t, gapK)) && WellFormed(Split(t, gapK))
    ensures forall j :: 0 <= j < |Split(t, gapK)| ==> Split(t, gapK)[j].1 - Split(t, gapK)[j].0 >= GAP_EPS
    ensures Merged(Split(t, gapK)) == Split(t, gapK)
  {
    hide Cuts, Threshold, Merged;
    var s := Split(t, gapK);
    if |t| >= 3 {
      var thresh := Threshold(t, gapK);
      var c := Cuts(t, thresh, |t| - 1);
      CutsFacts(t, thresh, |t| - 1);
      forall j, k | 0 <= j < k < |s| ensures s[j].1 < s[k].0 {
        SegmentOrder(c, |t|, j, k);
        SegmentOrder(c, |t|, k, k);
        assert c[j] in c;
        assert t[StartIx(c, k)] >= t[c[j] + 1];
      }
      forall j | 0 <= j < |s| ensures s[j].1 - s[j].0 >= GAP_EPS {
        SegmentOrder(c, |t|, j, j);
      }
    }
    MergedDenotes(s);
    SeparatedUnique(Merged(s), s);
  }

  lemma OwnerHolds(t: seq<real>, thresh: real, i: nat)
    requires i < |t|
    ensures var c, o := Cuts(t, thresh, |t| - 1), |Cuts(t, thresh, i)|;
            o <= |c| && StartIx(c, o) <= i <= EndIx(c, |t|, o)
  {
    var c, o := Cuts(t, thresh, |t| - 1), |Cuts(t, thresh, i)|;
    CutsPrefix(t, thresh, i, |t| - 1);
    assert o > 0 ==> c[o - 1] == c[..o][o - 1];
  }

  /** Every sample lies in the interval it is owned by, and in no other one. */
  lemma SplitOwns(t: seq<real>, gapK: real, i: nat, j: nat)
    requires Chronological(t) && i < |t| && j < |Split(t, gapK)|
    ensures Owner(t, gapK, i) < |Split(t, gapK)|
    ensures Split(t, gapK)[j].0 <= t[i] <= Split(t, gapK)[j].1 <==> j == Owner(t, gapK, i)
  {
    if |t| >= 3 {
      hide *;
      LongSplitOwns(t, gapK, i, j);
    }
  }

  lemma LongSplitOwns(t: seq<real>, gapK: real, i: nat, j: nat)
    requires Chronological(t) && |t| >= 3 && i < |t| && j < |Split(t, gapK)|
    ensures Owner(t, gapK, i) < |Split(t, gapK)|
    ensures Split(t, gapK)[j].0 <= t[i] <= Split(t, gapK)[j].1 <==> j == Owner(t, gapK, i)
  {
    hide Cuts, Threshold, Merged;
    var s, o := Split(t, gapK), Owner(t, gapK, i);
    OwnerHolds(t, Threshold(t, gapK), i);
    assert s[o].0 <= t[i] <= s[o].1;
    SplitSeparated(t, gapK);
    hide Split, Owner;
  }

  /** Neighbours share an interval exactly when the step between them is within the
      threshold; below three samples they always do. */
  lemma SharesWithin(t: seq<real>, gapK: real, i: nat)
    requires Chronological(t) && i + 1 < |t|
    ensures (exists j :: 0 <= j < |Split(t, gapK)| && Split(t, gapK)[j].0 <= t[i] && t[i + 1] <= Split(t, gapK)[j].1)
            <==> |t| < 3 || t[i + 1] - t[i] <= Threshold(t, gapK)
  {
    hide Split, Owner, Threshold, Chronological;
    var s, o, n := Split(t, gapK), Owner(t, gapK, i), Owner(t, gapK, i + 1);
    NextOwner(t, gapK, i);
    SplitOwns(t, gapK, i, 0);
    SplitOwns(t, gapK, i + 1, 0);
    SplitOwns(t, gapK, i, o);
    SplitOwns(t, gapK, i + 1, n);
    forall j | 0 <= j < |s| && s[j].0 <= t[i] && t[i + 1] <= s[j].1
      ensures j == o && j == n
    {
      SharedBoth(t, s[j], i);
      SplitOwns(t, gapK, i, j);
      SplitOwns(t, gapK, i + 1, j);
    }
  }

  lemma SharedBoth(t: seq<real>, p: Interval, i: nat)
    requires Chronological(t) && i + 1 < |t| && p.0 <= t[i] && t[i + 1] <= p.1
    ensures p.0 <= t[i] <= p.1 && p.0 <= t[i + 1] <= p.1
  {
  }

  lemma NextOwner(t: seq<real>, gapK: real, i: nat)
    requires i + 1 < |t|
    ensures Split(t, gapK) != []
    ensures Owner(t, gapK, i + 1) ==
              Owner(t, gapK, i) + if |t| >= 3 && t[i + 1] - t[i] > Threshold(t, gapK) then 1 else 0
  {
    hide Threshold;
  }

  // ----- what the threshold compares with -----

  /** How many values are at most (at least) m. */
  function AtMost(s: seq<real>, m: real): (c: nat)
    ensures c <= |s|
  {
    if s == [] then 0 else (if s[0] <= m then 1 else 0) + AtMost(s[1..], m)
  }

  function AtLeast(s: seq<real>, m: real): (c: nat)
    ensures c <= |s|
  {
    if s == [] then 0 else (if s[0] >= m then 1 else 0) + AtLeast(s[1..], m)
  }

  lemma {:induction false} InsertCounts(x: real, s: seq<real>, m: real)
    ensures var r := Insert(REAL_LE, x, s);
            && AtMost(r, m) == (if x <= m then 1 else 0) + AtMost(s, m)
            && AtLeast(r, m) == (if x >= m then 1 else 0) + AtLeast(s, m)
  {
    var r := Insert(REAL_LE, x, s);
    if s == [] || x <= s[0] {
      assert r[0] == x && r[1..] == s;
    } else {
      InsertCounts(x, s[1..], m);
      assert r[0] == s[0] && r[1..] == Insert(REAL_LE, x, s[1..]);
    }
  }

  lemma {:induction false} SortCounts(s: seq<real>, m: real)
    ensures AtMost(Sort(REAL_LE, s), m) == AtMost(s, m) && AtLeast(Sort(REAL_LE, s), m) == AtLeast(s, m)
  {
    if s != [] {
      SortCounts(s[1..], m);
      InsertCounts(s[0], Sort(REAL_LE, s[1..]), m);
    }
  }

  lemma {:induction false} PrefixCounts(r: seq<real>, m: real, k: nat)
    requires k <= |r| && forall i :: 0 <= i < k ==> r[i] <= m
    ensures AtMost(r, m) >= k
  {
    if k > 0 {
      PrefixCounts(r[1..], m, k - 1);
    }
  }

  lemma {:induction false} SuffixCounts(r: seq<real>, m: real, k: nat)
    requires k <= |r| && forall i :: k <= i < |r| ==> r[i] >= m
    ensures AtLeast(r, m) >= |r| - k
  {
    if k > 0 {
      SuffixCounts(r[1..], m, k - 1);
    } else if r != [] {
      SuffixCounts(r[1..], m, 0);
    }
  }

  lemma SortedOrder(s: seq<real>)
    ensures SortedBy(REAL_LE, Sort(REAL_LE, s))
  {
    assert TotalPreorder(REAL_LE);
    SortSorts(REAL_LE, s);
  }

  /** At least half of the values are on either side of the median. */
  lemma MedianHalves(s: seq<real>)
    requires s != []
    ensures 2 * AtMost(s, Median(s)) >= |s| && 2 * AtLeast(s, Median(s)) >= |s|
  {
    var r, half := Sort(REAL_LE, s), |s| / 2;
    SortedOrder(s);
    SortCounts(s, Median(s));
    if |s| % 2 == 1 {
      MiddleCounts(r, half, half, r[half]);
    } else {
      assert REAL_LE(r[half - 1], r[half]);
      MiddleCounts(r, half - 1, half, Median(s));
    }
  }

  lemma MiddleCounts(r: seq<real>, lo: nat, hi: nat, m: real)
    requires SortedBy(REAL_LE, r) && lo <= hi < |r| && r[lo] <= m <= r[hi]
    ensures AtMost(r, m) >= lo + 1 && AtLeast(r, m) >= |r| - hi
  {
    forall i | 0 <= i < lo + 1 ensures r[i] <= m {
      assert i < lo ==> REAL_LE(r[i], r[lo]);
    }
    forall i | hi <= i < |r| ensures r[i] >= m {
      assert hi < i ==> REAL_LE(r[hi], r[i]);
    }
    PrefixCounts(r, m, lo + 1);
    SuffixCounts(r, m, hi);
  }

  lemma MedianBetween(s: seq<real>, lo: real, hi: real)
    requires s != [] && forall i :: 0 <= i < |s| ==> lo <= s[i] <= hi
    ensures lo <= Median(s) <= hi
  {
    SortMembers(REAL_LE, s);
    var r := Sort(REAL_LE, s);
    forall i | 0 <= i < |r| ensures lo <= r[i] <= hi {
      assert r[i] in s;
    }
  }

  lemma {:induction false} PositivesExact(d: seq<real>)
    ensures forall x :: x in Positives(d) <==> x in d && x > 0.0
  {
    if d != [] {
      PositivesExact(d[1..]);
      assert forall x :: x in d <==> x == d[0] || x in d[1..];
    }
  }

  /** A recording whose steps vary by at most the factor gapK is one interval, however
      slow its cadence is. */
  lemma SteadyNeverSplits(t: seq<real>, gapK: real, lo: real, hi: real)
    requires Chronological(t) && t != [] && lo > 0.0 && gapK > 0.0 && hi <= gapK * lo
    requires forall d :: d in Diffs(t) && d > 0.0 ==> lo <= d <= hi
    ensures |Split(t, gapK)| == 1
  {
    if |t| >= 3 {
      hide Threshold, Split, Diffs, Cuts;
      var thresh := Threshold(t, gapK);
      forall k | 0 <= k < |t| - 1 ensures t[k + 1] - t[k] <= thresh {
        DiffAt(t, k);
        StepFits(t, gapK, lo, hi, t[k + 1] - t[k]);
      }
      NoCuts(t, thresh, |t| - 1);
      OneInterval(t, gapK);
    }
  }

  lemma DiffAt(t: seq<real>, k: nat)
    requires k + 1 < |t|
    ensures t[k + 1] - t[k] in Diffs(t)
  {
    assert Diffs(t)[k] in Diffs(t);
  }

  lemma OneInterval(t: seq<real>, gapK: real)
    requires |t| >= 3 && Cuts(t, Threshold(t, gapK), |t| - 1) == []
    ensures |Split(t, gapK)| == 1
  {
  }

  lemma StepFits(t: seq<real>, gapK: real, lo: real, hi: real, d: real)
    requires t != [] && d in Diffs(t) && lo > 0.0 && gapK > 0.0 && hi <= gapK * lo
    requires forall x :: x in Diffs(t) && x > 0.0 ==> lo <= x <= hi
    ensures d <= Threshold(t, gapK)
  {
    hide Median;
    var pos := Positives(Diffs(t));
    PositivesExact(Diffs(t));
    if d > 0.0 {
      assert d in pos;
      forall i | 0 <= i < |pos| ensures lo <= pos[i] <= hi {
        assert pos[i] in pos;
      }
      MedianBetween(pos, lo, hi);
      var med := Median(pos);
      Scales(gapK, lo, med, hi);
      assert Threshold(t, gapK) >= gapK * med;
    }
  }

  lemma Scales(k: real, a: real, b: real, c: real)
    requires k > 0.0 && a <= b && c <= k * a
    ensures c <= k * b
  {
    NonNegative(k, b - a);
    assert k * (b - a) == k * b - k * a;
  }

  lemma NonNegative(k: real, d: real)
    requires k > 0.0 && d >= 0.0
    ensures k * d >= 0.0
  {
  }

  lemma {:induction false} NoCuts(t: seq<real>, thresh: real, m: nat)
    requires m < |t| && forall k :: 0 <= k < m ==> t[k + 1] - t[k] <= thresh
    ensures Cuts(t, thresh, m) == []
  {
    if m > 0 {
      NoCuts(t, thresh, m - 1);
      assert t[m - 1 + 1] - t[m - 1] <= thresh;
    }
  }

  // ----- the threshold, from the steps -----

  /** How many of the first m steps have length x. */
  function StepCount(t: seq<real>, x: real, m: nat): nat
    requires m < |t|
  {
    if m == 0 then 0 else StepCount(t, x, m - 1) + (if t[m] - t[m - 1] == x then 1 else 0)
  }

  /** r lists the positive steps of the recording, each as often as it occurs, in order. */
  ghost predicate ListsSteps(r: seq<real>, t: seq<real>)
    requires t != []
  {
    && (forall i, j :: 0 <= i < j < |r| ==> r[i] <= r[j])
    && forall x :: multiset(r)[x] == if x > 0.0 then StepCount(t, x, |t| - 1) else 0
  }

  /** m is the middle value of r, or half way between the two middle ones. */
  predicate IsMiddle(m: real, r: seq<real>)
    requires r != []
  {
    if |r| % 2 == 1 then m == r[|r| / 2] else m - r[|r| / 2 - 1] == r[|r| / 2] - m
  }

  lemma {:induction false} PositivesCount(d: seq<real>, x: real)
    ensures multiset(Positives(d))[x] == if x > 0.0 then multiset(d)[x] else 0
  {
    if d != [] {
      PositivesCount(d[1..], x);
      assert d == [d[0]] + d[1..];
    }
  }

  lemma {:induction false} DiffsCount(t: seq<real>, x: real, m: nat)
    requires m < |t|
    ensures multiset(Diffs(t)[..m])[x] == StepCount(t, x, m)
  {
    if m > 0 {
      DiffsCount(t, x, m - 1);
      assert Diffs(t)[..m] == Diffs(t)[..m - 1] + [Diffs(t)[m - 1]];
    }
  }

  lemma SortedSteps(t: seq<real>)
    requires t != []
    ensures ListsSteps(Sort(REAL_LE, Positives(Diffs(t))), t)
  {
    var d := Diffs(t);
    var r := Sort(REAL_LE, Positives(d));
    SortedOrder(Positives(d));
    SortPermutes(REAL_LE, Positives(d));
    assert d[..|t| - 1] == d;
    forall x ensures multiset(r)[x] == if x > 0.0 then StepCount(t, x, |t| - 1) else 0 {
      PositivesCount(d, x);
      DiffsCount(t, x, |t| - 1);
    }
    forall i, j | 0 <= i < j < |r| ensures r[i] <= r[j] {
      assert REAL_LE(r[i], r[j]);
    }
  }

  /** The threshold is 30 s or gapK times the median positive step, whichever is larger, and
      30 s if no step is positive. */
  lemma ThresholdIs(t: seq<real>, gapK: real) returns (r: seq<real>, m: real)
    requires t != []
    ensures ListsSteps(r, t) && (r != [] ==> IsMiddle(m, r))
    ensures Threshold(t, gapK) == if r != [] && gapK * m > 30.0 then gapK * m else 30.0
  {
    hide Diffs, Positives, ListsSteps;
    var pos := Positives(Diffs(t));
    SortedSteps(t);
    r := Sort(REAL_LE, pos);
    if pos != [] {
      m := Median(pos);
      assert pos[0] in pos;
      MedianPositive(pos);
    } else {
      m := 0.0;
    }
  }

  lemma MedianPositive(pos: seq<real>)
    requires pos != [] && forall i :: 0 <= i < |pos| ==> pos[i] > 0.0
    ensures Median(pos) > 0.0
  {
    SortMembers(REAL_LE, pos);
    var r := Sort(REAL_LE, pos);
    forall i | 0 <= i < |r| ensures r[i] > 0.0 {
      assert r[i] in r;
    }
  }

  /** Neighbours share an interval exactly when the step between them is at most 30 s or at
      most gapK times the median positive step; with fewer than three samples there is no
      cadence to compare with, and they always do. */
  lemma SplitCutsAtGaps(t: seq<real>, gapK: real, i: nat) returns (r: seq<real>, m: real)
    requires Chronological(t) && i + 1 < |t|
    ensures ListsSteps(r, t) && (r != [] ==> IsMiddle(m, r))
    ensures (exists j :: 0 <= j < |Split(t, gapK)| && Split(t, gapK)[j].0 <= t[i] && t[i + 1] <= Split(t, gapK)[j].1)
            <==> |t| < 3 || t[i + 1] - t[i] <= 30.0 || (r != [] && t[i + 1] - t[i] <= gapK * m)
  {
    hide Split, Chronological, Threshold, ListsSteps, IsMiddle;
    SharesWithin(t, gapK, i);
    r, m := ThresholdIs(t, gapK);
  }

  /** An interval runs from its first to its last sample, widened by half a millisecond on
      either side if they are less than a millisecond apart. */
  lemma SplitEnds(t: seq<real>, gapK: real, j: nat) returns (lo: nat, hi: nat)
    requires Chronological(t) && j < |Split(t, gapK)|
    ensures lo <= hi < |t|
    ensures forall i :: 0 <= i < |t| ==> (Split(t, gapK)[j].0 <= t[i] <= Split(t, gapK)[j].1 <==> lo <= i <= hi)
    ensures Split(t, gapK)[j] == if t[hi] - t[lo] >= 0.001 then (t[lo], t[hi]) else (t[lo] - 0.0005, t[hi] + 0.0005)
  {
    lo, hi := SegmentOf(t, gapK, j);
    hide Split, Owner, Chronological;
    forall i | 0 <= i < |t| ensures Split(t, gapK)[j].0 <= t[i] <= Split(t, gapK)[j].1 <==> lo <= i <= hi {
      SplitOwns(t, gapK, i, j);
    }
  }

  lemma SegmentOf(t: seq<real>, gapK: real, j: nat) returns (lo: nat, hi: nat)
    requires j < |Split(t, gapK)|
    ensures lo <= hi < |t| && Split(t, gapK)[j] == Widen(t[lo], t[hi])
    ensures forall i: nat :: i < |t| ==> (j == Owner(t, gapK, i) <==> lo <= i <= hi)
  {
    if |t| < 3 {
      lo, hi := 0, |t| - 1;
    } else {
      var c := Cuts(t, Threshold(t, gapK), |t| - 1);
      lo, hi := StartIx(c, j), EndIx(c, |t|, j);
      CutsFacts(t, Threshold(t, gapK), |t| - 1);
      SegmentOrder(c, |t|, j, j);
      hide Cuts, Threshold;
      forall i: nat | i < |t| ensures j == Owner(t, gapK, i) <==> lo <= i <= hi {
        OwnedSpan(t, gapK, i, j);
      }
    }
  }

  lemma OwnedSpan(t: seq<real>, gapK: real, i: nat, j: nat)
    requires |t| >= 3 && i < |t| && j < |Split(t, gapK)|
    ensures var c := Cuts(t, Threshold(t, gapK), |t| - 1);
            j == Owner(t, gapK, i) <==> StartIx(c, j) <= i <= EndIx(c, |t|, j)
  {
    var thresh, o := Threshold(t, gapK), Owner(t, gapK, i);
    var c := Cuts(t, thresh, |t| - 1);
    OwnerHolds(t, thresh, i);
    CutsFacts(t, thresh, |t| - 1);
    hide Cuts, Threshold;
    if j < o {
      SegmentOrder(c, |t|, j, o);
    } else if o < j {
      SegmentOrder(c, |t|, o, j);
    }
  }
}
