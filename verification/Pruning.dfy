/** The sparsity loop of `_solve_full` (ferrodac/analysis/deconvolve.py:175-199). The
    weighted fit on a choice of gases is a parameter. */
module Pruning {
  import opened Nnls

  predicate Increasing(s: seq<nat>, bound: nat) {
    && (forall i, j :: 0 <= i < j < |s| ==> s[i] < s[j])
    && (forall i :: 0 <= i < |s| ==> s[i] < bound)
  }

  lemma {:induction false} IncreasingShort(s: seq<nat>, bound: nat)
    requires Increasing(s, bound)
    ensures |s| <= bound
  {
    if s != [] {
      var n := |s| - 1;
      IncreasingShort(s[..n], s[n]);
    }
  }

  /** A fit answers every choice of gases with one non-negative amount per gas. */
  ghost predicate IsFit(fit: seq<nat> -> Vec) { forall k :: |fit(k)| == |k| && NonNeg(fit(k)) }

  /** Spread the fitted amounts over all gases. */
  function Scatter(n: nat, keep: seq<nat>, sol: Vec): (x: Vec)
    requires |keep| == |sol| && forall i :: 0 <= i < |keep| ==> keep[i] < n
    ensures |x| == n
  {
    if keep == [] then Zeros(n)
    else Scatter(n, keep[..|keep| - 1], sol[..|sol| - 1])[keep[|keep| - 1] := sol[|sol| - 1]]
  }

  lemma {:induction false} ScatterFacts(n: nat, keep: seq<nat>, sol: Vec)
    requires |keep| == |sol| && Increasing(keep, n) && NonNeg(sol)
    ensures forall i :: 0 <= i < |keep| ==> Scatter(n, keep, sol)[keep[i]] == sol[i]
    ensures forall k :: 0 <= k < n && k !in keep ==> Scatter(n, keep, sol)[k] == 0.0
    ensures NonNeg(Scatter(n, keep, sol))
  {
    if keep != [] {
      var m := |keep| - 1;
      assert Increasing(keep[..m], n);
      ScatterFacts(n, keep[..m], sol[..m]);
      assert keep == keep[..m] + [keep[m]];
    }
  }

  /** `x.max()` */
  function MaxOf(x: Vec): (m: real)
    requires x != []
    ensures m in x && forall i :: 0 <= i < |x| ==> x[i] <= m
  {
    if |x| == 1 then x[0] else
      var m := MaxOf(x[1..]);
      assert forall i :: 0 < i < |x| ==> x[i] == x[1..][i - 1];
      if x[0] >= m then x[0] else m
  }

  /** The kept gases that reach the bar. */
  function Strong(keep: seq<nat>, x: Vec, bar: real): (r: seq<nat>)
    requires forall i :: 0 <= i < |keep| ==> keep[i] < |x|
    ensures |r| <= |keep|
  {
    if keep == [] then [] else (if x[keep[0]] >= bar then [keep[0]] else []) + Strong(keep[1..], x, bar)
  }

  lemma {:induction false} StrongMembers(keep: seq<nat>, x: Vec, bar: real)
    requires forall i :: 0 <= i < |keep| ==> keep[i] < |x|
    ensures forall k :: k in Strong(keep, x, bar) <==> k in keep && x[k] >= bar
    ensures |Strong(keep, x, bar)| == |keep| ==> Strong(keep, x, bar) == keep
  {
    if keep != [] {
      StrongMembers(keep[1..], x, bar);
      assert keep == [keep[0]] + keep[1..];
    }
  }

  lemma {:induction false} StrongIncreasing(keep: seq<nat>, x: Vec, bar: real)
    requires Increasing(keep, |x|)
    ensures Increasing(Strong(keep, x, bar), |x|)
  {
    hide Increasing;
    if keep != [] {
      TailIncreasing(keep, |x|);
      var rest := Strong(keep[1..], x, bar);
      StrongIncreasing(keep[1..], x, bar);
      StrongMembers(keep[1..], x, bar);
      forall i | 0 <= i < |rest| ensures keep[0] < rest[i] {
        assert rest[i] in rest;
      }
      ConsIncreasing(keep[0], rest, |x|);
      assert [] + rest == rest;
    }
  }

  lemma TailIncreasing(s: seq<nat>, bound: nat)
    requires s != [] && Increasing(s, bound)
    ensures Increasing(s[1..], bound) && s[0] < bound && forall k :: k in s[1..] ==> s[0] < k
    ensures forall i :: 0 <= i < |s[1..]| ==> s[1..][i] < bound
  {
  }

  lemma ConsIncreasing(h: nat, rest: seq<nat>, bound: nat)
    requires h < bound && Increasing(rest, bound) && forall i :: 0 <= i < |rest| ==> h < rest[i]
    ensures Increasing([h] + rest, bound)
  {
  }

  /** Every amount is zero or at least the bar. */
  predicate Clears(x: Vec, bar: real) { forall k :: 0 <= k < |x| ==> x[k] == 0.0 || x[k] >= bar }

  /** Every amount is zero or at least the given share of the largest one. */
  predicate Sparse(x: Vec, sparsity: real) {
    x == [] || Clears(x, Times(sparsity, MaxOf(x)))
  }

  /** x is the fit of some choice among the candidate gases. */
  ghost predicate FitOver(x: Vec, cand: seq<nat>, fit: seq<nat> -> Vec) {
    exists keep :: IsChoice(keep, cand, |x|) && |fit(keep)| == |keep| && x == Scatter(|x|, keep, fit(keep))
  }

  predicate IsChoice(keep: seq<nat>, cand: seq<nat>, n: nat) {
    Increasing(keep, n) && forall k :: k in keep ==> k in cand
  }

  lemma ShareOf(s: real, m: real)
    requires m > 0.0
    ensures Times(s, m) <= m <==> s <= 1.0
    ensures s <= 0.0 ==> Times(s, m) <= 0.0
  {
  }

  /** The largest amount passes its own bar, so a bar of at most the maximum never empties
      the choice; a higher bar always does. */
  lemma StrongKeepsMax(keep: seq<nat>, x: Vec, sol: Vec, bar: real)
    requires Increasing(keep, |x|) && keep != [] && |sol| == |keep| && NonNeg(sol) && x == Scatter(|x|, keep, sol)
    requires MaxOf(x) > 0.0
    ensures Strong(keep, x, bar) != [] <==> bar <= MaxOf(x)
  {
    hide Scatter, Strong, MaxOf;
    var m, r := MaxOf(x), Strong(keep, x, bar);
    ScatterFacts(|x|, keep, sol);
    StrongMembers(keep, x, bar);
    var k :| 0 <= k < |x| && x[k] == m;
    assert k in keep;
    assert m >= bar ==> k in r;
    assert r != [] ==> r[0] in r;
  }

  /** A stable choice is sparse. */
  lemma StableIsSparse(keep: seq<nat>, x: Vec, sol: Vec, bar: real)
    requires Increasing(keep, |x|) && |sol| == |keep| && NonNeg(sol) && x == Scatter(|x|, keep, sol)
    requires |Strong(keep, x, bar)| == |keep|
    ensures Clears(x, bar)
  {
    hide Scatter, Strong;
    ScatterFacts(|x|, keep, sol);
    StrongMembers(keep, x, bar);
  }

  /** Up to `rounds` rounds of fitting and dropping the gases below the share of the
      largest amount, from the choice `keep`. */
  ghost function PruneRun(n: nat, keep: seq<nat>, fit: seq<nat> -> Vec, sparsity: real, rounds: nat): (x: Vec)
    requires IsFit(fit) && Increasing(keep, n) && n > 0 && rounds > 0
    ensures |x| == n
    decreases rounds
  {
    var x := FitOf(n, keep, fit);
    if sparsity <= 0.0 || MaxOf(x) <= 0.0 then x
    else
      var left := Strong(keep, x, Times(sparsity, MaxOf(x)));
      StrongIncreasing(keep, x, Times(sparsity, MaxOf(x)));
      if |left| == |keep| || rounds == 1 then x
      else PruneRun(n, if left != [] then left else keep, fit, sparsity, rounds - 1)
  }

  /** `_solve_full`: the final and the pre-pruning solution. */
  method SolveFull(cand: seq<nat>, ngas: nat, sparsity: real, fit: seq<nat> -> Vec) returns (xSol: Vec, xFirst: Vec)
    requires Increasing(cand, ngas) && IsFit(fit)
    ensures |xSol| == ngas && |xFirst| == ngas && NonNeg(xSol) && NonNeg(xFirst)
    ensures forall k :: 0 <= k < ngas && k !in cand ==> xSol[k] == 0.0
    ensures cand == [] ==> xSol == Zeros(ngas) && xFirst == Zeros(ngas)
    ensures cand != [] ==> xFirst == FitOf(ngas, cand, fit)
    ensures cand != [] ==> ngas > 0 && xSol == PruneRun(ngas, cand, fit, sparsity, ngas)
    ensures cand != [] ==> FitOver(xSol, cand, fit)
    ensures sparsity <= 0.0 || sparsity > 1.0 ==> xSol == xFirst
    ensures sparsity <= 1.0 ==> Sparse(xSol, sparsity)
    ensures sparsity > 1.0 && ngas > 0 ==> (Sparse(xSol, sparsity) <==> MaxOf(xSol) <= 0.0)
  {
    hide Scatter, Strong, MaxOf, Times, FitOver;
    var keep := cand;
    xSol, xFirst := Zeros(ngas), Zeros(ngas);
    if keep == [] {
      ZerosFacts(ngas, sparsity);
      return;
    }
    IncreasingShort(cand, ngas);
    ghost var target := PruneRun(ngas, cand, fit, sparsity, ngas);
    var it := 0;
    while it < ngas
      invariant 0 <= it <= ngas && keep != [] && IsChoice(keep, cand, ngas)
      invariant it == 0 ==> keep == cand
      invariant if it < ngas then PruneRun(ngas, keep, fit, sparsity, ngas - it) == target else xSol == target
      invariant sparsity <= 1.0 ==> |keep| + it <= ngas
      invariant sparsity > 1.0 ==> keep == cand
      invariant it > 0 ==> sparsity > 0.0
      invariant |xSol| == |xFirst| == ngas
      invariant it > 0 ==> xFirst == FitOf(ngas, cand, fit) && FitOver(xSol, cand, fit)
      invariant it > 0 && sparsity > 1.0 ==> xSol == xFirst
    {
      var sol := fit(keep);
      xSol := Scatter(ngas, keep, sol);
      FitFound(ngas, keep, cand, fit);
      if it == 0 {
        xFirst := xSol;
      }
      if sparsity <= 0.0 || MaxOf(xSol) <= 0.0 {
        LowBar(xSol, sparsity);
        break;
      }
      var bar := Times(sparsity, MaxOf(xSol));
      var next := Strong(keep, xSol, bar);
      StrongMembers(keep, xSol, bar);
      StrongIncreasing(keep, xSol, bar);
      StrongKeepsMax(keep, xSol, sol, bar);
      ShareOf(sparsity, MaxOf(xSol));
      if |next| == |keep| {
        StableIsSparse(keep, xSol, sol, bar);
        break;
      }
      if next != [] {
        keep := next;
      }
      it := it + 1;
    }
    FitFacts(xSol, cand, fit);
    FitFound(ngas, cand, cand, fit);
    FitFacts(xFirst, cand, fit);
    HighBar(xSol, sparsity);
  }

  /** The fit of a choice, spread over all gases. */
  ghost function FitOf(n: nat, keep: seq<nat>, fit: seq<nat> -> Vec): (x: Vec)
    requires IsFit(fit) && Increasing(keep, n)
    ensures |x| == n
  {
    Scatter(n, keep, fit(keep))
  }

  lemma FitFound(n: nat, keep: seq<nat>, cand: seq<nat>, fit: seq<nat> -> Vec)
    requires IsFit(fit) && IsChoice(keep, cand, n)
    ensures FitOver(FitOf(n, keep, fit), cand, fit)
    ensures |FitOf(n, keep, fit)| == n && NonNeg(FitOf(n, keep, fit))
  {
    hide Scatter;
    ScatterFacts(n, keep, fit(keep));
    assert IsChoice(keep, cand, |FitOf(n, keep, fit)|);
  }

  lemma ZerosFacts(n: nat, sparsity: real)
    ensures NonNeg(Zeros(n)) && Sparse(Zeros(n), sparsity) && (n > 0 ==> MaxOf(Zeros(n)) == 0.0)
  {
  }

  lemma LowBar(x: Vec, sparsity: real)
    requires NonNeg(x) && x != [] && (sparsity <= 0.0 || MaxOf(x) <= 0.0)
    ensures Sparse(x, sparsity)
  {
    hide MaxOf;
    var m := MaxOf(x);
    var k :| 0 <= k < |x| && x[k] == m;
    if m > 0.0 {
      ShareOf(sparsity, m);
    } else {
      TimesZero(sparsity);
    }
  }

  lemma FitFacts(x: Vec, cand: seq<nat>, fit: seq<nat> -> Vec)
    requires IsFit(fit) && FitOver(x, cand, fit)
    ensures NonNeg(x) && forall k :: 0 <= k < |x| && k !in cand ==> x[k] == 0.0
  {
    hide Scatter;
    var keep :| IsChoice(keep, cand, |x|) && |fit(keep)| == |keep| && x == Scatter(|x|, keep, fit(keep));
    ScatterFacts(|x|, keep, fit(keep));
  }

  /** With a share above one the largest amount itself misses the bar. */
  lemma HighBar(x: Vec, sparsity: real)
    requires NonNeg(x)
    ensures sparsity > 1.0 && x != [] ==> (Sparse(x, sparsity) <==> MaxOf(x) <= 0.0)
  {
    hide MaxOf;
    if sparsity > 1.0 && x != [] {
      var m := MaxOf(x);
      var k :| 0 <= k < |x| && x[k] == m;
      if m > 0.0 {
        ShareOf(sparsity, m);
        assert !(x[k] == 0.0 || x[k] >= Times(sparsity, m));
      } else {
        LowBar(x, sparsity);
      }
    }
  }

  // ----- which gases are dropped -----

  /** One round: exactly the gases whose amount reaches the share of the largest stay. */
  ghost predicate DropsWeak(n: nat, keep: seq<nat>, left: seq<nat>, fit: seq<nat> -> Vec, sparsity: real)
    requires IsFit(fit) && Increasing(keep, n) && n > 0
  {
    var x := FitOf(n, keep, fit);
    Increasing(left, n) && forall k :: k in left <==> k in keep && x[k] >= Times(sparsity, MaxOf(x))
  }

  /** last is what `rounds` rounds leave of keep, each dropping some gas but not all. */
  ghost predicate Leads(n: nat, keep: seq<nat>, last: seq<nat>, fit: seq<nat> -> Vec, sparsity: real, rounds: nat)
    requires IsFit(fit) && Increasing(keep, n) && n > 0
    decreases rounds
  {
    if rounds == 0 then last == keep
    else exists left :: DropsWeak(n, keep, left, fit, sparsity) && left != [] && left != keep && Leads(n, left, last, fit, sparsity, rounds - 1)
  }

  /** For a share of at most one, a gas is dropped exactly in a round in which its amount is
      below the share of the largest, and the pruning ends where a round would drop none. */
  lemma {:induction false} PruningIs(n: nat, keep: seq<nat>, fit: seq<nat> -> Vec, sparsity: real, rounds: nat)
    returns (last: seq<nat>, used: nat)
    requires IsFit(fit) && Increasing(keep, n) && keep != [] && n > 0 && rounds >= |keep| && 0.0 < sparsity <= 1.0
    ensures Increasing(last, n) && Leads(n, keep, last, fit, sparsity, used)
    ensures PruneRun(n, keep, fit, sparsity, rounds) == FitOf(n, last, fit)
    ensures DropsWeak(n, last, last, fit, sparsity)
    decreases rounds
  {
    hide *;
    PruneStep(n, keep, fit, sparsity, rounds);
    StrongOf(n, keep, fit, sparsity);
    if Settled(n, keep, fit, sparsity) {
      last, used := keep, 0;
      LeadsNowhere(n, keep, fit, sparsity);
    } else {
      var left := Survivors(n, keep, fit, sparsity);
      var q;
      last, q := PruningIs(n, left, fit, sparsity, rounds - 1);
      used := q + 1;
      LeadsStep(n, keep, left, last, fit, sparsity, q);
    }
  }

  /** What one round of the loop keeps, and when the loop stops there. */
  ghost function Survivors(n: nat, keep: seq<nat>, fit: seq<nat> -> Vec, sparsity: real): (left: seq<nat>)
    requires IsFit(fit) && Increasing(keep, n) && n > 0
    ensures Increasing(left, n)
  {
    var x := FitOf(n, keep, fit);
    StrongIncreasing(keep, x, Times(sparsity, MaxOf(x)));
    Strong(keep, x, Times(sparsity, MaxOf(x)))
  }

  ghost predicate Settled(n: nat, keep: seq<nat>, fit: seq<nat> -> Vec, sparsity: real)
    requires IsFit(fit) && Increasing(keep, n) && n > 0
  {
    MaxOf(FitOf(n, keep, fit)) <= 0.0 || |Survivors(n, keep, fit, sparsity)| == |keep|
  }

  lemma LeadsNowhere(n: nat, keep: seq<nat>, fit: seq<nat> -> Vec, sparsity: real)
    requires IsFit(fit) && Increasing(keep, n) && n > 0
    ensures Leads(n, keep, keep, fit, sparsity, 0)
  {
  }

  lemma LeadsStep(n: nat, keep: seq<nat>, left: seq<nat>, last: seq<nat>, fit: seq<nat> -> Vec, sparsity: real, q: nat)
    requires IsFit(fit) && Increasing(keep, n) && Increasing(left, n) && n > 0
    requires DropsWeak(n, keep, left, fit, sparsity) && left != [] && left != keep && Leads(n, left, last, fit, sparsity, q)
    ensures Leads(n, keep, last, fit, sparsity, q + 1)
  {
    hide FitOf, MaxOf, Times, Increasing, IsFit;
  }

  /** One round of the loop. */
  lemma PruneStep(n: nat, keep: seq<nat>, fit: seq<nat> -> Vec, sparsity: real, rounds: nat)
    requires IsFit(fit) && Increasing(keep, n) && keep != [] && n > 0 && rounds >= |keep| && 0.0 < sparsity <= 1.0
    ensures var left := Survivors(n, keep, fit, sparsity);
            if Settled(n, keep, fit, sparsity) then PruneRun(n, keep, fit, sparsity, rounds) == FitOf(n, keep, fit)
            else rounds - 1 >= |left| > 0 && left != keep
                 && PruneRun(n, keep, fit, sparsity, rounds) == PruneRun(n, left, fit, sparsity, rounds - 1)
  {
    var x := FitOf(n, keep, fit);
    var left := Survivors(n, keep, fit, sparsity);
    hide FitOf, MaxOf, Strong, Times, Increasing, IsFit;
    if !Settled(n, keep, fit, sparsity) {
      FitKeepsMax(n, keep, fit, Times(sparsity, MaxOf(x)));
      ShareOf(sparsity, MaxOf(x));
      OneFewer(keep, left);
    }
  }

  lemma OneFewer(keep: seq<nat>, left: seq<nat>)
    requires |left| <= |keep| && |left| != |keep| && left != []
    ensures |keep| >= 2 && |keep| - 1 >= |left|
  {
  }

  lemma FitKeepsMax(n: nat, keep: seq<nat>, fit: seq<nat> -> Vec, bar: real)
    requires IsFit(fit) && Increasing(keep, n) && keep != [] && n > 0 && MaxOf(FitOf(n, keep, fit)) > 0.0
    ensures Strong(keep, FitOf(n, keep, fit), bar) != [] <==> bar <= MaxOf(FitOf(n, keep, fit))
  {
    StrongKeepsMax(keep, FitOf(n, keep, fit), fit(keep), bar);
  }

  /** The gases that stay are those of DropsWeak; where the loop stops none is weak. */
  lemma StrongOf(n: nat, keep: seq<nat>, fit: seq<nat> -> Vec, sparsity: real)
    requires IsFit(fit) && Increasing(keep, n) && n > 0 && sparsity > 0.0
    ensures DropsWeak(n, keep, Survivors(n, keep, fit, sparsity), fit, sparsity)
    ensures Settled(n, keep, fit, sparsity) ==> DropsWeak(n, keep, keep, fit, sparsity)
  {
    var x := FitOf(n, keep, fit);
    var bar := Times(sparsity, MaxOf(x));
    FitFound(n, keep, keep, fit);
    hide MaxOf, Strong, FitOf, Increasing;
    StrongMembers(keep, x, bar);
    StrongIncreasing(keep, x, bar);
    if MaxOf(x) <= 0.0 {
      NotPositive(sparsity, MaxOf(x));
      hide Times;
      assert forall k :: 0 <= k < n ==> x[k] >= 0.0;
    }
  }

  lemma NotPositive(s: real, m: real)
    requires s > 0.0 && m <= 0.0
    ensures Times(s, m) <= 0.0
  {
  }
}
