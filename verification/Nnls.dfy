/** The non-negative least squares fallback (ferrodac/analysis/deconvolve.py:46-54):
    projected coordinate descent on ||Ax - b||^2, over exact reals. */
module Nnls {

  type Vec = seq<real>
  type Mat = seq<Vec>  // row by row

  const EPS := 0.000000000001
  const SWEEPS: nat := 400

  // ----- linear algebra -----

  /** Multiplication under a name, so that the inductive proofs can treat products as
      atoms and leave the algebra to the few lemmas that unfold it. */
  function Times(p: real, q: real): real { p * q }

  function Dot(u: Vec, v: Vec): real
    requires |u| == |v|
  {
    if u == [] then 0.0 else Times(u[0], v[0]) + Dot(u[1..], v[1..])
  }

  function Zeros(n: nat): (z: Vec)
    ensures |z| == n && forall i :: 0 <= i < n ==> z[i] == 0.0
  {
    seq(n, _ => 0.0)
  }

  /** c * u + v */
  function Axpy(c: real, u: Vec, v: Vec): (r: Vec)
    requires |u| == |v|
    ensures |r| == |u|
  {
    if u == [] then [] else [Times(c, u[0]) + v[0]] + Axpy(c, u[1..], v[1..])
  }

  predicate IsProblem(a: Mat, b: Vec, n: nat) {
    |a| == |b| && forall i :: 0 <= i < |a| ==> |a[i]| == n
  }

  predicate NonNeg(x: Vec) { forall i :: 0 <= i < |x| ==> x[i] >= 0.0 }

  /** Entry (j, k) of the Gram matrix A^T A. */
  function Gram(a: Mat, n: nat, j: nat, k: nat): real
    requires j < n && k < n && forall i :: 0 <= i < |a| ==> |a[i]| == n
  {
    if a == [] then 0.0 else Times(a[0][j], a[0][k]) + Gram(a[1..], n, j, k)
  }

  function GramRow(a: Mat, n: nat, j: nat): (r: Vec)
    requires j < n && forall i :: 0 <= i < |a| ==> |a[i]| == n
    ensures |r| == n && forall k :: 0 <= k < n ==> r[k] == Gram(a, n, j, k)
  {
    seq(n, k requires 0 <= k < n => Gram(a, n, j, k))
  }

  /** Entry j of A^T b. */
  function Atb(a: Mat, b: Vec, n: nat, j: nat): real
    requires j < n && IsProblem(a, b, n)
  {
    if a == [] then 0.0 else Times(a[0][j], b[0]) + Atb(a[1..], b[1..], n, j)
  }

  /** ||Ax - b||^2 */
  function Cost(a: Mat, b: Vec, x: Vec): real
    requires IsProblem(a, b, |x|)
  {
    if a == [] then 0.0 else Square(Dot(a[0], x) - b[0]) + Cost(a[1..], b[1..], x)
  }

  function Square(r: real): real { Times(r, r) }

  // ----- the algorithm -----

  function Pos(r: real): real { if r > 0.0 then r else 0.0 }

  /** Move coordinate j against its gradient, by the padded diagonal, and clip it at zero. */
  function Update(a: Mat, b: Vec, x: Vec, j: nat): (y: Vec)
    requires j < |x| && IsProblem(a, b, |x|)
    ensures |y| == |x|
  {
    var n := |x|;
    GramPositive(a, n, j);
    x[j := Pos(x[j] + (Atb(a, b, n, j) - Dot(GramRow(a, n, j), x)) / (Gram(a, n, j, j) + EPS))]
  }

  /** The coordinates from j on, once each. */
  function Sweep(a: Mat, b: Vec, x: Vec, j: nat): (y: Vec)
    requires j <= |x| && IsProblem(a, b, |x|)
    ensures |y| == |x|
    decreases |x| - j
  {
    if j == |x| then x else Sweep(a, b, Update(a, b, x, j), j + 1)
  }

  function Sweeps(a: Mat, b: Vec, x: Vec, rounds: nat): (y: Vec)
    requires IsProblem(a, b, |x|)
    ensures |y| == |x|
    decreases rounds
  {
    if rounds == 0 then x else Sweeps(a, b, Sweep(a, b, x, 0), rounds - 1)
  }

  method Solve(a: Mat, b: Vec, n: nat) returns (x: array<real>)
    requires IsProblem(a, b, n)
    ensures fresh(x) && x[..] == Sweeps(a, b, Zeros(n), 400)
    ensures NonNeg(x[..]) && Cost(a, b, x[..]) <= Cost(a, b, Zeros(n))
    ensures Cost(a, b, x[..]) < Cost(a, b, Zeros(n)) || forall y :: Beats(a, b, Zeros(n), y)
  {
    hide Gram, Cost, Times, Dot, Atb;
    x := new real[n](_ => 0.0);
    assert x[..] == Zeros(n);
    for round := 0 to SWEEPS
      invariant Sweeps(a, b, x[..], SWEEPS - round) == Sweeps(a, b, Zeros(n), SWEEPS)
    {
      for j := 0 to n
        invariant Sweeps(a, b, Sweep(a, b, x[..], j), SWEEPS - round - 1) == Sweeps(a, b, Zeros(n), SWEEPS)
      {
        GramPositive(a, n, j);
        ghost var next := Update(a, b, x[..], j);
        x[j] := Pos(x[j] + (Atb(a, b, n, j) - Dot(GramRow(a, n, j), x[..])) / (Gram(a, n, j, j) + EPS));
        assert x[..] == next;
      }
    }
    SweepsDescend(a, b, Zeros(n), SWEEPS);
    SweepsImprove(a, b, Zeros(n), SWEEPS);
  }

  // ----- algebra -----

  lemma TimesAdd(p: real, q: real, r: real)
    ensures Times(p, q + r) == Times(p, q) + Times(p, r)
    ensures Times(p, q - r) == Times(p, q) - Times(p, r)
  {
  }

  lemma TimesZero(p: real)
    ensures Times(p, 0.0) == 0.0 && Times(0.0, p) == 0.0
  {
  }

  lemma TimesSwap(p: real, q: real)
    ensures Times(p, q) == Times(q, p)
  {
  }

  lemma TimesSign(p: real, q: real)
    requires p >= 0.0 && q >= 0.0
    ensures Times(p, q) >= 0.0
  {
  }

  lemma SquarePositive(r: real)
    ensures Square(r) >= 0.0
  {
  }

  lemma Distribute(c: real, u: real, v: real, w: real)
    ensures Times(Times(c, u) + v, w) == Times(c, Times(u, w)) + Times(v, w)
  {
    assert (c * u + v) * w == c * (u * w) + v * w;
  }

  lemma SquareShift(r: real, s: real, d: real)
    ensures Square(r + Times(s, d)) == Square(r) + Times(2.0 * d, Times(r, s)) + Times(Times(d, d), Times(s, s))
  {
    assert (r + s * d) * (r + s * d) == r * r + 2.0 * (r * (s * d)) + (s * d) * (s * d);
    assert (s * d) * (s * d) == (d * d) * (s * s);
    assert 2.0 * (r * (s * d)) == (2.0 * d) * (r * s);
  }

  lemma SquareSum(r: real, s: real)
    ensures Square(r + s) == Square(r) + 2.0 * Times(r, s) + Square(s)
  {
    assert (r + s) * (r + s) == r * r + 2.0 * (r * s) + s * s;
  }

  lemma {:induction false} AxpyAt(c: real, u: Vec, v: Vec, i: nat)
    requires |u| == |v| && i < |u|
    ensures Axpy(c, u, v)[i] == Times(c, u[i]) + v[i]
  {
    hide Times;
    if i > 0 {
      AxpyAt(c, u[1..], v[1..], i - 1);
    }
  }

  lemma {:induction false} DotAxpy(c: real, u: Vec, v: Vec, w: Vec)
    requires |u| == |v| == |w|
    ensures Dot(Axpy(c, u, v), w) == Times(c, Dot(u, w)) + Dot(v, w)
  {
    hide Times;
    if u == [] {
      TimesZero(c);
    } else {
      DotAxpy(c, u[1..], v[1..], w[1..]);
      Distribute(c, u[0], v[0], w[0]);
      TimesAdd(c, Times(u[0], w[0]), Dot(u[1..], w[1..]));
    }
  }

  lemma {:induction false} DotZeros(n: nat, w: Vec)
    requires |w| == n
    ensures Dot(Zeros(n), w) == 0.0
  {
    hide Times;
    if n > 0 {
      TimesZero(w[0]);
      DotZeros(n - 1, w[1..]);
      assert Zeros(n)[1..] == Zeros(n - 1);
    }
  }

  lemma {:induction false} DotUpdate(u: Vec, x: Vec, j: nat, v: real)
    requires |u| == |x| && j < |x|
    ensures Dot(u, x[j := v]) == Dot(u, x) + Times(u[j], v - x[j])
  {
    hide Times;
    if j == 0 {
      assert x[0 := v][1..] == x[1..];
      TimesAdd(u[0], x[0], v - x[0]);
      assert x[0] + (v - x[0]) == v;
    } else {
      DotUpdate(u[1..], x[1..], j - 1, v);
      assert x[j := v][1..] == x[1..][j - 1 := v];
    }
  }

  function Minus(y: Vec, x: Vec): (d: Vec)
    requires |y| == |x|
    ensures |d| == |x| && forall i :: 0 <= i < |d| ==> d[i] == y[i] - x[i]
  {
    seq(|x|, i requires 0 <= i < |x| => y[i] - x[i])
  }

  lemma {:induction false} DotMinus(u: Vec, y: Vec, x: Vec)
    requires |u| == |y| == |x|
    ensures Dot(u, Minus(y, x)) == Dot(u, y) - Dot(u, x)
  {
    hide Times;
    if u != [] {
      DotMinus(u[1..], y[1..], x[1..]);
      assert Minus(y, x)[1..] == Minus(y[1..], x[1..]);
      TimesAdd(u[0], y[0], x[0]);
    }
  }

  lemma {:induction false} GramPositive(a: Mat, n: nat, j: nat)
    requires j < n && forall i :: 0 <= i < |a| ==> |a[i]| == n
    ensures Gram(a, n, j, j) >= 0.0
  {
    hide Times;
    if a != [] {
      GramPositive(a[1..], n, j);
      SquarePositive(a[0][j]);
    }
  }

  // ----- one coordinate -----

  /** The half gradient A^T (Ax - b), accumulated row by row. */
  function Grad(a: Mat, b: Vec, x: Vec): (g: Vec)
    requires IsProblem(a, b, |x|)
    ensures |g| == |x|
  {
    if a == [] then Zeros(|x|) else Axpy(Dot(a[0], x) - b[0], a[0], Grad(a[1..], b[1..], x))
  }

  lemma GramRowStep(a: Mat, n: nat, j: nat)
    requires a != [] && j < n && forall i :: 0 <= i < |a| ==> |a[i]| == n
    ensures GramRow(a, n, j) == Axpy(a[0][j], a[0], GramRow(a[1..], n, j))
  {
    hide Axpy, Times;
    forall k | 0 <= k < n ensures GramRow(a, n, j)[k] == Axpy(a[0][j], a[0], GramRow(a[1..], n, j))[k] {
      AxpyAt(a[0][j], a[0], GramRow(a[1..], n, j), k);
    }
  }

  /** What the code subtracts is the gradient: (A^T A) x - A^T b. */
  lemma {:induction false} GradIsGramRow(a: Mat, b: Vec, x: Vec, j: nat)
    requires j < |x| && IsProblem(a, b, |x|)
    ensures Dot(GramRow(a, |x|, j), x) - Atb(a, b, |x|, j) == Grad(a, b, x)[j]
  {
    hide Times, Dot, Axpy;
    var n := |x|;
    if a == [] {
      assert GramRow(a, n, j) == Zeros(n);
      DotZeros(n, x);
    } else {
      var s, r := a[0][j], Dot(a[0], x) - b[0];
      GradIsGramRow(a[1..], b[1..], x, j);
      GramRowStep(a, n, j);
      DotAxpy(s, a[0], GramRow(a[1..], n, j), x);
      AxpyAt(r, a[0], Grad(a[1..], b[1..], x), j);
      TimesAdd(s, Dot(a[0], x), b[0]);
      TimesSwap(r, s);
    }
  }

  /** The cost along one coordinate is a parabola with this slope and curvature. */
  lemma {:induction false} CostUpdate(a: Mat, b: Vec, x: Vec, j: nat, v: real)
    requires j < |x| && IsProblem(a, b, |x|)
    ensures var d := v - x[j];
            Cost(a, b, x[j := v]) ==
              Cost(a, b, x) + Times(2.0 * d, Grad(a, b, x)[j]) + Times(Times(d, d), Gram(a, |x|, j, j))
  {
    hide Times, Dot, Axpy, Square;
    var d := v - x[j];
    if a == [] {
      TimesZero(2.0 * d);
      TimesZero(Times(d, d));
    } else {
      var r, s := Dot(a[0], x) - b[0], a[0][j];
      var g, h := Grad(a[1..], b[1..], x)[j], Gram(a[1..], |x|, j, j);
      CostUpdate(a[1..], b[1..], x, j, v);
      DotUpdate(a[0], x, j, v);
      AxpyAt(r, a[0], Grad(a[1..], b[1..], x), j);
      SquareShift(r, s, d);
      TimesAdd(2.0 * d, Times(r, s), g);
      TimesAdd(Times(d, d), Times(s, s), h);
      assert Dot(a[0], x[j := v]) - b[0] == r + Times(s, d);
    }
  }

  /** A projected step with a slightly too large curvature strictly descends unless it
      does not move; it does not move exactly where slope and bound balance. */
  lemma StepDescends(xj: real, g: real, h: real)
    requires xj >= 0.0 && h >= 0.0
    ensures var d := Pos(xj - g / (h + EPS)) - xj;
            var change := Times(2.0 * d, g) + Times(Times(d, d), h);
            if d == 0.0 then change == 0.0 else change < 0.0
    ensures Pos(xj - g / (h + EPS)) == xj <==> g >= 0.0 && Times(xj, g) == 0.0
  {
    var bigH := h + EPS;
    var q := g / bigH;
    assert q * bigH == g;
    var d := Pos(xj - q) - xj;
    ProductSign(xj, g, q, bigH);
    if xj - q > 0.0 {
      assert d == -q;
      assert (2.0 * d) * g + (d * d) * h == -(q * q * (bigH + EPS)) by {
        assert d * g == -(q * q * bigH) by { assert q * g == q * (q * bigH); }
        assert d * d * h == q * q * h;
        assert q * q * (bigH + EPS) == 2.0 * (q * q * bigH) - q * q * h;
      }
      ProductPositive(q, q);
      ProductPositive(q * q, bigH + EPS);
    } else {
      assert d == -xj && q >= xj;
      if xj > 0.0 {
        assert (2.0 * d) * g + (d * d) * h == -(xj * (2.0 * g - xj * h));
        assert xj * h <= q * h by { ProductMonotone(xj, q, h); }
        assert g == q * h + q * EPS;
        ProductPositive(q, EPS);
        assert q * h >= 0.0 by { ProductMonotone(0.0, q, h); }
        ProductPositive(xj, 2.0 * g - xj * h);
      }
    }
  }

  lemma ProductPositive(p: real, q: real)
    ensures (p > 0.0 && q > 0.0) || (p < 0.0 && q < 0.0) ==> p * q > 0.0
  {
  }

  lemma ProductMonotone(p: real, q: real, h: real)
    requires p <= q && h >= 0.0
    ensures p * h <= q * h
  {
  }

  lemma ProductSign(xj: real, g: real, q: real, bigH: real)
    requires bigH > 0.0 && q * bigH == g && xj >= 0.0
    ensures g > 0.0 <==> q > 0.0
    ensures g == 0.0 <==> q == 0.0
    ensures Times(xj, g) == 0.0 <==> xj == 0.0 || g == 0.0
  {
    ProductPositive(q, bigH);
    if q < 0.0 {
      ProductPositive(-q, bigH);
    }
    if xj > 0.0 {
      ProductPositive(xj, g);
      ProductPositive(xj, -g);
    }
  }

  /** What an update makes of coordinate j, by its slope and curvature. */
  function Moved(a: Mat, b: Vec, x: Vec, j: nat): real
    requires j < |x| && IsProblem(a, b, |x|)
  {
    GramPositive(a, |x|, j);
    Pos(x[j] - Grad(a, b, x)[j] / (Gram(a, |x|, j, j) + EPS))
  }

  lemma UpdateMoves(a: Mat, b: Vec, x: Vec, j: nat)
    requires j < |x| && IsProblem(a, b, |x|)
    ensures Update(a, b, x, j) == x[j := Moved(a, b, x, j)]
  {
    hide Gram, Grad, Dot, Atb, Times, GramRow;
    GramPositive(a, |x|, j);
    GradIsGramRow(a, b, x, j);
    NegDiv(Grad(a, b, x)[j], Gram(a, |x|, j, j) + EPS);
    assert Atb(a, b, |x|, j) - Dot(GramRow(a, |x|, j), x) == -Grad(a, b, x)[j];
  }

  /** One update keeps x non-negative, never raises the cost, and lowers it when it moves. */
  lemma UpdateDescends(a: Mat, b: Vec, x: Vec, j: nat)
    requires j < |x| && IsProblem(a, b, |x|) && NonNeg(x)
    ensures NonNeg(Update(a, b, x, j))
    ensures if Update(a, b, x, j) == x then true else Cost(a, b, Update(a, b, x, j)) < Cost(a, b, x)
    ensures Update(a, b, x, j) == x <==> Grad(a, b, x)[j] >= 0.0 && Times(x[j], Grad(a, b, x)[j]) == 0.0
  {
    hide Gram, Grad, Cost, Times, Update;
    var g, h, v := Grad(a, b, x)[j], Gram(a, |x|, j, j), Moved(a, b, x, j);
    GramPositive(a, |x|, j);
    UpdateMoves(a, b, x, j);
    CostUpdate(a, b, x, j, v);
    StepDescends(x[j], g, h);
    hide Moved;
    assert v == x[j] ==> x[j := v] == x;
    assert x[j := v][j] == v;
  }

  lemma NegDiv(g: real, d: real)
    requires d > 0.0
    ensures (-g) / d == -(g / d)
  {
  }

  lemma {:induction false} SweepDescends(a: Mat, b: Vec, x: Vec, j: nat)
    requires j <= |x| && IsProblem(a, b, |x|) && NonNeg(x)
    ensures NonNeg(Sweep(a, b, x, j)) && Cost(a, b, Sweep(a, b, x, j)) <= Cost(a, b, x)
    ensures Cost(a, b, Sweep(a, b, x, j)) == Cost(a, b, x) ==> forall k :: j <= k < |x| ==> Update(a, b, x, k) == x
    ensures (forall k :: j <= k < |x| ==> Update(a, b, x, k) == x) ==> Sweep(a, b, x, j) == x
    decreases |x| - j
  {
    hide Update, Cost;
    if j < |x| {
      UpdateDescends(a, b, x, j);
      SweepDescends(a, b, Update(a, b, x, j), j + 1);
    }
  }

  /** However many sweeps are made the result is non-negative and no worse than the start. */
  lemma {:induction false} SweepsDescend(a: Mat, b: Vec, x: Vec, rounds: nat)
    requires IsProblem(a, b, |x|) && NonNeg(x)
    ensures NonNeg(Sweeps(a, b, x, rounds)) && Cost(a, b, Sweeps(a, b, x, rounds)) <= Cost(a, b, x)
    decreases rounds
  {
    hide Sweep, Cost;
    if rounds > 0 {
      SweepDescends(a, b, x, 0);
      SweepsDescend(a, b, Sweep(a, b, x, 0), rounds - 1);
    }
  }

  // ----- optimality -----

  /** ||A d||^2 */
  function Quad(a: Mat, d: Vec): (q: real)
    requires forall i :: 0 <= i < |a| ==> |a[i]| == |d|
  {
    if a == [] then 0.0 else Square(Dot(a[0], d)) + Quad(a[1..], d)
  }

  lemma {:induction false} QuadPositive(a: Mat, d: Vec)
    requires forall i :: 0 <= i < |a| ==> |a[i]| == |d|
    ensures Quad(a, d) >= 0.0
  {
    hide Square, Dot;
    if a != [] {
      QuadPositive(a[1..], d);
      SquarePositive(Dot(a[0], d));
    }
  }

  /** The exact second-order expansion of the cost around x. */
  lemma {:induction false} CostExpand(a: Mat, b: Vec, x: Vec, y: Vec)
    requires IsProblem(a, b, |x|) && |y| == |x|
    ensures Cost(a, b, y) == Cost(a, b, x) + 2.0 * Dot(Grad(a, b, x), Minus(y, x)) + Quad(a, Minus(y, x))
  {
    hide Times, Dot, Axpy, Square, Minus;
    var d := Minus(y, x);
    if a == [] {
      DotZeros(|x|, d);
    } else {
      var r, s := Dot(a[0], x) - b[0], Dot(a[0], d);
      CostExpand(a[1..], b[1..], x, y);
      DotMinus(a[0], y, x);
      SquareSum(r, s);
      DotAxpy(r, a[0], Grad(a[1..], b[1..], x), d);
      assert Dot(a[0], y) - b[0] == r + s;
    }
  }

  lemma {:induction false} DotNonNeg(g: Vec, y: Vec)
    requires |g| == |y| && NonNeg(g) && NonNeg(y)
    ensures Dot(g, y) >= 0.0
  {
    hide Times;
    if g != [] {
      DotNonNeg(g[1..], y[1..]);
      TimesSign(g[0], y[0]);
    }
  }

  lemma {:induction false} DotComplementary(g: Vec, x: Vec)
    requires |g| == |x| && forall i :: 0 <= i < |g| ==> Times(x[i], g[i]) == 0.0
    ensures Dot(g, x) == 0.0
  {
    hide Times;
    if g != [] {
      TimesSwap(g[0], x[0]);
      forall i | 0 <= i < |g[1..]| ensures Times(x[1..][i], g[1..][i]) == 0.0 {
        assert x[1..][i] == x[i + 1] && g[1..][i] == g[i + 1];
      }
      DotComplementary(g[1..], x[1..]);
    }
  }

  predicate Beats(a: Mat, b: Vec, x: Vec, y: Vec)
    requires IsProblem(a, b, |x|)
  {
    |y| == |x| && NonNeg(y) ==> Cost(a, b, x) <= Cost(a, b, y)
  }

  /** The fixed points of a sweep are exactly the minimisers over all non-negative vectors. */
  lemma FixedIffOptimal(a: Mat, b: Vec, x: Vec)
    requires IsProblem(a, b, |x|) && NonNeg(x)
    ensures Sweep(a, b, x, 0) == x <==> forall y :: Beats(a, b, x, y)
  {
    hide Sweep, Update, Cost, Dot, Grad, Times, Quad;
    SweepDescends(a, b, x, 0);
    if Sweep(a, b, x, 0) == x {
      var g := Grad(a, b, x);
      forall j | 0 <= j < |x| ensures g[j] >= 0.0 && Times(x[j], g[j]) == 0.0 {
        UpdateDescends(a, b, x, j);
      }
      DotComplementary(g, x);
      forall y ensures Beats(a, b, x, y) {
        if |y| == |x| && NonNeg(y) {
          CostExpand(a, b, x, y);
          DotMinus(g, y, x);
          DotNonNeg(g, y);
          QuadPositive(a, Minus(y, x));
        }
      }
    } else {
      assert !Beats(a, b, x, Sweep(a, b, x, 0));
    }
  }

  /** A sweep that moves strictly lowers the cost, so the method never cycles. */
  lemma SweepStrict(a: Mat, b: Vec, x: Vec)
    requires IsProblem(a, b, |x|) && NonNeg(x)
    ensures Sweep(a, b, x, 0) == x || Cost(a, b, Sweep(a, b, x, 0)) < Cost(a, b, x)
  {
    hide Sweep, Update, Cost;
    SweepDescends(a, b, x, 0);
  }

  // ----- what an update and a sweep solve -----

  /** Moving one coordinate shifts its slope by the curvature. */
  lemma {:induction false} GradUpdate(a: Mat, b: Vec, x: Vec, j: nat, v: real)
    requires j < |x| && IsProblem(a, b, |x|)
    ensures Grad(a, b, x[j := v])[j] == Grad(a, b, x)[j] + Times(v - x[j], Gram(a, |x|, j, j))
  {
    hide Times, Dot, Axpy;
    var y := x[j := v];
    if a == [] {
      TimesZero(v - x[j]);
    } else {
      var s := a[0][j];
      GradUpdate(a[1..], b[1..], x, j, v);
      DotUpdate(a[0], x, j, v);
      AxpyAt(Dot(a[0], x) - b[0], a[0], Grad(a[1..], b[1..], x), j);
      AxpyAt(Dot(a[0], y) - b[0], a[0], Grad(a[1..], b[1..], y), j);
      RowShift(Dot(a[0], x) - b[0], s, v - x[j]);
      TimesAdd(v - x[j], Times(s, s), Gram(a[1..], |x|, j, j));
    }
  }

  lemma RowShift(r: real, s: real, d: real)
    ensures Times(r + Times(s, d), s) == Times(r, s) + Times(d, Times(s, s))
  {
    assert (r + s * d) * s == r * s + d * (s * s);
  }

  /** From x to y coordinate j was solved: its slope is zero up to the padding 1e-12 of the
      diagonal, or the bound holds it at zero. */
  predicate SlopeSolved(a: Mat, b: Vec, x: Vec, y: Vec, j: nat)
    requires |x| == |y| && j < |x| && IsProblem(a, b, |y|)
  {
    && y[j] >= 0.0
    && (y[j] > 0.0 ==> Grad(a, b, y)[j] == -0.000000000001 * (y[j] - x[j]))
    && (y[j] == 0.0 ==> Grad(a, b, y)[j] >= 0.000000000001 * x[j])
  }

  /** An update changes coordinate j only, and solves it. */
  lemma UpdateSolves(a: Mat, b: Vec, x: Vec, j: nat)
    requires j < |x| && IsProblem(a, b, |x|)
    ensures SlopeSolved(a, b, x, Update(a, b, x, j), j)
    ensures forall k :: 0 <= k < |x| && k != j ==> Update(a, b, x, j)[k] == x[k]
  {
    hide Gram, Grad, Times, Update;
    var v := Moved(a, b, x, j);
    GramPositive(a, |x|, j);
    UpdateMoves(a, b, x, j);
    GradUpdate(a, b, x, j, v);
    SolvedStep(x[j], Grad(a, b, x)[j], Gram(a, |x|, j, j), v);
  }

  lemma SolvedStep(xj: real, g: real, h: real, v: real)
    requires h >= 0.0 && v == Pos(xj - g / (h + EPS))
    ensures v > 0.0 ==> g + Times(v - xj, h) == -EPS * (v - xj)
    ensures v == 0.0 ==> g + Times(v - xj, h) >= EPS * xj
  {
    var q := g / (h + EPS);
    assert q * (h + EPS) == g;
    assert q * h + q * EPS == g;
    if v > 0.0 {
      assert (v - xj) * h == -(q * h);
    } else {
      ProductMonotone(xj, q, h);
      ProductMonotone(xj, q, EPS);
      assert (v - xj) * h == -(xj * h);
    }
  }

  /** The coordinates up to j are those of y already, the others still those of x. */
  function Halfway(x: Vec, y: Vec, j: nat): (z: Vec)
    requires |x| == |y| && j <= |x|
    ensures |z| == |x|
  {
    y[..j] + x[j..]
  }

  /** A sweep solves the coordinates one after the other, each with those before it already
      moved and those after it still in place. */
  lemma {:induction false} SweepSolves(a: Mat, b: Vec, x: Vec, k: nat, j: nat)
    requires k <= j < |x| && IsProblem(a, b, |x|)
    ensures Sweep(a, b, x, k)[..k] == x[..k]
    ensures SlopeSolved(a, b, Halfway(x, Sweep(a, b, x, k), j), Halfway(x, Sweep(a, b, x, k), j + 1), j)
    decreases j - k
  {
    hide Update, SlopeSolved;
    var u, y := Update(a, b, x, k), Sweep(a, b, x, k);
    assert y == Sweep(a, b, u, k + 1);
    hide Sweep;
    SweepPrefix(a, b, x, k);
    UpdateSolves(a, b, x, k);
    SweepPrefix(a, b, u, k + 1);
    if j == k {
      assert Halfway(x, y, j) == x && Halfway(x, y, j + 1) == u;
    } else {
      SweepSolves(a, b, u, k + 1, j);
      assert Halfway(x, y, j) == Halfway(u, y, j) && Halfway(x, y, j + 1) == Halfway(u, y, j + 1);
    }
  }

  lemma {:induction false} SweepPrefix(a: Mat, b: Vec, x: Vec, k: nat)
    requires k <= |x| && IsProblem(a, b, |x|)
    ensures Sweep(a, b, x, k)[..k] == x[..k]
    decreases |x| - k
  {
    if k < |x| {
      UpdateSolves(a, b, x, k);
      hide Update;
      var u := Update(a, b, x, k);
      SweepPrefix(a, b, u, k + 1);
      assert Sweep(a, b, x, k)[..k] == Sweep(a, b, u, k + 1)[..k + 1][..k];
    }
  }

  /** One more round is one more sweep, and as long as the optimum is not reached it lowers
      the cost. */
  lemma {:induction false} SweepsStep(a: Mat, b: Vec, x: Vec, rounds: nat)
    requires IsProblem(a, b, |x|) && NonNeg(x)
    ensures Sweeps(a, b, x, 0) == x && Sweeps(a, b, x, rounds + 1) == Sweep(a, b, Sweeps(a, b, x, rounds), 0)
    ensures var y := Sweeps(a, b, x, rounds);
            Cost(a, b, Sweeps(a, b, x, rounds + 1)) < Cost(a, b, y) || forall z :: Beats(a, b, y, z)
    decreases rounds
  {
    hide Sweep, Cost, Beats;
    if rounds == 0 {
      assert Sweeps(a, b, x, 1) == Sweeps(a, b, Sweep(a, b, x, 0), 0);
      SweepStrict(a, b, x);
      FixedIffOptimal(a, b, x);
    } else {
      SweepDescends(a, b, x, 0);
      SweepsStep(a, b, Sweep(a, b, x, 0), rounds - 1);
    }
  }

  /** Any number of sweeps improves on the start unless that is optimal already. */
  lemma SweepsImprove(a: Mat, b: Vec, x: Vec, rounds: nat)
    requires IsProblem(a, b, |x|) && NonNeg(x) && rounds > 0
    ensures Cost(a, b, Sweeps(a, b, x, rounds)) < Cost(a, b, x) || forall z :: Beats(a, b, x, z)
  {
    hide Sweep, Cost, Beats;
    SweepDescends(a, b, x, 0);
    SweepsDescend(a, b, Sweep(a, b, x, 0), rounds - 1);
    SweepStrict(a, b, x);
    FixedIffOptimal(a, b, x);
  }
}
