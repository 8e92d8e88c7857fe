/** CurveBuffer (ferrodac/core/plotbuffer.py): four parallel backing arrays that grow by
    doubling up to `cap` and are decimated in place. Each method is tied to the
    functions of CurveSpec, whose laws then hold of the arrays. */
module CurveBuffers {
  import opened Values
  import opened CurveSpec

  const INIT: nat := 1024

  class CurveBuffer {
    const cap: nat
    var x: array<real>
    var y: array<Val>
    var slo: array<Val>
    var shi: array<Val>
    var n: nat

    ghost predicate Valid()
      reads this
    {
      && cap >= 4
      && n <= x.Length <= cap && 0 < x.Length
      && y.Length == slo.Length == shi.Length == x.Length
      && y != slo && y != shi && slo != shi
      && x as object != y && x as object != slo && x as object != shi
    }

    ghost function Repr(): set<object>
      reads this
    {
      {this, x, y, slo, shi}
    }

    ghost function Contents(): (s: seq<Point>)
      requires Valid()
      reads this, x, y, slo, shi
      ensures |s| == n
      ensures Ys(s) == y[..n]
    {
      Zip(x[..n], y[..n], slo[..n], shi[..n], n)
    }

    constructor (capArg: int)
      ensures Valid() && fresh(Repr())
      ensures Contents() == [] && cap == (if capArg >= 4 then capArg else 4) && x.Length == Min(1024, cap)
    {
      cap := if capArg >= 4 then capArg else 4;
      var c0 := if capArg < 4 then 4 else if INIT <= capArg then INIT else capArg;
      x := new real[c0];
      y := new Val[c0](_ => NaN);
      slo := new Val[c0](_ => NaN);
      shi := new Val[c0](_ => NaN);
      n := 0;
    }

    method Decimate()
      requires Valid()
      modifies this`n, x, y, slo, shi
      ensures Valid()
      ensures Contents() == Decimated(old(Contents()))
    {
      hide Survivor, Ys;
      ghost var before := Contents();
      var vals := y[..n];
      var m := KeptCount(n);
      var sel := seq(m, i requires 0 <= i < m => Survivor(vals, i));
      forall i | 0 <= i < m { x[i] := x[sel[i]]; }
      forall i | 0 <= i < m { y[i] := y[sel[i]]; }
      forall i | 0 <= i < m { slo[i] := slo[sel[i]]; }
      forall i | 0 <= i < m { shi[i] := shi[sel[i]]; }
      n := m;
      assert Contents() == Decimated(before);
    }

    /** Grow the backing arrays by doubling until `need` fits, never past the cap. */
    method Reserve(need: nat)
      requires Valid() && need <= cap
      modifies this`x, this`y, this`slo, this`shi
      ensures Valid() && fresh(Repr() - old(Repr()))
      ensures need <= x.Length && x.Length >= old(x.Length)
      ensures x.Length <= old(x.Length) || x.Length < 2 * need
      ensures n == old(n) && Contents() == old(Contents())
    {
      var cur := x.Length;
      if need <= cur {
        return;
      }
      var newcap := cur;
      while newcap < need
        invariant 0 < newcap
        invariant newcap == cur || newcap < 2 * need
        decreases need - newcap
      {
        newcap := newcap * 2;
      }
      newcap := Min(newcap, cap);
      var nx := Grown(x, n, newcap, 0.0);
      var ny := Grown(y, n, newcap, NaN);
      var nlo := Grown(slo, n, newcap, NaN);
      var nhi := Grown(shi, n, newcap, NaN);
      x, y, slo, shi := nx, ny, nlo, nhi;
    }

    /** Write a batch into reserved slots behind the current contents. */
    method Write(b: seq<Point>)
      requires Valid() && n + |b| <= x.Length
      modifies this`n, x, y, slo, shi
      ensures Valid() && Contents() == old(Contents()) + b
    {
      ghost var before := Contents();
      forall i | 0 <= i < |b| { x[n + i] := b[i].x; }
      forall i | 0 <= i < |b| { y[n + i] := b[i].y; }
      forall i | 0 <= i < |b| { slo[n + i] := b[i].slo; }
      forall i | 0 <= i < |b| { shi[n + i] := b[i].shi; }
      n := n + |b|;
      assert Contents() == before + b;
    }

    /** The precondition is the exact condition under which the shrink loop ends
        (CurveSpec.ShrinkLoopEnds). */
    method Append(xs: seq<real>, vs: seq<Val>, ss: Sigma)
      requires Valid() && Fits(cap, n, xs, vs)
      modifies this, x, y, slo, shi
      ensures Valid() && fresh(Repr() - old(Repr()))
      ensures Contents() == Appended(cap, old(Contents()), xs, vs, ss)
    {
      hide LoLane, HiLane, Shrunk;
      var k := Min(|xs|, |vs|);
      if k == 0 {
        return;
      }
      var b := Batch(cap, xs, vs, ss);
      if k > cap {
        n := 0;
        k := cap;
      }
      MakeRoom(k);
      Write(b);
    }

    /** Coarsen until k more points fit under the cap, then reserve their slots. */
    method MakeRoom(k: nat)
      requires Valid() && (k < cap || (k == cap && n == 0))
      modifies this, x, y, slo, shi
      ensures Valid() && fresh(Repr() - old(Repr()))
      ensures n + k <= x.Length
      ensures Contents() == Shrunk(cap, old(Contents()), k)
    {
      while n + k > cap
        invariant Valid() && x == old(x) && y == old(y) && slo == old(slo) && shi == old(shi)
        invariant k < cap || (k == cap && n == 0)
        invariant Shrunk(cap, Contents(), k) == Shrunk(cap, old(Contents()), k)
        decreases n
      {
        Decimate();
      }
      Reserve(n + k);
    }

    /** `searchsorted(x[:n], xMin, side="left")`. */
    method Cut(xMin: real) returns (i: nat)
      requires Valid()
      ensures i == Bisect(Contents(), xMin, 0, n) && i <= n
    {
      var lo, hi := 0, n;
      while lo < hi
        invariant 0 <= lo <= hi <= n
        invariant Bisect(Contents(), xMin, lo, hi) == Bisect(Contents(), xMin, 0, n)
      {
        var mid := (lo + hi) / 2;
        if x[mid] < xMin {
          lo := mid + 1;
        } else {
          hi := mid;
        }
      }
      i := lo;
    }

    /** Move everything from sample i on to the front of each lane. */
    method DropFirst(i: nat)
      requires Valid() && i <= n
      modifies this`n, x, y, slo, shi
      ensures Valid() && Contents() == old(Contents())[i..]
    {
      ghost var before := Contents();
      var m := n - i;
      forall j | 0 <= j < m { x[j] := x[i + j]; }
      forall j | 0 <= j < m { y[j] := y[i + j]; }
      forall j | 0 <= j < m { slo[j] := slo[i + j]; }
      forall j | 0 <= j < m { shi[j] := shi[i + j]; }
      n := m;
      assert Contents() == before[i..];
    }

    method Trim(xMin: real) returns (changed: bool)
      requires Valid()
      modifies this`n, x, y, slo, shi
      ensures Valid()
      ensures Contents() == Trimmed(old(Contents()), xMin)
      ensures changed <==> n < old(n)
    {
      if n > 0 && x[0] < xMin {
        var i := Cut(xMin);
        if i > 0 {
          DropFirst(i);
          return true;
        }
      }
      return false;
    }

    method Clear()
      requires Valid()
      modifies this`n
      ensures Valid() && Contents() == []
    {
      n := 0;
    }
  }

  /** A longer array with the same first n elements. */
  method Grown<T>(a: array<T>, n: nat, m: nat, filler: T) returns (r: array<T>)
    requires n <= a.Length && n <= m
    ensures fresh(r) && r.Length == m && r[..n] == a[..n]
  {
    r := new T[m](_ => filler);
    forall i | 0 <= i < n { r[i] := a[i]; }
  }
}
