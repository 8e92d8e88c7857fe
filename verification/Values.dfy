/** Floating-point samples as the display code sees them: a real number, one of the
    two infinities, or NaN, which the repository uses as "no reading / break". */
module Values {

  datatype Option<+T> = None | Some(value: T)

  datatype Val = NaN | NegInf | Num(v: real) | PosInf

  /** IEEE order on samples; false as soon as a NaN is involved. */
  predicate Leq(a: Val, b: Val) {
    && !a.NaN? && !b.NaN?
    && (a.NegInf? || b.PosInf? || (a.Num? && b.Num? && a.v <= b.v))
  }

  predicate Less(a: Val, b: Val) {
    && !a.NaN? && !b.NaN? && !Leq(b, a)
  }

  function Abs(r: real): real {
    if r < 0.0 then -r else r
  }

  function Min(a: nat, b: nat): nat {
    if a <= b then a else b
  }

  function Max(a: nat, b: nat): nat {
    if a >= b then a else b
  }
}
