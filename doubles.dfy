/** The values a double-precision entry of the centroid buffer can take.
    Finite values are exact reals (rounding is not modelled); the infinities
    and the not-a-number sentinel are kept because dividing by a zero group
    count produces them. */
module Doubles {

  datatype Double = Num(value: real) | PosInf | NegInf | NaN

  /** IEEE 754 `a + b` for a finite addend b, without rounding. */
  function Plus(a: Double, b: real): Double
  {
    match a
    case Num(v) => Num(v + b)
    case _ => a
  }

  /** IEEE 754 `a / (double)c` for a non-negative integer count c, without
      rounding: a finite non-zero value over zero is an infinity of its sign,
      zero over zero is NaN, an infinity over a count keeps its sign. */
  function DivCount(a: Double, c: nat): Double
  {
    match a
    case Num(v) =>
      if c > 0 then Num(v / c as real)
      else if v > 0.0 then PosInf
      else if v < 0.0 then NegInf
      else NaN
    case _ => a
  }

  /** Adding b and then c is adding b + c. */
  lemma PlusPlus(a: Double, b: real, c: real)
    ensures Plus(Plus(a, b), c) == Plus(a, b + c)
  {
  }
}
