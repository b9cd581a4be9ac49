/** Values shared by both resize demos: box dimensions, JavaScript numbers as far as
    the demos produce them, and the error outcome of a handler that throws. */
module Common {

  /** Width and height of the resizable box, in CSS pixels. */
  datatype Dims = Dims(width: real, height: real)

  /** A pointer position in client coordinates. */
  datatype Point = Point(x: real, y: real)

  /** The two errors the handlers throw: a ratio descriptor that is neither a number
      nor a recognised string, and a "maintain dimension" choice that is neither
      "width" nor "height". */
  datatype Error = InvalidAspectRatio | InvalidDimensionSelection

  /** Outcome of a handler: a value, or the error it throws. */
  datatype Result<T> = Ok(value: T) | Err(error: Error)

  datatype Option<T> = None | Some(value: T)

  /** A JavaScript number as the demos produce it: an exact finite value, an
      infinity of either sign, or NaN. */
  datatype Num = Finite(v: real) | Infinite(positive: bool) | NaN

  /** `Math.max` on two finite numbers. */
  function Max(a: real, b: real): (m: real)
    ensures m >= a && m >= b
    ensures m == a || m == b
  {
    if a >= b then a else b
  }

  /** `Math.abs` on a finite number. */
  function Abs(a: real): (m: real)
    ensures m >= 0.0
    ensures m == a || m == -a
  {
    if a < 0.0 then -a else a
  }

  /** JavaScript `/` (IEEE 754 division, every zero taken as +0). The quotient is
      finite exactly when the dividend is finite and the divisor is infinite or a
      nonzero finite number; a finite divisor then times the quotient gives back the
      dividend, and an infinite one gives 0. It is NaN exactly when an operand is
      NaN, both are infinite or both are zero; otherwise it is infinite, with the
      sign of the dividend over that of the divisor. */
  function Divide(a: Num, b: Num): (q: Num)
    ensures q.Finite? <==> a.Finite? && (b.Infinite? || (b.Finite? && b.v != 0.0))
    ensures q.Finite? && b.Finite? ==> q.v * b.v == a.v
    ensures q.Finite? && b.Infinite? ==> q.v == 0.0
    ensures q.NaN? <==> (a.NaN? || b.NaN? || (a.Infinite? && b.Infinite?)
      || (a == Finite(0.0) && b == Finite(0.0)))
    ensures q.Infinite? && a.Finite? ==> b == Finite(0.0) && q.positive == (a.v > 0.0)
    ensures q.Infinite? && a.Infinite? ==> b.Finite? && q.positive == (a.positive == (b.v >= 0.0))
  {
    if a.NaN? || b.NaN? then NaN
    else if a.Infinite? then
      if b.Infinite? then NaN else Infinite(a.positive == (b.v >= 0.0))
    else if b.Infinite? then Finite(0.0)
    else if b.v != 0.0 then Finite(a.v / b.v)
    else if a.v == 0.0 then NaN
    else Infinite(a.v > 0.0)
  }

  /** Dividing a nonzero number by its quotient by `c` gives back `c`. */
  lemma DivideByQuotient(w: real, c: real)
    requires w != 0.0 && c != 0.0
    ensures w / (w / c) == c
  {
    calc {
      w / (w / c);
      w * c / w;
      c;
    }
  }

  /** A quotient by `c` over its own dividend is the reciprocal of `c`. */
  lemma QuotientOverDividend(h: real, c: real)
    requires h != 0.0 && c != 0.0
    ensures (h / c) / h == 1.0 / c
  {
  }

  lemma PositiveQuotient(a: real, b: real)
    requires a > 0.0 && b > 0.0
    ensures a / b > 0.0
  {
  }

  /** Dividing by a reciprocal multiplies. */
  lemma ReciprocalDivision(a: real, b: real)
    requires b != 0.0
    ensures a / (1.0 / b) == a * b
  {
  }

  lemma PositiveProduct(a: real, b: real)
    requires a > 0.0 && b > 0.0
    ensures a * b > 0.0
  {
  }

  /** A product over one factor is the other factor. */
  lemma ProductOverFactor(h: real, c: real)
    requires h != 0.0 && c != 0.0
    ensures (h * c) / h == c
  {
  }

  /** A quotient times its divisor is the dividend. */
  lemma QuotientTimesDivisor(a: real, b: real)
    requires b != 0.0
    ensures (a / b) * b == a
  {
  }
}
