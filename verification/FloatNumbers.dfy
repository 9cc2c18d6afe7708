/** The values of a floating-point type without their rounding: reals, the two infinities,
    and what is not a number.  A zero divisor counts as positive. */
module FloatNumbers {

  datatype Ext = Num(x: real) | Inf(positive: bool) | NaN

  function Add(a: Ext, b: Ext): Ext
  {
    match (a, b)
    case (Num(x), Num(y)) => Num(x + y)
    case (Inf(p), Inf(q)) => if p == q then a else NaN
    case (Inf(_), Num(_)) => a
    case (Num(_), Inf(_)) => b
    case _ => NaN
  }

  function Neg(a: Ext): Ext
  {
    match a
    case Num(x) => Num(-x)
    case Inf(p) => Inf(!p)
    case NaN => NaN
  }

  function Sub(a: Ext, b: Ext): Ext
  {
    Add(a, Neg(b))
  }

  function Mul(a: Ext, b: Ext): Ext
  {
    match (a, b)
    case (Num(x), Num(y)) => Num(x * y)
    case (Inf(p), Inf(q)) => Inf(p == q)
    case (Inf(p), Num(y)) => if y == 0.0 then NaN else Inf(p == (y > 0.0))
    case (Num(x), Inf(q)) => if x == 0.0 then NaN else Inf((x > 0.0) == q)
    case _ => NaN
  }

  /** Division by a real. */
  function Div(a: Ext, y: real): Ext
  {
    match a
    case Num(x) => if y != 0.0 then Num(x / y) else if x == 0.0 then NaN else Inf(x > 0.0)
    case Inf(p) => Inf(p == (y >= 0.0))
    case NaN => NaN
  }

  function Magnitude(a: Ext): Ext
  {
    match a
    case Num(x) => Num(if x < 0.0 then -x else x)
    case Inf(_) => Inf(true)
    case NaN => NaN
  }

  /** Nothing is less than what is not a number, nor is that less than anything. */
  predicate Less(a: Ext, b: Ext)
  {
    match (a, b)
    case (Num(x), Num(y)) => x < y
    case (Inf(p), Inf(q)) => !p && q
    case (Inf(p), Num(_)) => !p
    case (Num(_), Inf(q)) => q
    case _ => false
  }

  // ----- The laws that hold beyond numbers -----------------------------------------

  lemma AddLaws(a: Ext, b: Ext, c: Ext)
    ensures Add(a, b) == Add(b, a) && Add(Add(a, b), c) == Add(a, Add(b, c))
    ensures Neg(Add(a, b)) == Add(Neg(a), Neg(b))
    ensures Add(a, Num(0.0)) == a
    ensures Sub(a, a) == if a.Num? then Num(0.0) else NaN
    ensures !Less(Add(b, c), Add(a, c)) || Less(b, a)
  {
  }

  /** A product changes its sign with either factor, and that of two positive factors is
      positive. */
  lemma MulLaws(a: Ext, b: Ext)
    ensures Mul(a, b) == Mul(b, a)
    ensures Mul(Neg(a), b) == Neg(Mul(a, b))
    ensures Less(Num(0.0), a) && Less(Num(0.0), b) ==> Less(Num(0.0), Mul(a, b))
    ensures Mul(Inf(true), Num(0.0)) == NaN
  {
    if a.Num? && b.Num? { Products(a.x, b.x); }
  }

  lemma Products(x: real, y: real)
    ensures Mul(Num(x), Num(y)) == Mul(Num(y), Num(x))
    ensures Mul(Num(-x), Num(y)) == Neg(Mul(Num(x), Num(y)))
    ensures x > 0.0 && y > 0.0 ==> Less(Num(0.0), Mul(Num(x), Num(y)))
  {
  }

  /** A quotient is the product with the inverse; zero has the inverse plus infinity. */
  lemma DivLaws(a: Ext, y: real)
    ensures y != 0.0 ==> Div(a, y) == Mul(a, Num(1.0 / y))
    ensures y == 0.0 ==> Div(a, y) == Mul(a, Inf(true))
  {
    if a.Num? && y != 0.0 { assert a.x / y == a.x * (1.0 / y); }
  }

  /** The order is strict, and total but for what is not a number. */
  lemma OrderLaws(a: Ext, b: Ext, c: Ext)
    ensures !Less(a, a)
    ensures Less(a, b) && Less(b, c) ==> Less(a, c)
    ensures Less(a, b) ==> Less(Neg(b), Neg(a))
    ensures Less(a, b) || Less(b, a) || a == b || a.NaN? || b.NaN?
    ensures Less(a, b) ==> !a.NaN? && !b.NaN?
    ensures a.Num? ==> Less(a, Inf(true))
    ensures !a.NaN? ==> !Less(Magnitude(a), a) && Magnitude(a) == Magnitude(Neg(a))
  {
  }
}
