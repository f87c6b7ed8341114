/**
 * Numbers as the formula engine sees them: exact reals for finite values plus
 * the three special values a division by zero can introduce. The special
 * values combine as in IEEE 754; zero carries no sign.
 */
module ExtNumber {

  datatype Ext = Fin(x: real) | PosInf | NegInf | NaN

  predicate IsInfinite(a: Ext) {
    a.PosInf? || a.NegInf?
  }

  /** The sign of a value that is not NaN: -1, 0 or 1. */
  function Sign(a: Ext): (s: int)
    requires !a.NaN?
    ensures -1 <= s <= 1
    ensures s == 0 <==> a == Fin(0.0)
    ensures a.PosInf? ==> s == 1
    ensures a.NegInf? ==> s == -1
  {
    match a
    case Fin(x) => if x > 0.0 then 1 else if x < 0.0 then -1 else 0
    case PosInf => 1
    case NegInf => -1
  }

  /** Unary minus. */
  function Negate(a: Ext): (r: Ext)
    ensures a.Fin? ==> r == Fin(-a.x)
    ensures r.NaN? <==> a.NaN?
    ensures a.PosInf? <==> r.NegInf?
    ensures a.NegInf? <==> r.PosInf?
  {
    match a
    case Fin(x) => Fin(-x)
    case PosInf => NegInf
    case NegInf => PosInf
    case NaN => NaN
  }

  /** `a + b`: exact on finite values; opposite infinities give NaN. */
  function Sum(a: Ext, b: Ext): (r: Ext)
    ensures a.Fin? && b.Fin? ==> r == Fin(a.x + b.x)
    ensures r.NaN? <==> a.NaN? || b.NaN? || (a.PosInf? && b.NegInf?) || (a.NegInf? && b.PosInf?)
    ensures r.PosInf? <==> (a.PosInf? || b.PosInf?) && !r.NaN?
    ensures r.NegInf? <==> (a.NegInf? || b.NegInf?) && !r.NaN?
  {
    match (a, b)
    case (NaN, _) => NaN
    case (_, NaN) => NaN
    case (PosInf, NegInf) => NaN
    case (NegInf, PosInf) => NaN
    case (PosInf, _) => PosInf
    case (NegInf, _) => NegInf
    case (_, PosInf) => PosInf
    case (_, NegInf) => NegInf
    case (Fin(x), Fin(y)) => Fin(x + y)
  }

  /** `a - b`, which IEEE 754 defines as `a + (-b)`. */
  function Difference(a: Ext, b: Ext): (r: Ext)
    ensures a.Fin? && b.Fin? ==> r == Fin(a.x - b.x)
    ensures r.NaN? <==> a.NaN? || b.NaN? || (a.PosInf? && b.PosInf?) || (a.NegInf? && b.NegInf?)
    ensures r.PosInf? <==> (a.PosInf? || b.NegInf?) && !r.NaN?
    ensures r.NegInf? <==> (a.NegInf? || b.PosInf?) && !r.NaN?
  {
    Sum(a, Negate(b))
  }

  /** `a * b`: exact on finite values; an infinity times zero gives NaN, and
      otherwise an infinite operand gives the infinity of the product's sign. */
  function Product(a: Ext, b: Ext): (r: Ext)
    ensures a.Fin? && b.Fin? ==> r == Fin(a.x * b.x)
    ensures r.NaN? <==> a.NaN? || b.NaN? || (IsInfinite(a) && b == Fin(0.0)) || (a == Fin(0.0) && IsInfinite(b))
    ensures r.PosInf? <==> !r.NaN? && (IsInfinite(a) || IsInfinite(b)) && Sign(a) == Sign(b)
    ensures r.NegInf? <==> !r.NaN? && (IsInfinite(a) || IsInfinite(b)) && Sign(a) == -Sign(b)
  {
    if a.NaN? || b.NaN? then NaN
    else if a.Fin? && b.Fin? then Fin(a.x * b.x)
    else if Sign(a) == 0 || Sign(b) == 0 then NaN
    else if Sign(a) == Sign(b) then PosInf
    else NegInf
  }

  /** `a / b` for a divisor other than zero (the parser never divides by
      zero): a finite value over an infinity gives zero, two infinities give
      NaN, and an infinity over a finite value keeps the quotient's sign. */
  function Quotient(a: Ext, b: Ext): (r: Ext)
    requires b != Fin(0.0)
    ensures a.Fin? && b.Fin? ==> r == Fin(a.x / b.x)
    ensures a.Fin? && IsInfinite(b) ==> r == Fin(0.0)
    ensures r.NaN? <==> a.NaN? || b.NaN? || (IsInfinite(a) && IsInfinite(b))
    ensures r.PosInf? <==> IsInfinite(a) && b.Fin? && Sign(a) == Sign(b)
    ensures r.NegInf? <==> IsInfinite(a) && b.Fin? && Sign(a) == -Sign(b)
  {
    if a.NaN? || b.NaN? then NaN
    else if a.Fin? && b.Fin? then Fin(a.x / b.x)
    else if a.Fin? then Fin(0.0)
    else if b.Fin? then (if Sign(a) == Sign(b) then PosInf else NegInf)
    else NaN
  }
}
