/** Floating-point scalars seen as extended reals.
  * Finite values are exact reals (rounding is not modelled); the two infinities
  * appear as the initial bounds of an empty node and as the distance to an empty
  * box; NaN appears only in caller-supplied coordinates, which are rejected. */
module Floats {

  datatype Float = NegInf | Fin(r: real) | PosInf | NaN

  /** `is_finite()`: neither infinite nor NaN. */
  predicate IsFinite(x: Float) {
    x.Fin?
  }

  predicate AllFinite(s: seq<Float>) {
    forall i :: 0 <= i < |s| ==> s[i].Fin?
  }

  /** IEEE `<`: false whenever an operand is NaN. */
  predicate Lt(x: Float, y: Float) {
    match (x, y)
    case (NaN, _) => false
    case (_, NaN) => false
    case (NegInf, NegInf) => false
    case (NegInf, _) => true
    case (Fin(a), Fin(b)) => a < b
    case (Fin(_), PosInf) => true
    case (_, _) => false
  }

  /** IEEE `<=`: false whenever an operand is NaN. */
  predicate Le(x: Float, y: Float) {
    !x.NaN? && !y.NaN? && !Lt(y, x)
  }

  /** Multiplication by -1. */
  function Neg(x: Float): Float {
    match x
    case NegInf => PosInf
    case Fin(a) => Fin(-a)
    case PosInf => NegInf
    case NaN => NaN
  }

  /** IEEE addition (the cases that can arise are finite + finite and anything + infinity). */
  function Add(x: Float, y: Float): Float {
    match (x, y)
    case (Fin(a), Fin(b)) => Fin(a + b)
    case (NaN, _) => NaN
    case (_, NaN) => NaN
    case (PosInf, NegInf) => NaN
    case (NegInf, PosInf) => NaN
    case (PosInf, _) => PosInf
    case (_, PosInf) => PosInf
    case (_, _) => NegInf
  }

  /** The finite coordinates of an all-finite sequence. */
  function Reals(s: seq<Float>): (r: seq<real>)
    requires AllFinite(s)
    ensures |r| == |s| && forall i :: 0 <= i < |s| ==> s[i] == Fin(r[i])
  {
    seq(|s|, i requires 0 <= i < |s| => s[i].r)
  }

  function Fins(s: seq<real>): (r: seq<Float>)
    ensures |r| == |s| && AllFinite(r) && Reals(r) == s
  {
    seq(|s|, i requires 0 <= i < |s| => Fin(s[i]))
  }

  lemma LtIsStrictOrder(x: Float, y: Float, z: Float)
    ensures !Lt(x, x)
    ensures Lt(x, y) ==> !Lt(y, x)
    ensures Lt(x, y) && Lt(y, z) ==> Lt(x, z)
    ensures Le(x, y) && Le(y, z) ==> Le(x, z)
    ensures !x.NaN? && !y.NaN? ==> (Le(x, y) <==> Lt(x, y) || x == y)
  {
  }

  lemma NegReversesOrder(x: Float, y: Float)
    ensures Le(x, y) <==> Le(Neg(y), Neg(x))
    ensures Lt(x, y) <==> Lt(Neg(y), Neg(x))
    ensures Neg(Neg(x)) == x
  {
  }
}
