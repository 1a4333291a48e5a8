/** IEEE-754 doubles as the pipeline sees them: a NaN, the two infinities and finite values.
    Finite values are exact reals (rounding is not modelled) and zero carries no sign. */
module Floats {

  datatype Float = NaN | NegInf | PosInf | Fin(v: real)

  /** The numeric order on non-NaN values: -inf < every finite value < +inf. */
  predicate Below(a: Float, b: Float)
    requires !a.NaN? && !b.NaN?
  {
    match (a, b)
    case (NegInf, NegInf) => false
    case (NegInf, _) => true
    case (Fin(x), Fin(y)) => x < y
    case (Fin(_), PosInf) => true
    case _ => false
  }

  /** `a < b`: false whenever either side is NaN. */
  predicate Lt(a: Float, b: Float)
    ensures Lt(a, b) ==> !a.NaN? && !b.NaN? && a != b
  {
    !a.NaN? && !b.NaN? && Below(a, b)
  }

  /** `a <= b`: false whenever either side is NaN. */
  predicate Le(a: Float, b: Float)
    ensures Le(a, b) ==> !a.NaN? && !b.NaN?
    ensures Le(a, b) <==> Lt(a, b) || (a == b && !a.NaN?)
  {
    Lt(a, b) || (a == b && !a.NaN?)
  }

  predicate Gt(a: Float, b: Float) { Lt(b, a) }

  predicate Ge(a: Float, b: Float) { Le(b, a) }

  /** On non-NaN values exactly one of `<`, `==`, `>` holds. */
  lemma Trichotomy(a: Float, b: Float)
    requires !a.NaN? && !b.NaN?
    ensures Lt(a, b) || a == b || Lt(b, a)
    ensures !(Lt(a, b) && Lt(b, a))
  {
  }

  function Neg(a: Float): Float
  {
    match a
    case NaN => NaN
    case NegInf => PosInf
    case PosInf => NegInf
    case Fin(x) => Fin(-x)
  }

  function Add(a: Float, b: Float): Float
  {
    match (a, b)
    case (NaN, _) => NaN
    case (_, NaN) => NaN
    case (PosInf, NegInf) => NaN
    case (NegInf, PosInf) => NaN
    case (PosInf, _) => PosInf
    case (_, PosInf) => PosInf
    case (NegInf, _) => NegInf
    case (_, NegInf) => NegInf
    case (Fin(x), Fin(y)) => Fin(x + y)
  }

  function Sub(a: Float, b: Float): Float
  {
    Add(a, Neg(b))
  }

  /** The sign of a non-NaN value, with zero counted as positive. */
  predicate NonNegative(a: Float)
  {
    a.PosInf? || (a.Fin? && a.v >= 0.0)
  }

  /** IEEE division; a zero divisor counts as +0. */
  function Div(a: Float, b: Float): Float
  {
    match (a, b)
    case (NaN, _) => NaN
    case (_, NaN) => NaN
    case (Fin(x), Fin(y)) =>
      if y != 0.0 then Fin(x / y)
      else if x > 0.0 then PosInf
      else if x < 0.0 then NegInf
      else NaN
    case (Fin(_), _) => Fin(0.0)
    case (_, Fin(y)) =>
      if NonNegative(a) == (y >= 0.0) then PosInf else NegInf
    case _ => NaN
  }

  /** Sum of a sequence, left to right. */
  function Sum(s: seq<Float>): Float
  {
    if s == [] then Fin(0.0) else Add(Sum(s[..|s| - 1]), s[|s| - 1])
  }

  /** `np.mean`: NaN for an empty sequence, otherwise the sum over the count. */
  function Mean(s: seq<Float>): (r: Float)
    ensures s == [] ==> r.NaN?
    ensures (exists i :: 0 <= i < |s| && s[i].NaN?) ==> r.NaN?
    ensures s != [] && (forall i :: 0 <= i < |s| ==> s[i].Fin?) ==> r.Fin?
  {
    SumNaN(s);
    SumFinite(s);
    if s == [] then NaN else Div(Sum(s), Fin(|s| as real))
  }

  lemma {:induction false} SumNaN(s: seq<Float>)
    ensures (exists i :: 0 <= i < |s| && s[i].NaN?) ==> Sum(s).NaN?
  {
    if s != [] {
      var init := s[..|s| - 1];
      SumNaN(init);
      if exists i :: 0 <= i < |s| && s[i].NaN? {
        var i :| 0 <= i < |s| && s[i].NaN?;
        if i < |s| - 1 {
          assert init[i].NaN?;
        }
      }
    }
  }

  lemma {:induction false} SumFinite(s: seq<Float>)
    ensures (forall i :: 0 <= i < |s| ==> s[i].Fin?) ==> Sum(s).Fin?
  {
    if s != [] {
      var init := s[..|s| - 1];
      SumFinite(init);
      if forall i :: 0 <= i < |s| ==> s[i].Fin? {
        assert forall i :: 0 <= i < |init| ==> init[i] == s[i];
      }
    }
  }

  /** Elementwise difference of two equally long series (`a - b` on numpy arrays). */
  function SubSeq(a: seq<Float>, b: seq<Float>): (r: seq<Float>)
    requires |a| == |b|
    ensures |r| == |a|
    ensures forall i :: 0 <= i < |r| ==> r[i] == Sub(a[i], b[i])
  {
    seq(|a|, i requires 0 <= i < |a| => Sub(a[i], b[i]))
  }

  /** The non-NaN elements of `s`, in order (`dropna` on a series). */
  function DropNaN(s: seq<Float>): (r: seq<Float>)
    ensures |r| <= |s|
    ensures forall i :: 0 <= i < |r| ==> !r[i].NaN?
    ensures (forall i :: 0 <= i < |s| ==> !s[i].NaN?) ==> r == s
  {
    if s == [] then []
    else
      var init := DropNaN(s[..|s| - 1]);
      assert s == s[..|s| - 1] + [s[|s| - 1]];
      if s[|s| - 1].NaN? then init else init + [s[|s| - 1]]
  }

  /** Whether a value counts as missing in pandas (`isna`): only NaN. */
  predicate IsMissing(x: Float) { x.NaN? }

  /** `series.nunique() <= 1`: no two distinct non-missing values. */
  predicate AtMostOneDistinct(s: seq<Float>)
  {
    forall i, j :: 0 <= i < |s| && 0 <= j < |s| && !s[i].NaN? && !s[j].NaN? ==> s[i] == s[j]
  }
}
