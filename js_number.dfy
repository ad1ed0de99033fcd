/** JavaScript numbers as the analysis routines see them: a finite value, one of the two infinities, or NaN.
    Finite values are exact reals; rounding and overflow of IEEE doubles are not modelled. */
module JsNumber {

  datatype Num = Fin(r: real) | PosInf | NegInf | NaN

  /** `isFinite(n)` for a number. */
  predicate IsFinite(n: Num) {
    n.Fin?
  }

  /** `-n`. */
  function Neg(n: Num): Num {
    match n
    case Fin(a) => Fin(-a)
    case PosInf => NegInf
    case NegInf => PosInf
    case NaN => NaN
  }

  /** `a + b`: infinities absorb finite values, opposite infinities give NaN, NaN propagates. */
  function Add(a: Num, b: Num): (s: Num)
    ensures s.Fin? <==> a.Fin? && b.Fin?
    ensures a.Fin? && b.Fin? ==> s.r == a.r + b.r
    ensures (a.NaN? || b.NaN?) ==> s.NaN?
    ensures s == PosInf <==>
      (a == PosInf && b != NegInf && !b.NaN?) || (b == PosInf && a != NegInf && !a.NaN?)
    ensures s == NegInf <==>
      (a == NegInf && b != PosInf && !b.NaN?) || (b == NegInf && a != PosInf && !a.NaN?)
  {
    match (a, b)
    case (Fin(x), Fin(y)) => Fin(x + y)
    case (NaN, _) => NaN
    case (_, NaN) => NaN
    case (PosInf, NegInf) => NaN
    case (NegInf, PosInf) => NaN
    case (PosInf, _) => PosInf
    case (_, PosInf) => PosInf
    case (NegInf, _) => NegInf
    case (_, NegInf) => NegInf
  }

  /** `a - b`. */
  function Sub(a: Num, b: Num): Num {
    Add(a, Neg(b))
  }

  /** `n / 2`. */
  function Half(n: Num): (h: Num)
    ensures h.Fin? <==> n.Fin?
    ensures n.Fin? ==> h.r + h.r == n.r
    ensures !n.Fin? ==> h == n
  {
    match n
    case Fin(a) => Fin(a / 2.0)
    case _ => n
  }

  /** `Math.abs(n)`. */
  function Abs(n: Num): (m: Num)
    ensures m.Fin? <==> n.Fin?
    ensures m.Fin? ==> m.r >= 0.0 && (m.r == n.r || m.r == -n.r)
    ensures m.NaN? <==> n.NaN?
    ensures m == PosInf <==> n == PosInf || n == NegInf
    ensures m != NegInf
  {
    match n
    case Fin(a) => Fin(if a < 0.0 then -a else a)
    case NaN => NaN
    case _ => PosInf
  }

  /** `n < t` for a finite bound `t`: false for NaN and +Infinity, true for -Infinity. */
  predicate Less(n: Num, t: real) {
    match n
    case Fin(a) => a < t
    case PosInf => false
    case NegInf => true
    case NaN => false
  }

  /** `n > t` for a finite bound `t`: false for NaN and -Infinity, true for +Infinity. */
  predicate Greater(n: Num, t: real) {
    match n
    case Fin(a) => a > t
    case PosInf => true
    case NegInf => false
    case NaN => false
  }

  /** A distance that is below a positive threshold in JavaScript is a finite, genuine distance:
      `Math.abs(a - b) < t` is false as soon as `a` or `b` is not finite. */
  lemma {:induction false} CloseMeansFinite(a: Num, b: Num, t: real)
    requires t > 0.0
    requires Less(Abs(Sub(a, b)), t)
    ensures a.Fin? && b.Fin?
    ensures -t < a.r - b.r < t
  {
  }
}
