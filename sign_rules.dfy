/** The sign decisions of the sign study (src/components/Calculator.tsx:224-237, 262-268, 289-295):
    the three-way classifier with its 0.001 tolerance and the sign rule for a quotient. */
module SignRules {
  import opened JsNumber

  /** A value whose absolute value is below this is labelled "0". */
  const ZeroTolerance: real := 0.001

  /** The labels "0", "+" and "−". */
  datatype Sign = Zero | Plus | Minus

  /** `Math.abs(v) < 0.001 ? "0" : v > 0 ? "+" : "−"`, with JavaScript's comparisons: NaN fails both tests
      and is labelled "−", +Infinity is "+", -Infinity is "−". */
  function SignOf(n: Num): (s: Sign)
    ensures s == Zero <==> n.Fin? && -ZeroTolerance < n.r < ZeroTolerance
    ensures s == Plus <==> n == PosInf || (n.Fin? && n.r >= ZeroTolerance)
    ensures s == Minus <==> n == NegInf || n == NaN || (n.Fin? && n.r <= -ZeroTolerance)
  {
    if Less(Abs(n), ZeroTolerance) then Zero else if Greater(n, 0.0) then Plus else Minus
  }

  /** An entry of the numerator, denominator or one-expression sign lists: a label, or ∄ after a throw. */
  datatype Cell = Known(sign: Sign) | Nexists

  /** An entry of the quotient's sign list: a label, "∄ (não existe)" for a zero denominator, or the bare
      "∄" written when evaluation threw. */
  datatype QuotientCell = Signed(sign: Sign) | ZeroDenominator | Failed

  /** One list entry together with the test point it belongs to (the `$x=…$` prefix). */
  datatype SignEntry = SignEntry(x: int, cell: Cell)
  datatype QuotientEntry = QuotientEntry(x: int, quotient: QuotientCell)

  /** The quotient rule: a "0" denominator gives ∄ whatever the numerator, a "0" numerator gives 0, and
      otherwise the quotient is "+" exactly when both labels are equal. */
  function Quotient(num: Sign, den: Sign): (q: QuotientCell)
    ensures q == ZeroDenominator <==> den == Zero
    ensures q == Signed(Zero) <==> den != Zero && num == Zero
    ensures q == Signed(Plus) <==> den != Zero && num != Zero && num == den
    ensures q == Signed(Minus) <==> den != Zero && num != Zero && num != den
    ensures !q.Failed?
  {
    if den == Zero then ZeroDenominator
    else if num == Zero then Signed(Zero)
    else Signed(if (num == Plus && den == Plus) || (num == Minus && den == Minus) then Plus else Minus)
  }

  lemma PositiveQuotient(a: real, b: real)
    requires (a > 0.0 && b > 0.0) || (a < 0.0 && b < 0.0)
    ensures a / b > 0.0
  {
    if a < 0.0 {
      assert a / b == (-a) / (-b);
    }
  }

  lemma NegativeQuotient(a: real, b: real)
    requires (a > 0.0 && b < 0.0) || (a < 0.0 && b > 0.0)
    ensures a / b < 0.0
  {
    if a < 0.0 {
      assert a / b == -((-a) / b);
    } else {
      assert a / b == -(a / (-b));
    }
  }

  /** For finite values the rule gives the sign of the real quotient `a / b`: whenever neither value is
      labelled "0", the quotient is labelled "+" exactly when `a / b` is positive. */
  lemma QuotientAgreesWithDivision(a: real, b: real)
    requires SignOf(Fin(a)) != Zero && SignOf(Fin(b)) != Zero
    ensures Quotient(SignOf(Fin(a)), SignOf(Fin(b))) == Signed(if a / b > 0.0 then Plus else Minus)
  {
    if (a > 0.0 && b > 0.0) || (a < 0.0 && b < 0.0) {
      PositiveQuotient(a, b);
    } else {
      NegativeQuotient(a, b);
    }
  }
}
