/** What one analysis run produces: the ordered list of solution steps it would hand to `setSteps` and
    the value it would hand to `setResult` (src/components/Calculator.tsx:12-17). Each step is the data
    the corresponding Portuguese text shows, not the text; number formatting is not modelled. */
module Trail {
  import opened JsNumber
  import opened SignRules

  /** The conclusion the continuity check writes, in the order its branches are tried. */
  datatype Verdict = LimitsDiffer | UndefinedAtPoint | ValueMismatch | Continuous

  datatype Step =
    | ErrorStep(message: string)
      // calculateLimit
    | LimitStatement(func: string, x0: real)
    | DirectSubstitution(x0: real)
    | DirectValue(x0: real, direct: real)
    | IndeterminateForm
    | OneSidedLimits(x0: real, left: Num, right: Num)
    | LimitConclusion(x0: real, limit: Num)
      // calculateDerivative
    | FunctionToDerive(func: string)
    | DerivativeDefinition
    | DerivativeFormula(derivative: string)
    | DerivativeAtPoint(x0: real, slope: Num)
      // checkContinuity
    | ContinuityStatement(func: string, x0: real)
    | ComputeValue(x0: real)
    | ValueDefined(x0: real, fx0: Num)
    | ValueUndefined(x0: real)
    | OneSidedHeader
    | ContinuityConclusion(x0: real, verdict: Verdict)
      // analyzeSign
    | IdentifyFunction(func: string)
    | SeparateQuotient(numerator: string, denominator: string)
    | NumeratorHeader
    | NumeratorTable(entries: seq<SignEntry>)
    | DenominatorTable(entries: seq<SignEntry>)
    | QuotientTable(quotients: seq<QuotientEntry>)
    | RationalDetected
    | FindZeros
    | SignTableStep(entries: seq<SignEntry>)

  /** `setResult(...)`: `null`, a number, or a text. */
  datatype Result = NoResult | NumberResult(number: Num) | TextResult(text: string)

  datatype Run = Run(steps: seq<Step>, result: Result)

  /** What every routine's outer `catch` produces: the one error step and a `null` result. */
  function ErrorRun(message: string): Run {
    Run([ErrorStep(message)], NoResult)
  }

  /** The error message shared by the limit and derivative routines. */
  const CalculateError: string := "Erro ao calcular. Verifique a sintaxe da função."
  const ContinuityError: string := "Erro ao verificar. Verifique a sintaxe da função."
  const SignError: string := "Erro ao analisar. Verifique a sintaxe da função."
}
