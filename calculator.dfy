/** The dispatch of the calculator (src/components/Calculator.tsx:312-337): the selected analysis type
    decides which one routine runs and which title is shown. */
module Calculator {
  import opened MathEngine
  import opened Trail
  import LimitAnalysis
  import DerivativeAnalysis
  import ContinuityAnalysis
  import SignAnalysis

  /** `AnalysisType`: "limite", "derivada", "continuidade" or "sinal". */
  datatype AnalysisType = Limite | Derivada | Continuidade | Sinal

  /** `getTitle`. Its `default` branch is unreachable for a value of the union type and is not modelled. */
  function Title(kind: AnalysisType): string {
    match kind
    case Limite => "Calculadora de Limites"
    case Derivada => "Calculadora de Derivadas"
    case Continuidade => "Verificador de Continuidade"
    case Sinal => "Estudo de Sinal"
  }

  /** Each analysis type has its own title. */
  lemma TitlesDistinct(a: AnalysisType, b: AnalysisType)
    ensures Title(a) == Title(b) <==> a == b
  {
  }

  /** `handleCalculate`: exactly the routine the type selects runs, and its run is the outcome. */
  method HandleCalculate(kind: AnalysisType, engine: Engine, input: string, x0: real)
    returns (steps: seq<Step>, result: Result)
    ensures kind == Limite ==> Run(steps, result) == LimitAnalysis.LimitRun(engine, input, x0)
    ensures kind == Derivada ==> Run(steps, result) == DerivativeAnalysis.DerivativeRun(engine, input, x0)
    ensures kind == Continuidade ==> Run(steps, result) == ContinuityAnalysis.ContinuityRun(engine, input, x0)
    ensures kind == Sinal ==> Run(steps, result) == SignAnalysis.SignRun(engine, input)
  {
    match kind
    case Limite =>
      steps, result := LimitAnalysis.CalculateLimit(engine, input, x0);
    case Derivada =>
      steps, result := DerivativeAnalysis.CalculateDerivative(engine, input, x0);
    case Continuidade =>
      steps, result := ContinuityAnalysis.CheckContinuity(engine, input, x0);
    case Sinal =>
      steps, result := SignAnalysis.AnalyzeSign(engine, input);
  }
}
