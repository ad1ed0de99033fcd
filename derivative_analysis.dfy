/** `calculateDerivative` (src/components/Calculator.tsx:79-115). The symbolic derivative itself comes
    from the engine; what is modelled is the four-step trail, the value reported and the error path. */
module DerivativeAnalysis {
  import opened Wrappers
  import opened JsNumber
  import opened MathEngine
  import opened Notation
  import opened Trail

  /** The run the routine produces, as a value. The input is parsed and differentiated but never
      compiled; only the derivative is compiled and evaluated. */
  function DerivativeRun(engine: Engine, input: string, x0: real): Run {
    match engine.parse(input)
    case None => ErrorRun(CalculateError)
    case Some(node) =>
      match engine.derivative(node)
      case None => ErrorRun(CalculateError)
      case Some(d) =>
        match engine.compile(d)
        case None => ErrorRun(CalculateError)
        case Some(c) =>
          if c.eval(x0).Throws? then ErrorRun(CalculateError)
          else
            Run([FunctionToDerive(LatexFunc(input)), DerivativeDefinition, DerivativeFormula(LatexFunc(d.text)),
                 DerivativeAtPoint(x0, c.eval(x0).n)],
                TextResult(d.text))
  }

  /** The derivative routine succeeds: the input parses, differentiates, the derivative compiles and its
      value at the point does not throw. */
  predicate Derives(engine: Engine, input: string, x0: real) {
    engine.parse(input).Some? && engine.derivative(engine.parse(input).value).Some? &&
    engine.compile(engine.derivative(engine.parse(input).value).value).Some? &&
    engine.compile(engine.derivative(engine.parse(input).value).value).value.eval(x0).Value?
  }

  /** Four steps exactly when parsing the input, differentiating it, compiling the derivative and
      evaluating it at the point all succeed, with the derivative's text as the result; otherwise the
      error step alone. */
  lemma DerivativeRunShape(engine: Engine, input: string, x0: real)
    ensures var run := DerivativeRun(engine, input, x0);
      |run.steps| in {1, 4} &&
      (|run.steps| == 1 <==> run == ErrorRun(CalculateError)) &&
      (|run.steps| == 4 <==> Derives(engine, input, x0))
    ensures var run := DerivativeRun(engine, input, x0);
      |run.steps| == 4 ==>
      var d := engine.derivative(engine.parse(input).value).value;
      var c := engine.compile(d).value;
      run.result == TextResult(d.text) &&
      run.steps[0] == FunctionToDerive(Cdot(input)) && run.steps[1] == DerivativeDefinition &&
      run.steps[2] == DerivativeFormula(Cdot(d.text)) &&
      run.steps[3] == DerivativeAtPoint(x0, c.eval(x0).n)
  {
    LatexIsCdot(input);
    if engine.parse(input).Some? && engine.derivative(engine.parse(input).value).Some? {
      LatexIsCdot(engine.derivative(engine.parse(input).value).value.text);
    }
  }

  /** The routine as the source writes it. */
  method CalculateDerivative(engine: Engine, input: string, x0: real) returns (steps: seq<Step>, result: Result)
    ensures Run(steps, result) == DerivativeRun(engine, input, x0)
  {
    steps := [];
    var latexFunc := LatexFunc(input);
    steps := steps + [FunctionToDerive(latexFunc)];
    steps := steps + [DerivativeDefinition];
    var parsed := engine.parse(input);
    if parsed.None? {
      steps, result := [ErrorStep(CalculateError)], NoResult;
      return;
    }
    var derivative := engine.derivative(parsed.value);
    if derivative.None? {
      steps, result := [ErrorStep(CalculateError)], NoResult;
      return;
    }
    var d := derivative.value;
    var latexDeriv := LatexFunc(d.text);
    steps := steps + [DerivativeFormula(latexDeriv)];
    var compiled := engine.compile(d);
    if compiled.None? {
      steps, result := [ErrorStep(CalculateError)], NoResult;
      return;
    }
    var valueAtPoint := compiled.value.eval(x0);
    if valueAtPoint.Throws? {
      steps, result := [ErrorStep(CalculateError)], NoResult;
      return;
    }
    steps := steps + [DerivativeAtPoint(x0, valueAtPoint.n)];
    result := TextResult(d.text);
  }
}
