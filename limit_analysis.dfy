/** `calculateLimit` (src/components/Calculator.tsx:19-77): direct substitution, and when that gives no
    finite number, the average of the values one `Delta` to the left and to the right of the point. */
module LimitAnalysis {
  import opened Wrappers
  import opened JsNumber
  import opened MathEngine
  import opened Notation
  import opened Trail

  /** The one-sided offset. */
  const Delta: real := 0.0001

  /** Direct substitution gave a finite number. */
  predicate DirectFinite(f: Expr, x0: real) {
    f.eval(x0).Value? && f.eval(x0).n.Fin?
  }

  /** The run the routine produces, as a value. */
  function LimitRun(engine: Engine, input: string, x0: real): Run {
    match engine.Load(input)
    case None => ErrorRun(CalculateError)
    case Some(f) =>
      var head := [LimitStatement(LatexFunc(input), x0), DirectSubstitution(x0)];
      if DirectFinite(f, x0) then
        Run(head + [DirectValue(x0, f.eval(x0).n.r)], NumberResult(f.eval(x0).n))
      else
        var left, right := f.eval(x0 - Delta), f.eval(x0 + Delta);
        if left.Throws? || right.Throws? then ErrorRun(CalculateError)
        else
          var avg := Half(Add(left.n, right.n));
          Run(head + [IndeterminateForm, OneSidedLimits(x0, left.n, right.n), LimitConclusion(x0, avg)],
              NumberResult(avg))
  }

  /** The three outcomes: the error step alone (no parse, or a one-sided value that throws); three steps
      ending in the direct value when it is a finite number; otherwise five steps ending in the average
      of the one-sided values, which is also the result. */
  lemma LimitRunShape(engine: Engine, input: string, x0: real)
    ensures var run := LimitRun(engine, input, x0);
      |run.steps| in {1, 3, 5} &&
      (run.result.NoResult? <==> |run.steps| == 1) &&
      (|run.steps| == 1 ==> run == ErrorRun(CalculateError)) &&
      (engine.Load(input).None? ==> run == ErrorRun(CalculateError)) &&
      (|run.steps| > 1 ==>
        run.steps[0] == LimitStatement(Cdot(input), x0) && run.steps[1] == DirectSubstitution(x0))
    ensures engine.Load(input).Some? ==>
      var run := LimitRun(engine, input, x0);
      var f := engine.Load(input).value;
      (|run.steps| == 3 <==> DirectFinite(f, x0)) &&
      (|run.steps| == 5 <==> !DirectFinite(f, x0) && f.eval(x0 - Delta).Value? && f.eval(x0 + Delta).Value?) &&
      (|run.steps| == 3 ==>
        run.result == NumberResult(f.eval(x0).n) && run.steps[2] == DirectValue(x0, f.eval(x0).n.r)) &&
      (|run.steps| == 5 ==>
        var avg := Half(Add(f.eval(x0 - Delta).n, f.eval(x0 + Delta).n));
        run.result == NumberResult(avg) &&
        run.steps[2] == IndeterminateForm &&
        run.steps[3] == OneSidedLimits(x0, f.eval(x0 - Delta).n, f.eval(x0 + Delta).n) &&
        run.steps[4] == LimitConclusion(x0, avg))
  {
    LatexIsCdot(input);
  }

  /** The routine as the source writes it: steps pushed one by one, early return after a finite direct
      value, an inner catch around direct evaluation, and the outer catch for everything else. */
  method CalculateLimit(engine: Engine, input: string, x0: real) returns (steps: seq<Step>, result: Result)
    ensures Run(steps, result) == LimitRun(engine, input, x0)
  {
    steps := [];
    var latexFunc := LatexFunc(input);
    steps := steps + [LimitStatement(latexFunc, x0)];
    var compiled := engine.Load(input);
    if compiled.None? {
      steps, result := [ErrorStep(CalculateError)], NoResult;
      return;
    }
    var f := compiled.value;
    steps := steps + [DirectSubstitution(x0)];
    var isIndeterminate := false;
    var directResult := f.eval(x0);
    if directResult.Value? {
      if IsFinite(directResult.n) {
        steps := steps + [DirectValue(x0, directResult.n.r)];
        result := NumberResult(directResult.n);
        return;
      } else {
        isIndeterminate := true;
      }
    } else {
      isIndeterminate := true;
    }
    if isIndeterminate {
      steps := steps + [IndeterminateForm];
    }
    var leftLimit := f.eval(x0 - Delta);
    if leftLimit.Throws? {
      steps, result := [ErrorStep(CalculateError)], NoResult;
      return;
    }
    var rightLimit := f.eval(x0 + Delta);
    if rightLimit.Throws? {
      steps, result := [ErrorStep(CalculateError)], NoResult;
      return;
    }
    steps := steps + [OneSidedLimits(x0, leftLimit.n, rightLimit.n)];
    var avgLimit := Half(Add(leftLimit.n, rightLimit.n));
    steps := steps + [LimitConclusion(x0, avgLimit)];
    result := NumberResult(avgLimit);
  }

  /** When direct substitution fails and both one-sided values are finite, the reported limit is their
      midpoint: it lies between them, and equals them when they agree. */
  lemma LimitIsMidpoint(engine: Engine, input: string, x0: real)
    requires engine.Load(input).Some?
    requires !DirectFinite(engine.Load(input).value, x0)
    requires engine.Load(input).value.eval(x0 - Delta).Value? && engine.Load(input).value.eval(x0 - Delta).n.Fin?
    requires engine.Load(input).value.eval(x0 + Delta).Value? && engine.Load(input).value.eval(x0 + Delta).n.Fin?
    ensures
      var l := engine.Load(input).value.eval(x0 - Delta).n.r;
      var r := engine.Load(input).value.eval(x0 + Delta).n.r;
      var run := LimitRun(engine, input, x0);
      run.result.NumberResult? && run.result.number.Fin? &&
      (l <= run.result.number.r <= r || r <= run.result.number.r <= l) &&
      (l == r ==> run.result.number.r == l)
  {
  }

  /** `1/x` as mathjs evaluates it: Infinity at 0. */
  function Reciprocal(x: real): Outcome {
    if x == 0.0 then Value(PosInf) else Value(Fin(1.0 / x))
  }

  /** The two one-sided values are never compared: for `1/x` at 0 the values -10000 and 10000 are
      averaged to the limit 0 and the conclusion step is written all the same. */
  lemma OneSidedValuesNeverCompared(engine: Engine)
    requires engine.Load("1/x") == Some(Expr(Reciprocal))
    ensures
      var run := LimitRun(engine, "1/x", 0.0);
      |run.steps| == 5 && run.steps[3] == OneSidedLimits(0.0, Fin(-10000.0), Fin(10000.0)) &&
      run.steps[4] == LimitConclusion(0.0, Fin(0.0)) && run.result == NumberResult(Fin(0.0))
  {
    var f := Expr(Reciprocal);
    assert f.eval(0.0 - Delta) == Value(Fin(-10000.0));
    assert f.eval(0.0 + Delta) == Value(Fin(10000.0));
    assert !DirectFinite(f, 0.0);
  }
}
