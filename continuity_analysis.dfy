/** `checkContinuity` (src/components/Calculator.tsx:117-173): the value at the point, the two one-sided
    values one `Delta` away, and a conclusion chosen by a fixed chain of tests with tolerance 0.01. */
module ContinuityAnalysis {
  import opened Wrappers
  import opened JsNumber
  import opened MathEngine
  import opened Notation
  import opened Trail
  import LimitAnalysis

  /** The tolerance of both comparisons. */
  const Tolerance: real := 0.01

  /** `fx0` after the inner try: the number evaluation returned (finite or not), or `undefined` when it threw. */
  function PointValue(f: Expr, x0: real): (v: Option<Num>)
    ensures v.None? <==> f.eval(x0).Throws?
    ensures v.Some? ==> v.value == f.eval(x0).n
  {
    match f.eval(x0)
    case Value(n) => Some(n)
    case Throws => None
  }

  /** `Math.abs(a - b) < 0.01`, with JavaScript arithmetic. */
  predicate Close(a: Num, b: Num) {
    Less(Abs(Sub(a, b)), Tolerance)
  }

  /** `continuous` in the source. */
  predicate IsContinuous(left: Num, right: Num, fx0: Option<Num>) {
    Close(left, right) && fx0.Some? && Close(left, fx0.value)
  }

  /** The conclusion: the branches are tried in the order limits differ, point undefined, value
      mismatch, continuous. */
  function ContinuityVerdict(left: Num, right: Num, fx0: Option<Num>): (v: Verdict)
    ensures v == LimitsDiffer <==> !Close(left, right)
    ensures v == UndefinedAtPoint <==> Close(left, right) && fx0.None?
    ensures v == ValueMismatch <==> Close(left, right) && fx0.Some? && !Close(left, fx0.value)
    ensures v == Continuous <==> IsContinuous(left, right, fx0)
  {
    if !Close(left, right) then LimitsDiffer
    else if fx0.None? then UndefinedAtPoint
    else if !IsContinuous(left, right, fx0) then ValueMismatch
    else Continuous
  }

  /** "Contínua" exactly when the three conditions hold in real terms: both one-sided values and the
      value at the point are finite numbers, the one-sided values are within 0.01 of each other, and the
      left one is within 0.01 of the value at the point. */
  lemma ContinuousIffThreeConditions(left: Num, right: Num, fx0: Option<Num>)
    ensures ContinuityVerdict(left, right, fx0) == Continuous <==>
      left.Fin? && right.Fin? && fx0.Some? && fx0.value.Fin? &&
      -Tolerance < left.r - right.r < Tolerance && -Tolerance < left.r - fx0.value.r < Tolerance
  {
    if ContinuityVerdict(left, right, fx0) == Continuous {
      CloseMeansFinite(left, right, Tolerance);
      CloseMeansFinite(left, fx0.value, Tolerance);
    }
  }

  /** A value that does not throw counts as defined even when it is not finite: an infinite or NaN value
      at the point never yields "not defined" (the removable-discontinuity branch) nor "continuous". */
  lemma NonFiniteValueCountsAsDefined(left: Num, right: Num, n: Num)
    requires !n.Fin?
    ensures ContinuityVerdict(left, right, Some(n)) != UndefinedAtPoint
    ensures ContinuityVerdict(left, right, Some(n)) != Continuous
    ensures Close(left, right) ==> ContinuityVerdict(left, right, Some(n)) == ValueMismatch
  {
    if Close(left, n) {
      CloseMeansFinite(left, n, Tolerance);
    }
  }

  /** The run the routine produces, as a value. */
  function ContinuityRun(engine: Engine, input: string, x0: real): Run {
    match engine.Load(input)
    case None => ErrorRun(ContinuityError)
    case Some(f) =>
      var fx0 := PointValue(f, x0);
      var valueStep := if fx0.None? then ValueUndefined(x0) else ValueDefined(x0, fx0.value);
      var left, right := f.eval(x0 - LimitAnalysis.Delta), f.eval(x0 + LimitAnalysis.Delta);
      if left.Throws? || right.Throws? then ErrorRun(ContinuityError)
      else
        var verdict := ContinuityVerdict(left.n, right.n, fx0);
        Run([ContinuityStatement(LatexFunc(input), x0), ComputeValue(x0), valueStep, OneSidedHeader,
             OneSidedLimits(x0, left.n, right.n), ContinuityConclusion(x0, verdict)],
            TextResult(if IsContinuous(left.n, right.n, fx0) then "Contínua" else "Descontínua"))
  }

  /** Six steps exactly when parsing and both one-sided evaluations succeed (a throw at the point itself
      only changes the third step); otherwise the error step alone. */
  lemma ContinuityRunShape(engine: Engine, input: string, x0: real)
    ensures var run := ContinuityRun(engine, input, x0);
      |run.steps| in {1, 6} &&
      (|run.steps| == 1 <==> run == ErrorRun(ContinuityError)) &&
      (|run.steps| == 6 <==>
        engine.Load(input).Some? &&
        engine.Load(input).value.eval(x0 - LimitAnalysis.Delta).Value? &&
        engine.Load(input).value.eval(x0 + LimitAnalysis.Delta).Value?)
  {
  }

  /** The six steps in order, with "Contínua" as the result exactly when the verdict is continuous. */
  lemma ContinuityRunSteps(engine: Engine, input: string, x0: real)
    requires engine.Load(input).Some?
    requires engine.Load(input).value.eval(x0 - LimitAnalysis.Delta).Value?
    requires engine.Load(input).value.eval(x0 + LimitAnalysis.Delta).Value?
    ensures var run := ContinuityRun(engine, input, x0);
      var f := engine.Load(input).value;
      var left, right := f.eval(x0 - LimitAnalysis.Delta).n, f.eval(x0 + LimitAnalysis.Delta).n;
      var verdict := ContinuityVerdict(left, right, PointValue(f, x0));
      |run.steps| == 6 &&
      run.steps[0] == ContinuityStatement(Cdot(input), x0) && run.steps[1] == ComputeValue(x0) &&
      run.steps[2] == (if f.eval(x0).Throws? then ValueUndefined(x0) else ValueDefined(x0, f.eval(x0).n)) &&
      run.steps[3] == OneSidedHeader && run.steps[4] == OneSidedLimits(x0, left, right) &&
      run.steps[5] == ContinuityConclusion(x0, verdict) &&
      run.result == TextResult(if verdict == Continuous then "Contínua" else "Descontínua")
  {
    LatexIsCdot(input);
  }

  /** The routine as the source writes it: the inner try around `f(x0)`, then the one-sided values, the
      two flags, and the conclusion built branch by branch. */
  method CheckContinuity(engine: Engine, input: string, x0: real) returns (steps: seq<Step>, result: Result)
    ensures Run(steps, result) == ContinuityRun(engine, input, x0)
  {
    steps := [];
    var latexFunc := LatexFunc(input);
    steps := steps + [ContinuityStatement(latexFunc, x0)];
    var parsed := engine.Load(input);
    if parsed.None? {
      steps, result := [ErrorStep(ContinuityError)], NoResult;
      return;
    }
    var f := parsed.value;
    steps := steps + [ComputeValue(x0)];
    var fx0: Option<Num>;
    var evaluated := f.eval(x0);
    if evaluated.Value? {
      fx0 := Some(evaluated.n);
      steps := steps + [ValueDefined(x0, evaluated.n)];
    } else {
      steps := steps + [ValueUndefined(x0)];
      fx0 := None;
    }
    steps := steps + [OneSidedHeader];
    var leftLimit := f.eval(x0 - LimitAnalysis.Delta);
    if leftLimit.Throws? {
      steps, result := [ErrorStep(ContinuityError)], NoResult;
      return;
    }
    var rightLimit := f.eval(x0 + LimitAnalysis.Delta);
    if rightLimit.Throws? {
      steps, result := [ErrorStep(ContinuityError)], NoResult;
      return;
    }
    steps := steps + [OneSidedLimits(x0, leftLimit.n, rightLimit.n)];
    var limitsEqual := Less(Abs(Sub(leftLimit.n, rightLimit.n)), Tolerance);
    var continuous := limitsEqual && fx0.Some? && Less(Abs(Sub(leftLimit.n, fx0.value)), Tolerance);
    var conclusion: Verdict;
    if !limitsEqual {
      conclusion := LimitsDiffer;
    } else if fx0.None? {
      conclusion := UndefinedAtPoint;
    } else if !continuous {
      conclusion := ValueMismatch;
    } else {
      conclusion := Continuous;
    }
    steps := steps + [ContinuityConclusion(x0, conclusion)];
    result := TextResult(if continuous then "Contínua" else "Descontínua");
  }
}
