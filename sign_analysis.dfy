/** `analyzeSign` (src/components/Calculator.tsx:175-310): the split into numerator and denominator when
    the input has the shape `(N)/(D)`, otherwise one sign list for the whole expression; each list is
    built by a loop over a fixed list of test points. */
module SignAnalysis {
  import opened Wrappers
  import opened JsNumber
  import opened MathEngine
  import opened Notation
  import opened SignRules
  import opened QuotientPattern
  import opened Trail

  /** The test points of the numerator/denominator path. */
  const SplitPoints: seq<int> := [-10, -5, -3, -2, -1, 0, 1, 2, 3, 5, 10]

  /** The test points of the other two paths. */
  const WholePoints: seq<int> := [-10, -5, -2, -1, 0, 1, 2, 5, 10]

  const AnalysisComplete: string := "Análise completa"

  /** The three entries one test point contributes on the split path. Evaluation of the numerator comes
      first; a throw from either evaluation puts ∄ in all three lists. */
  function SplitCells(num: Expr, den: Expr, x: int): (c: (Cell, Cell, QuotientCell))
    ensures c.0.Nexists? <==> num.eval(x as real).Throws? || den.eval(x as real).Throws?
    ensures c.0.Nexists? ==> c.1 == Nexists && c.2 == Failed
    ensures c.0.Known? ==>
      c.0 == Known(SignOf(num.eval(x as real).n)) && c.1 == Known(SignOf(den.eval(x as real).n)) &&
      c.2 == Quotient(c.0.sign, c.1.sign)
  {
    match num.eval(x as real)
    case Throws => (Nexists, Nexists, Failed)
    case Value(n) =>
      match den.eval(x as real)
      case Throws => (Nexists, Nexists, Failed)
      case Value(d) => (Known(SignOf(n)), Known(SignOf(d)), Quotient(SignOf(n), SignOf(d)))
  }

  /** The entry one test point contributes on the other paths: its label, or ∄ when evaluation threw. */
  function PointCell(f: Expr, x: int): (c: Cell)
    ensures c == Nexists <==> f.eval(x as real).Throws?
    ensures c.Known? ==> c.sign == SignOf(f.eval(x as real).n)
  {
    match f.eval(x as real)
    case Throws => Nexists
    case Value(n) => Known(SignOf(n))
  }

  /** The lists as values: entry `i` belongs to test point `i`. */
  function NumeratorColumn(num: Expr, den: Expr, points: seq<int>): seq<SignEntry> {
    seq(|points|, i requires 0 <= i < |points| => SignEntry(points[i], SplitCells(num, den, points[i]).0))
  }

  function DenominatorColumn(num: Expr, den: Expr, points: seq<int>): seq<SignEntry> {
    seq(|points|, i requires 0 <= i < |points| => SignEntry(points[i], SplitCells(num, den, points[i]).1))
  }

  function QuotientColumn(num: Expr, den: Expr, points: seq<int>): seq<QuotientEntry> {
    seq(|points|, i requires 0 <= i < |points| => QuotientEntry(points[i], SplitCells(num, den, points[i]).2))
  }

  function WholeColumn(f: Expr, points: seq<int>): seq<SignEntry> {
    seq(|points|, i requires 0 <= i < |points| => SignEntry(points[i], PointCell(f, points[i])))
  }

  /** The loop of the split path: one entry appended to each of the three lists per test point, in order. */
  method SplitSignLists(num: Expr, den: Expr, points: seq<int>)
    returns (numSigns: seq<SignEntry>, denSigns: seq<SignEntry>, resultSigns: seq<QuotientEntry>)
    ensures |numSigns| == |denSigns| == |resultSigns| == |points|
    ensures forall i :: 0 <= i < |points| ==>
      numSigns[i] == SignEntry(points[i], SplitCells(num, den, points[i]).0) &&
      denSigns[i] == SignEntry(points[i], SplitCells(num, den, points[i]).1) &&
      resultSigns[i] == QuotientEntry(points[i], SplitCells(num, den, points[i]).2)
  {
    numSigns, denSigns, resultSigns := [], [], [];
    for k := 0 to |points|
      invariant |numSigns| == |denSigns| == |resultSigns| == k
      invariant forall i :: 0 <= i < k ==>
        numSigns[i] == SignEntry(points[i], SplitCells(num, den, points[i]).0) &&
        denSigns[i] == SignEntry(points[i], SplitCells(num, den, points[i]).1) &&
        resultSigns[i] == QuotientEntry(points[i], SplitCells(num, den, points[i]).2)
    {
      var x := points[k];
      var numValue := num.eval(x as real);
      if numValue.Throws? {
        numSigns := numSigns + [SignEntry(x, Nexists)];
        denSigns := denSigns + [SignEntry(x, Nexists)];
        resultSigns := resultSigns + [QuotientEntry(x, Failed)];
        continue;
      }
      var denValue := den.eval(x as real);
      if denValue.Throws? {
        numSigns := numSigns + [SignEntry(x, Nexists)];
        denSigns := denSigns + [SignEntry(x, Nexists)];
        resultSigns := resultSigns + [QuotientEntry(x, Failed)];
        continue;
      }
      var numSign := if Less(Abs(numValue.n), ZeroTolerance) then Zero
                     else if Greater(numValue.n, 0.0) then Plus else Minus;
      var denSign := if Less(Abs(denValue.n), ZeroTolerance) then Zero
                     else if Greater(denValue.n, 0.0) then Plus else Minus;
      numSigns := numSigns + [SignEntry(x, Known(numSign))];
      denSigns := denSigns + [SignEntry(x, Known(denSign))];
      if denSign == Zero {
        resultSigns := resultSigns + [QuotientEntry(x, ZeroDenominator)];
      } else if numSign == Zero {
        resultSigns := resultSigns + [QuotientEntry(x, Signed(Zero))];
      } else {
        var resultSign := if (numSign == Plus && denSign == Plus) || (numSign == Minus && denSign == Minus)
                          then Plus else Minus;
        resultSigns := resultSigns + [QuotientEntry(x, Signed(resultSign))];
      }
    }
    assert numSigns == NumeratorColumn(num, den, points);
    assert denSigns == DenominatorColumn(num, den, points);
    assert resultSigns == QuotientColumn(num, den, points);
  }

  /** The loop of the other two paths: one entry per test point, in order. */
  method WholeSignList(f: Expr, points: seq<int>) returns (signs: seq<SignEntry>)
    ensures |signs| == |points|
    ensures forall i :: 0 <= i < |points| ==> signs[i] == SignEntry(points[i], PointCell(f, points[i]))
    ensures signs == WholeColumn(f, points)
  {
    signs := [];
    for k := 0 to |points|
      invariant |signs| == k
      invariant forall i :: 0 <= i < k ==> signs[i] == SignEntry(points[i], PointCell(f, points[i]))
    {
      var x := points[k];
      var value := f.eval(x as real);
      if value.Throws? {
        signs := signs + [SignEntry(x, Nexists)];
      } else if Less(Abs(value.n), ZeroTolerance) {
        signs := signs + [SignEntry(x, Known(Zero))];
      } else if Greater(value.n, 0.0) {
        signs := signs + [SignEntry(x, Known(Plus))];
      } else {
        signs := signs + [SignEntry(x, Known(Minus))];
      }
    }
    assert signs == WholeColumn(f, points);
  }

  /** The split path once numerator `n` and denominator `d` are known. */
  function SplitRun(engine: Engine, input: string, n: string, d: string): Run {
    if engine.Load(n).None? || engine.Load(d).None? then ErrorRun(SignError)
    else
      var num, den := engine.Load(n).value, engine.Load(d).value;
      Run([IdentifyFunction(Cdot(input)), SeparateQuotient(Cdot(n), Cdot(d)), NumeratorHeader,
           NumeratorTable(NumeratorColumn(num, den, SplitPoints)),
           DenominatorTable(DenominatorColumn(num, den, SplitPoints)),
           QuotientTable(QuotientColumn(num, den, SplitPoints))],
          TextResult(AnalysisComplete))
  }

  /** The fallback and non-rational paths. */
  function WholeRun(engine: Engine, input: string): Run {
    match engine.Load(input)
    case None => ErrorRun(SignError)
    case Some(f) =>
      Run([IdentifyFunction(Cdot(input)), if '/' in input then RationalDetected else FindZeros,
           SignTableStep(WholeColumn(f, WholePoints))],
          TextResult(AnalysisComplete))
  }

  /** The run the routine produces, as a value: the split path exactly when the pattern matches. */
  function SignRun(engine: Engine, input: string): (run: Run)
    ensures SplitQuotient(input).Some? ==>
      run == SplitRun(engine, input, SplitQuotient(input).value.0, SplitQuotient(input).value.1)
    ensures SplitQuotient(input).None? ==> run == WholeRun(engine, input)
  {
    SplitQuotientGroups(input);
    if '/' in input && SplitQuotient(input).Some? then
      SplitRun(engine, input, SplitQuotient(input).value.0, SplitQuotient(input).value.1)
    else
      WholeRun(engine, input)
  }

  /** The routine as the source writes it. */
  method AnalyzeSign(engine: Engine, input: string) returns (steps: seq<Step>, result: Result)
    ensures Run(steps, result) == SignRun(engine, input)
  {
    steps := [];
    var latexFunc := LatexFunc(input);
    LatexIsCdot(input);
    steps := steps + [IdentifyFunction(latexFunc)];
    var isRational := '/' in input;
    if isRational {
      var parts := SplitQuotient(input);
      if parts.Some? {
        var (numerator, denominator) := parts.value;
        var latexNum := LatexPart(numerator);
        var latexDen := LatexPart(denominator);
        LatexIsCdot(numerator);
        LatexIsCdot(denominator);
        steps := steps + [SeparateQuotient(latexNum, latexDen)];
        var parsedNum := engine.Load(numerator);
        if parsedNum.None? {
          steps, result := [ErrorStep(SignError)], NoResult;
          return;
        }
        var parsedDen := engine.Load(denominator);
        if parsedDen.None? {
          steps, result := [ErrorStep(SignError)], NoResult;
          return;
        }
        steps := steps + [NumeratorHeader];
        var numSigns, denSigns, resultSigns := SplitSignLists(parsedNum.value, parsedDen.value, SplitPoints);
        steps := steps + [NumeratorTable(numSigns)];
        steps := steps + [DenominatorTable(denSigns)];
        steps := steps + [QuotientTable(resultSigns)];
        result := TextResult(AnalysisComplete);
        var num, den := parsedNum.value, parsedDen.value;
        assert SplitRun(engine, input, numerator, denominator) ==
          Run([IdentifyFunction(Cdot(input)), SeparateQuotient(Cdot(numerator), Cdot(denominator)), NumeratorHeader,
               NumeratorTable(NumeratorColumn(num, den, SplitPoints)),
               DenominatorTable(DenominatorColumn(num, den, SplitPoints)),
               QuotientTable(QuotientColumn(num, den, SplitPoints))],
              TextResult(AnalysisComplete));
        assert steps == [IdentifyFunction(Cdot(input)), SeparateQuotient(Cdot(numerator), Cdot(denominator)),
                         NumeratorHeader, NumeratorTable(numSigns), DenominatorTable(denSigns),
                         QuotientTable(resultSigns)];
        assert numSigns == NumeratorColumn(num, den, SplitPoints);
        assert denSigns == DenominatorColumn(num, den, SplitPoints);
        assert resultSigns == QuotientColumn(num, den, SplitPoints);
        return;
      } else {
        var parsed := engine.Load(input);
        if parsed.None? {
          steps, result := [ErrorStep(SignError)], NoResult;
          return;
        }
        steps := steps + [RationalDetected];
        var signs := WholeSignList(parsed.value, WholePoints);
        steps := steps + [SignTableStep(signs)];
        result := TextResult(AnalysisComplete);
        assert Run(steps, result) == WholeRun(engine, input);
        return;
      }
    } else {
      var parsed := engine.Load(input);
      if parsed.None? {
        steps, result := [ErrorStep(SignError)], NoResult;
        return;
      }
      steps := steps + [FindZeros];
      var signs := WholeSignList(parsed.value, WholePoints);
      steps := steps + [SignTableStep(signs)];
      result := TextResult(AnalysisComplete);
      SplitQuotientGroups(input);
      assert Run(steps, result) == WholeRun(engine, input);
    }
  }

  /** The split path: six steps in the order identify, separate, numerator heading, numerator list,
      denominator list, quotient list; or the single error step when numerator or denominator fails to
      parse. */
  lemma SplitRunShape(engine: Engine, input: string, n: string, d: string)
    ensures var run := SplitRun(engine, input, n, d);
      (|run.steps| == 6 <==> engine.Load(n).Some? && engine.Load(d).Some?) &&
      (|run.steps| != 6 ==> run == ErrorRun(SignError)) &&
      (|run.steps| == 6 ==>
        run.result == TextResult(AnalysisComplete) &&
        run.steps[0] == IdentifyFunction(Cdot(input)) &&
        run.steps[1] == SeparateQuotient(Cdot(n), Cdot(d)) && run.steps[2] == NumeratorHeader &&
        run.steps[3].NumeratorTable? && run.steps[4].DenominatorTable? && run.steps[5].QuotientTable?)
  {
    if engine.Load(n).Some? && engine.Load(d).Some? {
      var num, den := engine.Load(n).value, engine.Load(d).value;
      var tables := [NumeratorTable(NumeratorColumn(num, den, SplitPoints)),
                     DenominatorTable(DenominatorColumn(num, den, SplitPoints)),
                     QuotientTable(QuotientColumn(num, den, SplitPoints))];
      assert SplitRun(engine, input, n, d).steps ==
        [IdentifyFunction(Cdot(input)), SeparateQuotient(Cdot(n), Cdot(d)), NumeratorHeader] + tables;
    }
  }

  /** On the split path each list holds one entry per test point (11 of them), entry `i` being the
      cells of test point `i`. */
  lemma SplitRunTables(engine: Engine, input: string, n: string, d: string)
    requires engine.Load(n).Some? && engine.Load(d).Some?
    ensures var run := SplitRun(engine, input, n, d);
      var num, den := engine.Load(n).value, engine.Load(d).value;
      |run.steps[3].entries| == 11 && |run.steps[4].entries| == 11 && |run.steps[5].quotients| == 11 &&
      forall i :: 0 <= i < 11 ==>
        run.steps[3].entries[i] == SignEntry(SplitPoints[i], SplitCells(num, den, SplitPoints[i]).0) &&
        run.steps[4].entries[i] == SignEntry(SplitPoints[i], SplitCells(num, den, SplitPoints[i]).1) &&
        run.steps[5].quotients[i] == QuotientEntry(SplitPoints[i], SplitCells(num, den, SplitPoints[i]).2)
  {
    var num, den := engine.Load(n).value, engine.Load(d).value;
    var run := SplitRun(engine, input, n, d);
    assert run.steps[3].entries == NumeratorColumn(num, den, SplitPoints);
    assert run.steps[4].entries == DenominatorColumn(num, den, SplitPoints);
    assert run.steps[5].quotients == QuotientColumn(num, den, SplitPoints);
  }

  /** The other two paths: three steps whose second says which path ran ("rational function detected"
      exactly when the input contains `/`), the last holding one entry per test point (9 of them); or the
      single error step when the expression fails to parse. */
  lemma WholeRunShape(engine: Engine, input: string)
    ensures var run := WholeRun(engine, input);
      (|run.steps| == 3 <==> engine.Load(input).Some?) &&
      (|run.steps| != 3 ==> run == ErrorRun(SignError)) &&
      (|run.steps| == 3 ==>
        var f := engine.Load(input).value;
        run.result == TextResult(AnalysisComplete) &&
        run.steps[0] == IdentifyFunction(Cdot(input)) &&
        run.steps[1] == (if '/' in input then RationalDetected else FindZeros) &&
        run.steps[2].SignTableStep? && |run.steps[2].entries| == 9 &&
        forall i :: 0 <= i < 9 ==> run.steps[2].entries[i] == SignEntry(WholePoints[i], PointCell(f, WholePoints[i])))
  {
  }
}
