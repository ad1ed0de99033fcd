# Calculus helper: analysis routines and step-text segmenter

This project models the discrete logic of a small calculus helper written in React and TypeScript.
The helper has two parts.

- `Calculator` runs one of four analyses on a function of `x` typed by the user: a limit at a point,
  the derivative at a point, a continuity check at a point, or a sign study. Each analysis produces a
  list of solution steps and a result, or a single error step and no result.
- `MathDisplay` lays out one step string. It cuts the string into text blocks and markdown table
  blocks. It splits table lines into cells, skips separator lines and marks the header row. It also
  splits text into plain text, `$…$` inline math and `$$…$$` block math.

The expression library is not modelled. It is a parameter of the model, an `Engine`. The engine
parses an expression into a tree, compiles a tree, differentiates a tree, and the compiled code
evaluates at a real `x`. Each of these may fail.
Every routine is proved for every engine. Numbers are exact reals extended with the two infinities
and NaN, using JavaScript's rules for `+`, `-`, `Math.abs` and `<`.

Each analysis routine appears twice.

- A specification function (`LimitRun`, `DerivativeRun`, `ContinuityRun`, `SignRun`) gives the run as
  a value.
- A method (`CalculateLimit`, `CalculateDerivative`, `CheckContinuity`, `AnalyzeSign`) builds the
  steps one push at a time, with the source's early returns and inner `try`s. Each method is proved
  to produce exactly the run of its specification function.

Lemmas then state what each run looks like: how many steps it has, in what order, and with what
result. The test-point loops of the sign study are methods with loop invariants. The line scanner of
`MathDisplay` is a method, `Segment`, whose loop body is the `forEach` callback, `ScanLine`. It is
proved against `Segmentation`, a definition of the blocks by maximal runs of lines of one kind.

Files, one module each:

- `wrappers.dfy`, `js_number.dfy`, `js_text.dfy`: `Option`; JavaScript numbers; `trim`, `split`,
  `join`, global `replace` and `includes`.
- `math_engine.dfy`, `trail.dfy`: the engine parameter; steps, results and runs.
- `notation.dfy`: the "LaTeX" rewrite, in effect `*` to ` \cdot `.
- `sign_rules.dfy`, `quotient_pattern.dfy`, `sign_analysis.dfy`: `analyzeSign`.
- `limit_analysis.dfy`, `derivative_analysis.dfy`, `continuity_analysis.dfy`: the other three
  routines.
- `calculator.dfy`: `handleCalculate` and `getTitle`.
- `math_display.dfy`: the line scanner and table rows.
- `math_text.dfy`: the `$` tokenizer and classification of `MathText`.

## Model

| member | source | states |
|---|---|---|
| JsNumber.Add | src/components/Calculator.tsx:68 | `a + b` is finite exactly when both are, and then it is the real sum. NaN propagates. The sum is +Infinity iff one side is +Infinity and the other is neither -Infinity nor NaN, and symmetrically for -Infinity |
| JsNumber.Half | src/components/Calculator.tsx:68 | `n / 2` is finite exactly when `n` is, and twice it is `n`; ±Infinity and NaN are kept |
| JsNumber.Abs | src/components/Calculator.tsx:150 | `Math.abs` is finite exactly when its argument is, is non-negative and is `n` or `-n`; NaN stays NaN; either infinity gives +Infinity and -Infinity never results |
| MathEngine.Engine.Load | src/components/Calculator.tsx:34-35 | `math.parse(text).compile()` succeeds iff parsing succeeds and the tree compiles |
| JsNumber.CloseMeansFinite | src/components/Calculator.tsx:150-151 | `Math.abs(a - b) < t` (for positive `t`) implies both values are finite and within `t` of each other |
| SignRules.SignOf | src/components/Calculator.tsx:224-225 | label "0" iff the value is finite and strictly within 0.001 of zero; "+" iff +Infinity or at least 0.001; "−" iff -Infinity, NaN or at most -0.001 |
| SignRules.Quotient | src/components/Calculator.tsx:230-237 | a "0" denominator gives ∄ whatever the numerator; otherwise a "0" numerator gives 0; otherwise "+" iff the two labels are equal |
| SignRules.QuotientAgreesWithDivision | src/components/Calculator.tsx:230-237 | for finite values labelled other than "0", the rule gives "+" exactly when the real quotient `a / b` is positive |
| SignAnalysis.SplitCells | src/components/Calculator.tsx:219-242 | one test point: all three entries ∄ iff either evaluation throws; otherwise the two labels and their quotient |
| SignAnalysis.PointCell | src/components/Calculator.tsx:259-271 | one test point of the other paths: ∄ iff evaluation throws, otherwise the label of the value |
| SignAnalysis.SplitSignLists | src/components/Calculator.tsx:214-243 | the loop appends exactly one entry per test point to each of the three lists, in test-point order |
| SignAnalysis.WholeSignList | src/components/Calculator.tsx:283-299 | the loop appends exactly one entry per test point, in order |
| SignAnalysis.SignRun | src/components/Calculator.tsx:187-196 | the split path runs exactly when the pattern matches, with its two groups; otherwise the whole-expression path runs |
| SignAnalysis.AnalyzeSign | src/components/Calculator.tsx:175-310 | the step-by-step routine produces exactly `SignRun` |
| SignAnalysis.SplitRunShape | src/components/Calculator.tsx:185-247 | split path: six steps (identify, separate, numerator heading, three lists) iff numerator and denominator both parse and compile; otherwise the error step alone |
| SignAnalysis.SplitRunTables | src/components/Calculator.tsx:214-247 | split path: each of the three lists has 11 entries, entry `i` being the cells of test point `i` |
| SignAnalysis.WholeRunShape | src/components/Calculator.tsx:249-301 | other paths: three steps iff the expression parses and compiles, the second saying "rational function" iff the input contains `/`, the table having 9 entries, one per test point |
| QuotientPattern.MatchAtComplete | src/components/Calculator.tsx:192 | whenever the pattern matches at a start position, the engine reports that match's two groups |
| QuotientPattern.MatchAtSound | src/components/Calculator.tsx:192 | the positions the engine finds form a match of the pattern |
| QuotientPattern.MatchAtCorrect | src/components/Calculator.tsx:192 | the engine succeeds at a start position iff the pattern matches there, and reports that match's groups |
| QuotientPattern.SplitQuotientNone | src/components/Calculator.tsx:192-194 | the split fails iff the pattern matches at no start position |
| QuotientPattern.SplitQuotientLeftmost | src/components/Calculator.tsx:192 | a successful split reports the groups of the leftmost match |
| QuotientPattern.SplitQuotientGroups | src/components/Calculator.tsx:188-196 | numerator and denominator are non-empty and free of `)`, and a split input contains `/` |
| QuotientPattern.QuotientRoundTrip | src/components/Calculator.tsx:192-196 | `(n)/(d)` with non-empty groups free of `)` splits back into `n` and `d` |
| QuotientPattern.DefaultInputSplit | src/components/Calculator.tsx:14 | the default input splits into `x^2 - 8*x + 15` over `x^2 - 5` |
| JsText.ReplaceBySelf | src/components/Calculator.tsx:26 | replacing a character by itself changes nothing |
| Notation.LatexIsCdot | src/components/Calculator.tsx:25-29 | both replace chains equal the single `*` → ` \cdot ` rewrite |
| Notation.CdotRemovesStars | src/components/Calculator.tsx:27 | the rewrite leaves no `*` and is 6 characters longer per `*` |
| Notation.CdotSplits | src/components/Calculator.tsx:27 | the rewrite works character by character: it distributes over concatenation and leaves `*`-free text unchanged |
| Notation.UncdotCdot | src/components/Calculator.tsx:27 | on expressions without a backslash the rewrite is undone by reading ` \cdot ` back as `*` |
| LimitAnalysis.LimitRunShape | src/components/Calculator.tsx:19-77 | error step alone iff no result; 3 steps iff direct substitution is finite, with that value as result; 5 steps iff it is not and both one-sided values evaluate, with their average as result |
| LimitAnalysis.CalculateLimit | src/components/Calculator.tsx:19-77 | the step-by-step routine produces exactly `LimitRun` |
| LimitAnalysis.LimitIsMidpoint | src/components/Calculator.tsx:61-72 | with finite one-sided values the reported limit lies between them and equals them when they agree |
| LimitAnalysis.OneSidedValuesNeverCompared | src/components/Calculator.tsx:68-69 | for `1/x` at 0 the one-sided values -10000 and 10000 are averaged to 0 and the conclusion is written anyway |
| DerivativeAnalysis.DerivativeRunShape | src/components/Calculator.tsx:79-115 | four steps iff the input parses, its tree differentiates, the derivative compiles and its value at the point does not throw; the input itself is never compiled. The result is the derivative's text; otherwise the error step alone |
| DerivativeAnalysis.CalculateDerivative | src/components/Calculator.tsx:79-115 | the step-by-step routine produces exactly `DerivativeRun` |
| ContinuityAnalysis.PointValue | src/components/Calculator.tsx:134-141 | `fx0` is undefined iff evaluation at the point throws, otherwise the value |
| ContinuityAnalysis.ContinuityVerdict | src/components/Calculator.tsx:150-163 | conclusions tried in order: limits differ iff not close; undefined iff close and no value; mismatch iff close with a value not close; continuous iff all three hold |
| ContinuityAnalysis.ContinuousIffThreeConditions | src/components/Calculator.tsx:150-151 | "continuous" iff both one-sided values and `f(x0)` are finite, the one-sided values are within 0.01, and the left one is within 0.01 of `f(x0)` |
| ContinuityAnalysis.NonFiniteValueCountsAsDefined | src/components/Calculator.tsx:151-160 | a non-finite `f(x0)` that does not throw is never "undefined" nor "continuous"; with close limits it is a mismatch |
| ContinuityAnalysis.ContinuityRunShape | src/components/Calculator.tsx:117-173 | six steps iff parsing, compiling and both one-sided evaluations succeed; otherwise the error step alone |
| ContinuityAnalysis.ContinuityRunSteps | src/components/Calculator.tsx:128-168 | the six steps in order, and "Contínua" as result iff the verdict is continuous |
| ContinuityAnalysis.CheckContinuity | src/components/Calculator.tsx:117-173 | the step-by-step routine produces exactly `ContinuityRun` |
| Calculator.TitlesDistinct | src/components/Calculator.tsx:329-337 | each analysis type has its own title |
| Calculator.HandleCalculate | src/components/Calculator.tsx:312-327 | exactly the routine the analysis type selects runs |
| JsText.TrimInfix | src/components/MathDisplay.tsx:21 | `trim()` gives the part of the line between a white-space prefix and a white-space suffix |
| JsText.TrimCharacterised | src/components/MathDisplay.tsx:21 | conversely, any such part that neither starts nor ends with white space is the trimmed line, so `trim()` removes exactly the leading and trailing white space |
| JsText.TrimBlank | src/components/MathDisplay.tsx:43 | a piece trims to nothing iff it is all white space |
| JsText.JoinSplit | src/components/MathDisplay.tsx:14 | joining the pieces of a split on the same character gives the string back |
| JsText.SplitJoin | src/components/MathDisplay.tsx:14 | splitting a join of separator-free pieces gives the pieces back |
| MathDisplay.EmptyIsText | src/components/MathDisplay.tsx:21 | an empty line is never a table line |
| MathDisplay.RunStart | src/components/MathDisplay.tsx:20-35 | the start of the run of one kind that ends at a line: every line from it has that kind, the line before it has the other kind |
| MathDisplay.TextOfSnoc | src/components/MathDisplay.tsx:72 | appending a line to a text run's text adds a newline before it exactly when the text is not empty |
| MathDisplay.TextOfEmpty | src/components/MathDisplay.tsx:24-31 | a run's text is empty iff all its lines are dropped |
| MathDisplay.DropLeadingEmptySnoc | src/components/MathDisplay.tsx:72 | an empty line arriving while `currentText` is empty is dropped; any other line is kept |
| MathDisplay.ScanLine | src/components/MathDisplay.tsx:20-74 | the `forEach` callback keeps the scanner state invariant: finished runs flushed, current run pending |
| MathDisplay.Segment | src/components/MathDisplay.tsx:10-117 | the scan with its final flush produces exactly `Segmentation` |
| MathDisplay.NoBarIsOneText | src/components/MathDisplay.tsx:122-126 | content without `|` is one text block holding the whole content |
| MathDisplay.BlocksWellFormed | src/components/MathDisplay.tsx:20-74 | every table block holds at least one line and only table lines; every text block is non-empty |
| MathDisplay.SegmentationWellFormed | src/components/MathDisplay.tsx:77-117 | the same for the whole scanned content, final flush included |
| MathDisplay.MaximalRunIsFlushed | src/components/MathDisplay.tsx:20-74 | a maximal run of one kind is flushed right after the blocks before it; a maximal table run becomes exactly one table |
| MathDisplay.BlocksPrefix | src/components/MathDisplay.tsx:20-74 | blocks are emitted in line order and never revised |
| MathDisplay.KeptThroughTable | src/components/MathDisplay.tsx:21-34 | every line of a table run is kept |
| MathDisplay.DroppedInText | src/components/MathDisplay.tsx:24-31 | a text line is dropped iff it and all earlier lines of its run are empty |
| MathDisplay.KeptThroughText | src/components/MathDisplay.tsx:36-72 | a text run keeps its lines less its leading empty lines |
| MathDisplay.FlushLines | src/components/MathDisplay.tsx:23-71 | a flushed table shows all its lines; a flushed text shows its lines less the leading empty ones |
| MathDisplay.BlocksKeepLines | src/components/MathDisplay.tsx:20-74 | every line that is not dropped lands in exactly one block, in order |
| MathDisplay.SegmentationKeepsLines | src/components/MathDisplay.tsx:14-117 | the same for the whole content |
| MathDisplay.CellsOfShape | src/components/MathDisplay.tsx:43 | no more cells than pieces; each cell is trimmed, not blank, and `|`-free when the pieces are |
| MathDisplay.CellsShape | src/components/MathDisplay.tsx:43-58 | every cell of a line is trimmed, not blank and free of `|` |
| MathDisplay.CellsRoundTrip | src/components/MathDisplay.tsx:43 | a line `| c1 | … | cn |` built from such cells gives those cells back |
| MathDisplay.RowsCount | src/components/MathDisplay.tsx:42-47 | every line gives a row iff no line contains `---` |
| MathDisplay.HeaderOnlyFirst | src/components/MathDisplay.tsx:44-50 | a row is the header iff it is the first row and comes from the table's first line |
| MathDisplay.RowsWithoutSeparator | src/components/MathDisplay.tsx:42-63 | without separator lines, row `i` is line `i`, and only row 0 is the header |
| MathDisplay.RowsFromAppend | src/components/MathDisplay.tsx:42-47 | the rows of two consecutive stretches of table lines are the rows of each, the second numbered on from the first |
| MathDisplay.SeparatorSkipped | src/components/MathDisplay.tsx:45-47 | a separator line renders nothing: the rows are those of the lines before it, then of those after it |
| MathText.CloseDoubleFirst | src/components/MathDisplay.tsx:131 | the lazy `$$…$$` closes at the first `$$` after the opening one, and fails only when there is none |
| MathText.CloseSingleFirst | src/components/MathDisplay.tsx:131 | the lazy `$…$` closes at the first `$` after the opening one, and fails only when there is none |
| MathText.MatchAtSpec | src/components/MathDisplay.tsx:131 | a match starts at `q` iff a `$` is there and another follows; it is the shortest `$$…$$` when a closing `$$` exists, otherwise the shortest `$…$` |
| MathText.MatchDelimited | src/components/MathDisplay.tsx:131 | every match has at least two characters and a `$` at each end |
| MathText.UnmatchedDollarIsLast | src/components/MathDisplay.tsx:131 | a `$` where no match starts is the last `$` of the content |
| MathText.SplitPartsConcat | src/components/MathDisplay.tsx:131 | concatenating the parts gives the content back |
| MathText.SplitPartsShape | src/components/MathDisplay.tsx:131 | an odd number of parts; odd-index parts are delimited matches; text parts before the last hold no `$`, the last at most one |
| MathText.SplitPartsAlone | src/components/MathDisplay.tsx:131 | a single part iff no match starts anywhere, and then it is the whole content |
| MathText.SplitPartsLeftmost | src/components/MathDisplay.tsx:131 | the first match is at the least index where the regex matches; the text before it is the first part; splitting resumes after it |
| MathText.AsWrittenDiffers | src/components/MathDisplay.tsx:136-151 | the classification as written and the corrected one differ exactly on `$`, `$$` and `$$$` |
| MathText.LoneDollarVanishes | src/components/MathDisplay.tsx:145-147 | the content `$` is one part, which the written classification shows as empty inline math |
| MathText.ClassifyAsWrittenPlain | src/components/MathDisplay.tsx:136-151 | as written, a part is plain text iff it is not a lone `$` and does not both start and end with `$` |
| MathText.ShownAsWrittenKinds | src/components/MathDisplay.tsx:131-151 | as written, an odd number of pieces; a piece is plain text iff its index is even, except a final text part that is a lone `$`, which is shown as math |
| MathText.ClassifyKeepsPart | src/components/MathDisplay.tsx:136-151 | corrected classification: a part shown as math is its math between its delimiters; any other part is shown as it is. The code as written fails this on `$` |
| MathText.ShownRoundTrip | src/components/MathDisplay.tsx:129-155 | corrected classification: writing every shown piece back with its delimiters gives the content |
| MathText.ShownKinds | src/components/MathDisplay.tsx:136-151 | corrected classification: an odd number of pieces, and a piece is plain text iff its index is even. As written, a final lone `$` breaks this |

## Left out

- The expression library (parsing, compiling, evaluating, symbolic differentiation) is a parameter of the model. Nothing is assumed about what it computes.
- A value of `evaluate` that is not a number is not modelled; for example a complex number, a matrix or a unit. Every successful evaluation yields a JavaScript number.
- `parseFloat(point)` is not modelled. The point is an exact real, so NaN points are not covered.
- `toFixed(4)` formatting is not modelled. Steps carry the numbers they show, not their text.
- Floating-point rounding is not modelled. `x0 ± 0.0001`, the average and the differences are exact reals; only infinities and NaN follow JavaScript.
- The Portuguese step texts are modelled as `Step` constructors carrying the data each text shows.
- The sign study writes "−" (U+2212) on the split path and "-" on the other paths. Both are the label `Minus`.
- React state, `setSteps` and `setResult` are not modelled. Each routine returns its steps and result instead.
- JSX, element keys, CSS classes and KaTeX rendering (`BlockMath`, `InlineMath`) are not modelled.
- Calculator.Title: the `default` branch of `getTitle` is not modelled, because no value of the four-member type reaches it.
- MathDisplay.Row: a row keeps its table line rather than its cells; the cells it shows are `Cells(line)`.
- MathDisplay.Segment: the text given to `MathText` for a text block or a cell is not tokenized inside the block. `MathText.Shown` applies to any such text.
- Characters are Unicode scalar values, not UTF-16 code units. This changes nothing here, since `$`, `|`, `-`, `/`, `(`, `)` and the white space characters are single code units.
- src/components/GraphDisplay.tsx and src/components/SolutionSteps.tsx are not part of this model. They only draw and render.

## Findings

| source | as written | input that shows it | evidently intended | confidence | as-written member | corrected member |
|---|---|---|---|---|---|---|
| src/components/MathDisplay.tsx:136-151 | The block and inline tests check the prefix and the suffix separately, and both may be the same characters. A text part that is a lone `$` passes the inline test and is shown as empty inline math, so the `$` disappears. A part `$$`, an empty `$…$` match, passes the block test. | the content `$`, or a table cell holding only `$` | a part is math only when its opening and closing delimiters are distinct characters, so a lone `$` stays visible as text and every part's delimiters plus its math give the part back | high; not executed | MathText.ClassifyAsWritten, MathText.LoneDollarVanishes, MathText.ShownAsWrittenKinds | MathText.Classify, MathText.ShownRoundTrip, MathText.ClassifyKeepsPart, MathText.ShownKinds |
