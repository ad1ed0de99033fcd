/** The segmenter of `MathDisplay` (src/components/MathDisplay.tsx): a step string is cut into text
    blocks and markdown table blocks, line by line, and table rows are split into cells.
    Rendering (KaTeX, the JSX elements and their styling) is not modelled. */
module MathDisplay {
  import opened JsText

  /** What the scanner emits: a text block (rendered through `MathText`) or a table given by its raw lines. */
  datatype Block = Text(text: string) | Table(rows: seq<string>)

  /** `line.trim().startsWith('|')`. */
  predicate IsTableLine(line: string) {
    var t := Trim(line);
    |t| > 0 && t[0] == '|'
  }

  /** A line that is empty is never a table line. */
  lemma EmptyIsText()
    ensures !IsTableLine("")
  {
  }

  /** The kind of every line: `true` for a table line. */
  function Kinds(ls: seq<string>): seq<bool> {
    seq(|ls|, k requires 0 <= k < |ls| => IsTableLine(ls[k]))
  }

  /** Table lines are never empty, so a line of the table kind is never an empty line. */
  predicate TableLinesNonEmpty(ls: seq<string>, kinds: seq<bool>)
    requires |kinds| == |ls|
  {
    forall k :: 0 <= k < |ls| && kinds[k] ==> ls[k] != ""
  }

  lemma KindsOfLines(ls: seq<string>)
    ensures |Kinds(ls)| == |ls| && TableLinesNonEmpty(ls, Kinds(ls))
  {
    EmptyIsText();
    forall k | 0 <= k < |ls| && Kinds(ls)[k]
      ensures ls[k] != ""
    {
      assert IsTableLine(ls[k]);
    }
  }

  // ---------------------------------------------------------------------------------------------
  // The segmentation, stated over runs of lines of one kind

  /** The index where the run of lines of one kind that ends at line `n - 1` begins. */
  function RunStart(kinds: seq<bool>, n: nat): (j: nat)
    requires n <= |kinds|
    ensures n == 0 ==> j == 0
    ensures 0 < n ==> j < n
    ensures forall k :: j <= k < n ==> kinds[k] == kinds[n - 1]
    ensures 0 < j ==> kinds[j - 1] != kinds[n - 1]
    decreases n
  {
    if n <= 1 then 0
    else if kinds[n - 2] == kinds[n - 1] then RunStart(kinds, n - 1)
    else n - 1
  }

  /** A stretch of one kind ending at `n - 1` that cannot be extended to the left is the run. */
  lemma RunStartUnique(kinds: seq<bool>, m: nat, n: nat)
    requires m < n <= |kinds|
    requires forall k :: m <= k < n ==> kinds[k] == kinds[n - 1]
    requires 0 < m ==> kinds[m - 1] != kinds[n - 1]
    ensures RunStart(kinds, n) == m
  {
  }

  /** The lines of a text run with the leading empty lines removed: `currentText` stays empty while
      empty lines arrive. */
  function DropLeadingEmpty(run: seq<string>): seq<string>
    decreases |run|
  {
    if run == [] || run[0] != "" then run else DropLeadingEmpty(run[1..])
  }

  /** What is left is a suffix that starts with a non-empty line, and only empty lines were removed. */
  lemma {:induction false} DropLeadingEmptyShape(run: seq<string>)
    ensures DropLeadingEmpty(run) == [] || DropLeadingEmpty(run)[0] != ""
    ensures |DropLeadingEmpty(run)| <= |run|
    ensures DropLeadingEmpty(run) == run[|run| - |DropLeadingEmpty(run)|..]
    ensures forall k :: 0 <= k < |run| - |DropLeadingEmpty(run)| ==> run[k] == ""
    decreases |run|
  {
    if run != [] && run[0] == "" {
      DropLeadingEmptyShape(run[1..]);
      assert forall k :: 1 <= k < |run| - |DropLeadingEmpty(run)| ==> run[k] == run[1..][k - 1];
    }
  }

  /** The text a run of non-table lines accumulates in `currentText`. */
  function TextOf(run: seq<string>): string {
    Join(DropLeadingEmpty(run), '\n')
  }

  /** Nothing is left exactly when every line is empty. */
  lemma DropLeadingEmptyAll(run: seq<string>)
    ensures DropLeadingEmpty(run) == [] <==> forall k :: 0 <= k < |run| ==> run[k] == ""
  {
    var d := DropLeadingEmpty(run);
    DropLeadingEmptyShape(run);
    if d != [] {
      assert run[|run| - |d|] == d[0];
    }
  }

  /** One more line: it is dropped too while nothing is kept and it is empty, and kept otherwise. */
  lemma DropLeadingEmptySnoc(run: seq<string>, line: string)
    ensures DropLeadingEmpty(run + [line]) ==
      if DropLeadingEmpty(run) == [] then (if line == "" then [] else [line])
      else DropLeadingEmpty(run) + [line]
  {
    var d := DropLeadingEmpty(run);
    var e := DropLeadingEmpty(run + [line]);
    DropLeadingEmptyAll(run);
    DropLeadingEmptyShape(run);
    DropLeadingEmptyShape(run + [line]);
    if d == [] {
      assert forall k :: 0 <= k < |run| ==> (run + [line])[k] == "";
      if e != [] {
        assert (run + [line])[|run| + 1 - |e|] == e[0];
        assert |e| == 1;
        assert e == [line];
      } else {
        assert (run + [line])[|run|] == line;
      }
    } else {
      assert |e| == |d| + 1 by {
        assert (run + [line])[|run| - |d|] == d[0];
      }
      assert e == d + [line];
    }
  }

  lemma {:induction false} JoinNonEmpty(xs: seq<string>)
    requires xs != [] && xs[0] != ""
    ensures Join(xs, '\n') != ""
  {
    if |xs| > 1 {
      assert |Join(xs, '\n')| >= |xs[0]|;
    }
  }

  /** The text of a run is empty exactly when nothing of it is kept. */
  lemma TextOfEmpty(run: seq<string>)
    ensures TextOf(run) == "" <==> DropLeadingEmpty(run) == []
  {
    var d := DropLeadingEmpty(run);
    DropLeadingEmptyShape(run);
    if d != [] {
      JoinNonEmpty(d);
    }
  }

  /** One more line on a text run: `currentText += (currentText ? '\n' : '') + line`. */
  lemma TextOfSnoc(run: seq<string>, line: string)
    ensures TextOf(run + [line]) == TextOf(run) + (if TextOf(run) != "" then "\n" else "") + line
  {
    var d := DropLeadingEmpty(run);
    DropLeadingEmptySnoc(run, line);
    DropLeadingEmptyShape(run);
    TextOfEmpty(run);
    if d == [] {
      assert Join([line], '\n') == line;
    } else {
      JoinSnoc(d, line, '\n');
      JoinNonEmpty(d);
    }
  }

  /** What the scanner emits when a run ends: a table holding its lines, or its text when not empty. */
  function Flush(run: seq<string>, table: bool): seq<Block> {
    if table then [Table(run)]
    else if TextOf(run) == "" then []
    else [Text(TextOf(run))]
  }

  /** A block as the scanner emits it: a table holds at least one line and only table lines;
      a text block is never empty. */
  predicate WellFormed(b: Block) {
    match b
    case Table(rows) => rows != [] && forall k :: 0 <= k < |rows| ==> IsTableLine(rows[k])
    case Text(t) => t != ""
  }

  /** The blocks of the first `n` lines: the blocks of everything before the last run, then that run's. */
  function Blocks(ls: seq<string>, kinds: seq<bool>, n: nat): seq<Block>
    requires |kinds| == |ls| && n <= |ls|
    decreases n
  {
    if n == 0 then []
    else
      var j := RunStart(kinds, n);
      Blocks(ls, kinds, j) + Flush(ls[j..n], kinds[n - 1])
  }

  /** What `MathDisplay` lays out: the whole content as one text block when it has no '|',
      otherwise the blocks of its lines. */
  function Segmentation(content: string): seq<Block> {
    if '|' !in content then [Text(content)]
    else
      var lines := Split(content, '\n');
      Blocks(lines, Kinds(lines), |lines|)
  }

  // ---------------------------------------------------------------------------------------------
  // The scanner

  lemma SnocSlice<T>(s: seq<T>, j: nat, i: nat)
    requires j <= i < |s|
    ensures s[j..i + 1] == s[j..i] + [s[i]]
  {
  }

  /** The run that ends at line `i` either continues the run before it or starts at `i`. */
  lemma RunStartStep(kinds: seq<bool>, i: nat)
    requires 0 < i < |kinds|
    ensures RunStart(kinds, i + 1) == if kinds[i] == kinds[i - 1] then RunStart(kinds, i) else i
  {
  }

  /** A table line appended to the pending table lines. */
  lemma TableLineStep(ls: seq<string>, j: nat, i: nat, tableLines: seq<string>)
    requires j <= i < |ls| && tableLines == ls[j..i]
    ensures tableLines + [ls[i]] == ls[j..i + 1]
  {
    SnocSlice(ls, j, i);
  }

  /** A text line appended to `currentText`. */
  lemma TextLineStep(ls: seq<string>, j: nat, i: nat, currentText: string)
    requires j <= i < |ls| && currentText == TextOf(ls[j..i])
    ensures currentText + (if currentText != "" then "\n" else "") + ls[i] == TextOf(ls[j..i + 1])
  {
    SnocSlice(ls, j, i);
    TextOfSnoc(ls[j..i], ls[i]);
  }

  /** Nothing is pending at the start of a run. */
  lemma EmptyRun(ls: seq<string>, i: nat)
    requires i <= |ls|
    ensures ls[i..i] == [] && TextOf(ls[i..i]) == ""
  {
    assert ls[i..i] == [];
  }

  /** The scanner's state after the first `i` lines: the blocks of every finished run are out, and the
      current run, from `RunStart(kinds, i)` to `i`, is pending in `tableLines` or in `currentText`. */
  predicate Scanned(ls: seq<string>, kinds: seq<bool>, i: nat, blocks: seq<Block>,
                    currentText: string, inTable: bool, tableLines: seq<string>)
    requires |kinds| == |ls| && i <= |ls|
  {
    var j := RunStart(kinds, i);
    (if i == 0 then !inTable else inTable == kinds[i - 1])
    && blocks == Blocks(ls, kinds, j)
    && (inTable ==> tableLines == ls[j..i] && currentText == "")
    && (!inTable ==> tableLines == [] && currentText == TextOf(ls[j..i]))
  }

  /** The `forEach` callback on line `i`: a table line closes a pending text and joins `tableLines`;
      any other line closes a pending table and joins `currentText`. */
  method ScanLine(ls: seq<string>, ghost kinds: seq<bool>, i: nat, blocks: seq<Block>,
                  currentText: string, inTable: bool, tableLines: seq<string>)
    returns (blocks': seq<Block>, currentText': string, inTable': bool, tableLines': seq<string>)
    requires |kinds| == |ls| && i < |ls| && kinds[i] == IsTableLine(ls[i])
    requires Scanned(ls, kinds, i, blocks, currentText, inTable, tableLines)
    ensures Scanned(ls, kinds, i + 1, blocks', currentText', inTable', tableLines')
  {
    ghost var j := RunStart(kinds, i);
    var line := ls[i];
    if 0 < i {
      RunStartStep(kinds, i);
    }
    blocks', currentText', inTable', tableLines' := blocks, currentText, inTable, tableLines;
    if IsTableLine(line) {
      if !inTable' {
        // the text run ls[j..i] ends here
        if currentText' != "" {
          blocks' := blocks' + [Text(currentText')];
          currentText' := "";
        }
        inTable' := true;
        j := i;
        EmptyRun(ls, i);
      }
      TableLineStep(ls, j, i, tableLines');
      tableLines' := tableLines' + [line];
    } else {
      if inTable' {
        // the table run ls[j..i] ends here
        blocks' := blocks' + [Table(tableLines')];
        tableLines' := [];
        inTable' := false;
        j := i;
        EmptyRun(ls, i);
      }
      TextLineStep(ls, j, i, currentText');
      currentText' := currentText' + (if currentText' != "" then "\n" else "") + line;
    }
  }

  /** The whole of `MathDisplay`'s scan: the `forEach` over the lines, then the final flush of whatever
      run is still pending. */
  method Segment(content: string) returns (blocks: seq<Block>)
    ensures blocks == Segmentation(content)
  {
    if '|' !in content {
      return [Text(content)];
    }
    var lines := Split(content, '\n');
    ghost var kinds := Kinds(lines);
    blocks := [];
    var currentText := "";
    var inTable := false;
    var tableLines: seq<string> := [];
    EmptyRun(lines, 0);
    var i := 0;
    while i < |lines|
      invariant i <= |lines|
      invariant Scanned(lines, kinds, i, blocks, currentText, inTable, tableLines)
    {
      assert kinds[i] == IsTableLine(lines[i]);
      blocks, currentText, inTable, tableLines := ScanLine(lines, kinds, i, blocks, currentText, inTable, tableLines);
      i := i + 1;
    }
    if inTable && |tableLines| > 0 {
      blocks := blocks + [Table(tableLines)];
    }
    if currentText != "" {
      blocks := blocks + [Text(currentText)];
    }
  }

  // ---------------------------------------------------------------------------------------------
  // Properties of the segmentation

  /** Content without '|' is shown whole, as one text block. */
  lemma NoBarIsOneText(content: string)
    requires '|' !in content
    ensures Segmentation(content) == [Text(content)]
  {
  }

  /** Every block emitted for real lines is well formed: tables hold table lines only, texts are not empty. */
  lemma {:induction false} BlocksWellFormed(ls: seq<string>, kinds: seq<bool>, n: nat)
    requires |kinds| == |ls| && n <= |ls|
    requires forall k :: 0 <= k < |ls| ==> kinds[k] == IsTableLine(ls[k])
    ensures forall b :: b in Blocks(ls, kinds, n) ==> WellFormed(b)
    decreases n
  {
    if 0 < n {
      var j := RunStart(kinds, n);
      var run := ls[j..n];
      BlocksWellFormed(ls, kinds, j);
      if kinds[n - 1] {
        forall k | 0 <= k < |run|
          ensures IsTableLine(run[k])
        {
          assert run[k] == ls[j + k] && kinds[j + k];
        }
        assert WellFormed(Table(run));
      }
      assert Blocks(ls, kinds, n) == Blocks(ls, kinds, j) + Flush(run, kinds[n - 1]);
    }
  }

  /** Every block of a content that goes through the line scan is well formed. */
  lemma SegmentationWellFormed(content: string)
    requires '|' in content
    ensures forall b :: b in Segmentation(content) ==> WellFormed(b)
  {
    var lines := Split(content, '\n');
    BlocksWellFormed(lines, Kinds(lines), |lines|);
  }

  /** A maximal run of lines of one kind, from `s` to `e`, is flushed right after the blocks of the lines
      before it: a maximal run of table lines becomes exactly one table holding those lines. */
  lemma MaximalRunIsFlushed(ls: seq<string>, kinds: seq<bool>, s: nat, e: nat)
    requires |kinds| == |ls| && s < e <= |ls|
    requires forall k :: s <= k < e ==> kinds[k] == kinds[s]
    requires 0 < s ==> kinds[s - 1] != kinds[s]
    ensures Blocks(ls, kinds, e) == Blocks(ls, kinds, s) + Flush(ls[s..e], kinds[s])
  {
    RunStartUnique(kinds, s, e);
  }

  /** At a place where the kind of line changes, the blocks emitted so far stay at the head of every
      later result: blocks are emitted in the order of their lines and never revised. */
  lemma {:induction false} BlocksPrefix(ls: seq<string>, kinds: seq<bool>, e: nat, n: nat)
    requires |kinds| == |ls| && e <= n <= |ls|
    requires 0 < e < |ls| ==> kinds[e - 1] != kinds[e]
    ensures Blocks(ls, kinds, e) <= Blocks(ls, kinds, n)
    decreases n
  {
    if e < n {
      var j := RunStart(kinds, n);
      assert e <= j;
      BlocksPrefix(ls, kinds, e, j);
    }
  }

  /** A line is dropped when it is empty and comes first, right after a table line, or right after
      another dropped line: it arrives while `currentText` is still empty. */
  predicate Dropped(ls: seq<string>, kinds: seq<bool>, i: nat)
    requires |kinds| == |ls| && i < |ls|
  {
    ls[i] == "" && (i == 0 || kinds[i - 1] || Dropped(ls, kinds, i - 1))
  }

  /** The first `n` lines less the dropped ones, in order. */
  function Kept(ls: seq<string>, kinds: seq<bool>, n: nat): seq<string>
    requires |kinds| == |ls| && n <= |ls|
    decreases n
  {
    if n == 0 then []
    else Kept(ls, kinds, n - 1) + (if Dropped(ls, kinds, n - 1) then [] else [ls[n - 1]])
  }

  /** The lines a block shows: a table's rows, or the lines of a text. */
  function LinesOf(bs: seq<Block>): seq<string>
    decreases |bs|
  {
    if bs == [] then []
    else
      (match bs[0] case Table(rows) => rows case Text(t) => Split(t, '\n')) + LinesOf(bs[1..])
  }

  lemma {:induction false} LinesOfAppend(a: seq<Block>, b: seq<Block>)
    ensures LinesOf(a + b) == LinesOf(a) + LinesOf(b)
    decreases |a|
  {
    if a != [] {
      assert (a + b)[0] == a[0] && (a + b)[1..] == a[1..] + b;
      LinesOfAppend(a[1..], b);
    } else {
      assert a + b == b;
    }
  }

  /** Within a run of table lines that starts at `j`, every line is kept: table lines are not empty. */
  lemma {:induction false} KeptThroughTable(ls: seq<string>, kinds: seq<bool>, j: nat, m: nat)
    requires |kinds| == |ls| && TableLinesNonEmpty(ls, kinds)
    requires j <= m <= |ls|
    requires forall k :: j <= k < m ==> kinds[k]
    ensures Kept(ls, kinds, m) == Kept(ls, kinds, j) + ls[j..m]
    decreases m
  {
    if m == j {
      assert ls[j..m] == [];
    } else {
      KeptThroughTable(ls, kinds, j, m - 1);
      SnocSlice(ls, j, m - 1);
      assert ls[m - 1] != "";
      assert !Dropped(ls, kinds, m - 1);
      var before := Kept(ls, kinds, j);
      assert Kept(ls, kinds, m) == before + ls[j..m - 1] + [ls[m - 1]];
      assert before + ls[j..m - 1] + [ls[m - 1]] == before + (ls[j..m - 1] + [ls[m - 1]]);
    }
  }

  /** Within a run of text lines that starts at `j`, a line is dropped exactly when it and every line
      of the run before it are empty. */
  lemma {:induction false} DroppedInText(ls: seq<string>, kinds: seq<bool>, j: nat, m: nat)
    requires |kinds| == |ls|
    requires j < m <= |ls|
    requires forall k :: j <= k < m ==> !kinds[k]
    requires 0 < j < |ls| ==> kinds[j - 1]
    ensures Dropped(ls, kinds, m - 1) <==> DropLeadingEmpty(ls[j..m]) == []
    decreases m
  {
    var prev := ls[j..m - 1];
    var x := ls[m - 1];
    SnocSlice(ls, j, m - 1);
    DropLeadingEmptySnoc(prev, x);
    assert DropLeadingEmpty(ls[j..m]) == DropLeadingEmpty(prev + [x]);
    if m - 1 == j {
      assert prev == [];
    } else {
      assert !kinds[m - 2];
      DroppedInText(ls, kinds, j, m - 1);
    }
  }

  /** The first `m` lines kept: those of the first `m - 1`, then the last line unless it is dropped. */
  lemma KeptSnoc(ls: seq<string>, kinds: seq<bool>, m: nat)
    requires |kinds| == |ls| && 0 < m <= |ls|
    ensures Kept(ls, kinds, m) ==
      Kept(ls, kinds, m - 1) + (if Dropped(ls, kinds, m - 1) then [] else [ls[m - 1]])
  {
  }

  /** The list step of `KeptThroughText`, on plain sequences: `d` is what a run keeps, `all` what it
      keeps with `x` appended, and `x` itself is kept exactly when `all` is not empty. */
  lemma KeptStep(before: seq<string>, d: seq<string>, x: string, all: seq<string>, dropped: bool)
    requires all == if d == [] then (if x == "" then [] else [x]) else d + [x]
    requires dropped <==> all == []
    ensures before + d + (if dropped then [] else [x]) == before + all
  {
    if !dropped && d != [] {
      assert before + d + [x] == before + (d + [x]);
    }
  }

  /** Within a run of text lines that starts at `j`, the kept lines are the run's lines less its
      leading empty lines. */
  lemma {:induction false} KeptThroughText(ls: seq<string>, kinds: seq<bool>, j: nat, m: nat)
    requires |kinds| == |ls|
    requires j <= m <= |ls|
    requires forall k :: j <= k < m ==> !kinds[k]
    requires 0 < j < |ls| ==> kinds[j - 1]
    ensures Kept(ls, kinds, m) == Kept(ls, kinds, j) + DropLeadingEmpty(ls[j..m])
    decreases m
  {
    if m == j {
      assert ls[j..m] == [];
    } else {
      KeptThroughText(ls, kinds, j, m - 1);
      DroppedInText(ls, kinds, j, m);
      KeptSnoc(ls, kinds, m);
      var prev := ls[j..m - 1];
      var x := ls[m - 1];
      SnocSlice(ls, j, m - 1);
      DropLeadingEmptySnoc(prev, x);
      KeptStep(Kept(ls, kinds, j), DropLeadingEmpty(prev), x, DropLeadingEmpty(ls[j..m]), Dropped(ls, kinds, m - 1));
    }
  }

  /** The lines kept up to the end of the run that starts at `j`. */
  lemma KeptThroughRun(ls: seq<string>, kinds: seq<bool>, j: nat, m: nat)
    requires |kinds| == |ls| && TableLinesNonEmpty(ls, kinds)
    requires j < m <= |ls|
    requires forall k :: j <= k < m ==> kinds[k] == kinds[j]
    requires 0 < j ==> kinds[j - 1] != kinds[j]
    ensures Kept(ls, kinds, m) == Kept(ls, kinds, j) + (if kinds[j] then ls[j..m] else DropLeadingEmpty(ls[j..m]))
  {
    if kinds[j] {
      KeptThroughTable(ls, kinds, j, m);
    } else {
      KeptThroughText(ls, kinds, j, m);
    }
  }

  lemma {:induction false} DropLeadingEmptyKeepsOut(run: seq<string>, c: char)
    requires forall k :: 0 <= k < |run| ==> c !in run[k]
    ensures forall k :: 0 <= k < |DropLeadingEmpty(run)| ==> c !in DropLeadingEmpty(run)[k]
    decreases |run|
  {
    if run != [] && run[0] == "" {
      DropLeadingEmptyKeepsOut(run[1..], c);
    }
  }

  lemma LinesOfOne(b: Block)
    ensures LinesOf([b]) == match b case Table(rows) => rows case Text(t) => Split(t, '\n')
  {
    assert [b][1..] == [];
  }

  /** The lines a flushed run shows: all of a table run, a text run less its leading empty lines. */
  lemma FlushLines(run: seq<string>, table: bool)
    requires forall k :: 0 <= k < |run| ==> '\n' !in run[k]
    ensures LinesOf(Flush(run, table)) == if table then run else DropLeadingEmpty(run)
  {
    if table {
      LinesOfOne(Table(run));
    } else {
      TextOfEmpty(run);
      if DropLeadingEmpty(run) != [] {
        DropLeadingEmptyKeepsOut(run, '\n');
        SplitJoin(DropLeadingEmpty(run), '\n');
        LinesOfOne(Text(TextOf(run)));
      }
    }
  }

  /** Every line that is not dropped lands in exactly one block, in the order of the lines. */
  lemma {:induction false} BlocksKeepLines(ls: seq<string>, kinds: seq<bool>, n: nat)
    requires |kinds| == |ls| && TableLinesNonEmpty(ls, kinds) && n <= |ls|
    requires forall k :: 0 <= k < |ls| ==> '\n' !in ls[k]
    ensures LinesOf(Blocks(ls, kinds, n)) == Kept(ls, kinds, n)
    decreases n
  {
    if 0 < n {
      var j := RunStart(kinds, n);
      var run := ls[j..n];
      BlocksKeepLines(ls, kinds, j);
      LinesOfAppend(Blocks(ls, kinds, j), Flush(run, kinds[n - 1]));
      KeptThroughRun(ls, kinds, j, n);
      assert forall k :: 0 <= k < |run| ==> run[k] == ls[j + k];
      FlushLines(run, kinds[n - 1]);
    }
  }

  /** The whole content: every line that is not dropped is shown, once, in order. */
  lemma SegmentationKeepsLines(content: string)
    requires '|' in content
    ensures var lines := Split(content, '\n');
      LinesOf(Segmentation(content)) == Kept(lines, Kinds(lines), |lines|)
  {
    var lines := Split(content, '\n');
    KindsOfLines(lines);
    BlocksKeepLines(lines, Kinds(lines), |lines|);
  }

  // ---------------------------------------------------------------------------------------------
  // Table rows

  /** A rendered table row: whether it is the header row (`th` cells on a grey background), and the
      table line it comes from; the cells it shows are `Cells(line)`. */
  datatype Row = Row(header: bool, line: string)

  /** The pieces that are not blank, each trimmed (`filter(c => c.trim())`, then `cell.trim()`). */
  function CellsOf(pieces: seq<string>): seq<string>
    decreases |pieces|
  {
    if pieces == [] then []
    else
      var t := Trim(pieces[0]);
      (if t == "" then [] else [t]) + CellsOf(pieces[1..])
  }

  /** The cells of a table line: `tLine.split('|')`, blank pieces removed, the rest trimmed. */
  function Cells(line: string): seq<string> {
    CellsOf(Split(line, '|'))
  }

  /** No more cells than pieces; every cell is trimmed and not blank, and holds no '|' unless a
      piece did. */
  lemma {:induction false} CellsOfShape(pieces: seq<string>)
    ensures |CellsOf(pieces)| <= |pieces|
    ensures forall k :: 0 <= k < |CellsOf(pieces)| ==> CellsOf(pieces)[k] != "" && Trimmed(CellsOf(pieces)[k])
    ensures (forall k :: 0 <= k < |pieces| ==> '|' !in pieces[k]) ==>
      forall k :: 0 <= k < |CellsOf(pieces)| ==> '|' !in CellsOf(pieces)[k]
    decreases |pieces|
  {
    if pieces != [] {
      CellsOfShape(pieces[1..]);
      TrimKeepsOut(pieces[0], '|');
    }
  }

  /** Every cell of a line is trimmed, not blank and free of '|'. */
  lemma CellsShape(line: string)
    ensures forall k :: 0 <= k < |Cells(line)| ==>
      Cells(line)[k] != "" && Trimmed(Cells(line)[k]) && '|' !in Cells(line)[k]
  {
    CellsOfShape(Split(line, '|'));
  }

  lemma {:induction false} CellsOfTrimmed(cs: seq<string>)
    requires forall k :: 0 <= k < |cs| ==> cs[k] != "" && Trimmed(cs[k])
    ensures CellsOf(cs + [""]) == cs
    decreases |cs|
  {
    if cs == [] {
      assert [] + [""] == [""];
    } else {
      assert (cs + [""])[1..] == cs[1..] + [""];
      CellsOfTrimmed(cs[1..]);
      assert [cs[0]] + cs[1..] == cs;
    }
  }

  /** A row written as `| c1 | … | cn |` from cells that are trimmed, not blank and free of '|'
      gives those cells back. */
  lemma {:induction false} CellsRoundTrip(cs: seq<string>)
    requires |cs| >= 1
    requires forall k :: 0 <= k < |cs| ==> cs[k] != "" && Trimmed(cs[k]) && '|' !in cs[k]
    ensures Cells("|" + Join(cs, '|') + "|") == cs
  {
    var pieces := [""] + cs + [""];
    JoinSnoc(cs, "", '|');
    assert pieces == [""] + (cs + [""]);
    assert pieces[1..] == cs + [""];
    assert Join(pieces, '|') == "" + "|" + Join(cs + [""], '|');
    assert Join(pieces, '|') == "|" + Join(cs, '|') + "|";
    assert forall k :: 0 <= k < |pieces| ==> '|' !in pieces[k] by {
      forall k | 0 <= k < |pieces|
        ensures '|' !in pieces[k]
      {
        if 0 < k < |pieces| - 1 {
          assert pieces[k] == cs[k - 1];
        }
      }
    }
    SplitJoin(pieces, '|');
    CellsOfTrimmed(cs);
  }

  /** What `tableLines.map` makes of the line at index `k`: nothing for a separator line, otherwise
      a row of its cells that is the header exactly when `k` is 0. */
  function RowOf(line: string, k: nat): seq<Row> {
    if Includes(line, "---") then [] else [Row(k == 0, line)]
  }

  /** The rows of a table whose first line has index `k`. */
  function RowsFrom(rows: seq<string>, k: nat): (r: seq<Row>)
    ensures |r| <= |rows|
    decreases |rows|
  {
    if rows == [] then [] else RowOf(rows[0], k) + RowsFrom(rows[1..], k + 1)
  }

  /** Every line gives a row exactly when no line is a separator. */
  lemma {:induction false} RowsCount(rows: seq<string>, k: nat)
    ensures |RowsFrom(rows, k)| == |rows| <==> forall i :: 0 <= i < |rows| ==> !Includes(rows[i], "---")
    decreases |rows|
  {
    if rows != [] {
      RowsCount(rows[1..], k + 1);
      assert forall i :: 1 <= i < |rows| ==> rows[i] == rows[1..][i - 1];
    }
  }

  /** The header is the first row, and only when it comes from the table's first line. */
  lemma {:induction false} HeaderOnlyFirst(rows: seq<string>, k: nat)
    ensures forall i :: 0 <= i < |RowsFrom(rows, k)| ==>
      (RowsFrom(rows, k)[i].header <==> i == 0 && k == 0 && !Includes(rows[0], "---"))
    decreases |rows|
  {
    if rows != [] {
      HeaderOnlyFirst(rows[1..], k + 1);
      var r := RowsFrom(rows, k);
      var h := RowOf(rows[0], k);
      forall i | 0 <= i < |r|
        ensures r[i].header <==> i == 0 && k == 0 && !Includes(rows[0], "---")
      {
        if i >= |h| {
          assert r[i] == RowsFrom(rows[1..], k + 1)[i - |h|];
        }
      }
    }
  }

  /** Without separator lines every line becomes one row, in order, and only the first is the header. */
  lemma {:induction false} RowsWithoutSeparator(rows: seq<string>, k: nat)
    requires forall i :: 0 <= i < |rows| ==> !Includes(rows[i], "---")
    ensures |RowsFrom(rows, k)| == |rows|
    ensures forall i :: 0 <= i < |rows| ==> RowsFrom(rows, k)[i] == Row(k + i == 0, rows[i])
    decreases |rows|
  {
    if rows != [] {
      RowsWithoutSeparator(rows[1..], k + 1);
      var r := RowsFrom(rows, k);
      forall i | 0 < i < |rows|
        ensures r[i] == Row(k + i == 0, rows[i])
      {
        assert r[i] == RowsFrom(rows[1..], k + 1)[i - 1];
      }
    }
  }

  /** The rows of a non-empty stretch of lines: those of its first line, then those of the rest. */
  lemma RowsFromCons(rows: seq<string>, k: nat)
    requires rows != []
    ensures RowsFrom(rows, k) == RowOf(rows[0], k) + RowsFrom(rows[1..], k + 1)
  {
  }

  /** A separator line renders nothing: the rows are those of the lines before it and after it. */
  /** The rows of two consecutive stretches of table lines are the rows of each, in order. */
  lemma {:induction false} RowsFromAppend(a: seq<string>, b: seq<string>, k: nat)
    ensures RowsFrom(a + b, k) == RowsFrom(a, k) + RowsFrom(b, k + |a|)
    decreases |a|
  {
    if a == [] {
      assert a + b == b;
    } else {
      assert a + b == [a[0]] + (a[1..] + b);
      RowsFromAppend(a[1..], b, k + 1);
      RowsFromCons(a + b, k);
      RowsFromCons(a, k);
    }
  }

  lemma {:induction false} SeparatorSkipped(rows: seq<string>, k: nat, m: nat)
    requires m < |rows| && Includes(rows[m], "---")
    ensures RowsFrom(rows, k) == RowsFrom(rows[..m], k) + RowsFrom(rows[m + 1..], k + m + 1)
  {
    var before, sep, after := rows[..m], [rows[m]], rows[m + 1..];
    assert rows == before + (sep + after);
    var rest := RowsFrom(after, k + m + 1);
    RowsFromCons(sep, k + m);
    assert RowsFrom(sep, k + m) == [];
    RowsFromAppend(sep, after, k + m);
    assert RowsFrom(sep + after, k + m) == rest;
    RowsFromAppend(before, sep + after, k);
    assert RowsFrom(rows, k) == RowsFrom(before, k) + rest;
  }
}
