/** `MathText` (src/components/MathDisplay.tsx:129-155): the content is split with the global regex
    `(\$\$[\s\S]*?\$\$|\$[\s\S]*?\$)`, whose one capturing group is the whole match, so the parts alternate
    text, match, text, ..., text; each part is then shown as block math, inline math or plain text. */
module MathText {
  import opened Wrappers

  /** Two dollar signs start at index `i`. */
  predicate DollarPair(s: string, i: nat) {
    i + 1 < |s| && s[i] == '$' && s[i + 1] == '$'
  }

  /** The lazy `[\s\S]*?\$\$` from index `k`: the index just past the first `$$` that starts at or after `k`. */
  function CloseDouble(s: string, k: nat): (e: Option<nat>)
    ensures e.Some? ==> k + 2 <= e.value <= |s|
    decreases |s| - k
  {
    if k + 1 >= |s| then None
    else if s[k] == '$' && s[k + 1] == '$' then Some(k + 2)
    else CloseDouble(s, k + 1)
  }

  /** The lazy `[\s\S]*?\$` from index `k`: the index just past the first `$` at or after `k`. */
  function CloseSingle(s: string, k: nat): (e: Option<nat>)
    ensures e.Some? ==> k + 1 <= e.value <= |s|
    decreases |s| - k
  {
    if k >= |s| then None
    else if s[k] == '$' then Some(k + 1)
    else CloseSingle(s, k + 1)
  }

  /** The regex tried at index `q`: the end of the match that starts there, if any. The `$$…$$`
      alternative comes first; when it fails the engine backtracks into `$…$`. */
  function MatchAt(s: string, q: nat): (e: Option<nat>)
    ensures e.Some? ==> q + 2 <= e.value <= |s|
  {
    if q >= |s| || s[q] != '$' then None
    else if q + 1 < |s| && s[q + 1] == '$' && CloseDouble(s, q + 2).Some? then CloseDouble(s, q + 2)
    else CloseSingle(s, q + 1)
  }

  /** `String.prototype.split` with a regex of one capturing group that never matches the empty string:
      `p` is where the pending text part starts and `q` where the next match is tried. */
  function SplitParts(s: string, p: nat, q: nat): seq<string>
    requires p <= q <= |s|
    decreases |s| - q
  {
    if q == |s| then [s[p..]]
    else
      match MatchAt(s, q)
      case None => SplitParts(s, p, q + 1)
      case Some(e) => [s[p..q], s[q..e]] + SplitParts(s, e, e)
  }

  /** `content.split(/(\$\$[\s\S]*?\$\$|\$[\s\S]*?\$)/g)`. */
  function MathParts(content: string): seq<string> {
    SplitParts(content, 0, 0)
  }

  /** The strings of `xs`, one after the other. */
  function Concat(xs: seq<string>): string
    decreases |xs|
  {
    if xs == [] then "" else xs[0] + Concat(xs[1..])
  }

  lemma ConcatTwo(a: string, b: string, rest: seq<string>)
    ensures Concat([a, b] + rest) == a + b + Concat(rest)
  {
    assert ([a, b] + rest)[1..] == [b] + rest;
    assert ([b] + rest)[1..] == rest;
  }

  // The matching steps

  /** `CloseDouble` finds the first `$$` at or after `k`, and finds nothing only when there is none. */
  lemma {:induction false} CloseDoubleFirst(s: string, k: nat)
    ensures CloseDouble(s, k).Some? ==>
      var e := CloseDouble(s, k).value;
      DollarPair(s, e - 2) && forall i :: k <= i < e - 2 ==> !DollarPair(s, i)
    ensures CloseDouble(s, k).None? ==> forall i :: k <= i ==> !DollarPair(s, i)
    decreases |s| - k
  {
    if k + 1 < |s| && !(s[k] == '$' && s[k + 1] == '$') {
      CloseDoubleFirst(s, k + 1);
    }
  }

  /** `CloseSingle` finds the first `$` at or after `k`, and finds nothing only when there is none. */
  lemma {:induction false} CloseSingleFirst(s: string, k: nat)
    ensures CloseSingle(s, k).Some? ==>
      var e := CloseSingle(s, k).value;
      s[e - 1] == '$' && forall i :: k <= i < e - 1 ==> s[i] != '$'
    ensures CloseSingle(s, k).None? ==> forall i :: k <= i < |s| ==> s[i] != '$'
    decreases |s| - k
  {
    if k < |s| && s[k] != '$' {
      CloseSingleFirst(s, k + 1);
    }
  }

  /** A part that the regex matched: at least two characters, a `$` at each end. */
  predicate Delimited(m: string) {
    |m| >= 2 && m[0] == '$' && m[|m| - 1] == '$'
  }

  /** What the regex matches at `q`, in its own terms: `$$`, as little as possible, `$$`; or, when no
      `$$` follows the opening `$$` (or the `$` at `q` is single), `$`, as little as possible, `$`. */
  lemma MatchAtSpec(s: string, q: nat)
    requires q < |s|
    ensures MatchAt(s, q).Some? <==> s[q] == '$' && exists i :: q < i < |s| && s[i] == '$'
    ensures MatchAt(s, q).Some? ==>
      var e := MatchAt(s, q).value;
      if DollarPair(s, q) && exists i :: q + 2 <= i && DollarPair(s, i) then
        DollarPair(s, e - 2) && q + 2 <= e - 2 && forall i :: q + 2 <= i < e - 2 ==> !DollarPair(s, i)
      else
        s[e - 1] == '$' && forall i :: q < i < e - 1 ==> s[i] != '$'
  {
    CloseDoubleFirst(s, q + 2);
    CloseSingleFirst(s, q + 1);
    if s[q] == '$' && exists i :: q < i < |s| && s[i] == '$' {
      var i :| q < i < |s| && s[i] == '$';
      assert CloseSingle(s, q + 1).Some?;
    }
  }

  /** A match is delimited by `$` at both ends. */
  lemma MatchDelimited(s: string, q: nat)
    requires MatchAt(s, q).Some?
    ensures Delimited(s[q..MatchAt(s, q).value])
  {
    var e := MatchAt(s, q).value;
    CloseDoubleFirst(s, q + 2);
    CloseSingleFirst(s, q + 1);
    assert s[q..e][|s[q..e]| - 1] == s[e - 1];
  }

  /** A `$` at which no match starts is the last `$` of the content. */
  lemma UnmatchedDollarIsLast(s: string, x: nat)
    requires x < |s| && s[x] == '$' && MatchAt(s, x).None?
    ensures forall i :: x < i < |s| ==> s[i] != '$'
  {
    CloseSingleFirst(s, x + 1);
  }

  // The parts

  /** No match starts in `[p, q)`. */
  ghost predicate NoMatchIn(s: string, p: nat, q: nat) {
    forall k :: p <= k < q ==> MatchAt(s, k).None?
  }

  /** A string in which `$` occurs at most once. */
  predicate AtMostOneDollar(t: string) {
    forall a, b :: 0 <= a < b < |t| && t[a] == '$' ==> t[b] != '$'
  }

  /** Concatenating the parts gives the content back: the capturing group keeps every match. */
  lemma {:induction false} SplitPartsConcat(s: string, p: nat, q: nat)
    requires p <= q <= |s|
    ensures Concat(SplitParts(s, p, q)) == s[p..]
    decreases |s| - q
  {
    if q < |s| {
      match MatchAt(s, q)
      case None =>
        SplitPartsConcat(s, p, q + 1);
      case Some(e) =>
        SplitPartsConcat(s, e, e);
        ConcatTwo(s[p..q], s[q..e], SplitParts(s, e, e));
        assert s[p..q] + s[q..e] + s[e..] == s[p..];
    }
  }

  /** The text before a match holds no `$`: at any earlier `$` the `$…$` alternative would have
      matched, the `$` opening this match closing it. */
  lemma TextBeforeMatch(s: string, p: nat, q: nat)
    requires p <= q < |s| && NoMatchIn(s, p, q) && MatchAt(s, q).Some?
    ensures '$' !in s[p..q]
  {
    forall x | p <= x < q && s[x] == '$'
      ensures false
    {
      assert MatchAt(s, x).None?;
      UnmatchedDollarIsLast(s, x);
    }
    assert forall y :: 0 <= y < q - p ==> s[p..q][y] == s[p + y];
  }

  /** The text after the last match holds at most one `$`. */
  lemma TextAtEnd(s: string, p: nat)
    requires p <= |s| && NoMatchIn(s, p, |s|)
    ensures AtMostOneDollar(s[p..])
  {
    var t := s[p..];
    forall a, b | 0 <= a < b < |t| && t[a] == '$'
      ensures t[b] != '$'
    {
      assert MatchAt(s, p + a).None?;
      UnmatchedDollarIsLast(s, p + a);
    }
  }

  /** The parts alternate text and match: there is an odd number of them, every part at an odd index is
      a match, delimited by `$`, every text part but the last holds no `$` and the last at most one. */
  lemma {:induction false} SplitPartsShape(s: string, p: nat, q: nat)
    requires p <= q <= |s| && NoMatchIn(s, p, q)
    ensures var parts := SplitParts(s, p, q);
      |parts| % 2 == 1 &&
      (forall i :: 0 <= i < |parts| && i % 2 == 1 ==> Delimited(parts[i])) &&
      (forall i :: 0 <= i < |parts| - 1 && i % 2 == 0 ==> '$' !in parts[i]) &&
      AtMostOneDollar(parts[|parts| - 1])
    decreases |s| - q
  {
    if q == |s| {
      TextAtEnd(s, p);
    } else {
      match MatchAt(s, q)
      case None =>
        SplitPartsShape(s, p, q + 1);
      case Some(e) =>
        var rest := SplitParts(s, e, e);
        SplitPartsShape(s, e, e);
        MatchDelimited(s, q);
        TextBeforeMatch(s, p, q);
        var parts := [s[p..q], s[q..e]] + rest;
        assert SplitParts(s, p, q) == parts;
        forall i | 2 <= i < |parts|
          ensures parts[i] == rest[i - 2]
        {
        }
    }
  }

  /** The content after `p` is a single text part exactly when no match starts at or after `q`. */
  lemma {:induction false} SplitPartsAlone(s: string, p: nat, q: nat)
    requires p <= q <= |s|
    ensures |SplitParts(s, p, q)| == 1 <==> forall k :: q <= k < |s| ==> MatchAt(s, k).None?
    ensures |SplitParts(s, p, q)| == 1 ==> SplitParts(s, p, q) == [s[p..]]
    decreases |s| - q
  {
    if q < |s| {
      match MatchAt(s, q)
      case None =>
        SplitPartsAlone(s, p, q + 1);
        assert SplitParts(s, p, q) == SplitParts(s, p, q + 1);
      case Some(e) =>
        assert |SplitParts(s, p, q)| >= 2;
    }
  }

  /** Matches are leftmost: the first match is the one that starts at the least index where the regex
      matches, the text before it is the first part, and splitting resumes right after it. */
  lemma {:induction false} SplitPartsLeftmost(s: string, p: nat, q: nat, k: nat) returns (x: nat)
    requires p <= q <= k < |s| && MatchAt(s, k).Some?
    ensures q <= x <= k && MatchAt(s, x).Some?
    ensures forall y :: q <= y < x ==> MatchAt(s, y).None?
    ensures SplitParts(s, p, q) ==
      [s[p..x], s[x..MatchAt(s, x).value]] + SplitParts(s, MatchAt(s, x).value, MatchAt(s, x).value)
    decreases k - q
  {
    match MatchAt(s, q)
    case None =>
      x := SplitPartsLeftmost(s, p, q + 1, k);
    case Some(e) =>
      x := q;
  }

  // Showing the parts

  /** What a part is shown as: `BlockMath`, `InlineMath`, or a `span` of plain text. */
  datatype Piece = BlockMath(math: string) | InlineMath(math: string) | PlainText(text: string)

  predicate StartsWith(s: string, t: string) {
    t <= s
  }

  predicate EndsWith(s: string, t: string) {
    |t| <= |s| && s[|s| - |t|..] == t
  }

  /** `s.slice(start, -dropEnd)`: both ends clamped to the string, nothing when they cross. */
  function Slice(s: string, start: nat, dropEnd: nat): (r: string)
    ensures |r| <= |s|
  {
    var from := if start < |s| then start else |s|;
    var to := if dropEnd < |s| then |s| - dropEnd else 0;
    if to <= from then [] else s[from..to]
  }

  /** The classification as written: the tests on both ends overlap on a short part, so a part `$`
      passes the inline test and `$$` and `$$$` pass the block test, each shown as empty math. */
  function ClassifyAsWritten(part: string): Piece {
    if StartsWith(part, "$$") && EndsWith(part, "$$") then BlockMath(Slice(part, 2, 2))
    else if StartsWith(part, "$") && EndsWith(part, "$") then InlineMath(Slice(part, 1, 1))
    else PlainText(part)
  }

  /** The classification with the delimiters required to be distinct characters of the part. */
  function Classify(part: string): Piece {
    if |part| >= 4 && StartsWith(part, "$$") && EndsWith(part, "$$") then BlockMath(part[2..|part| - 2])
    else if Delimited(part) then InlineMath(part[1..|part| - 1])
    else PlainText(part)
  }

  /** `parts.map(...)`: what the content is shown as, in the corrected classification. */
  function Shown(content: string): seq<Piece> {
    var parts := MathParts(content);
    seq(|parts|, i requires 0 <= i < |parts| => Classify(parts[i]))
  }

  /** The same, as written. */
  function ShownAsWritten(content: string): seq<Piece> {
    var parts := MathParts(content);
    seq(|parts|, i requires 0 <= i < |parts| => ClassifyAsWritten(parts[i]))
  }

  /** The text a piece stands for: its math between its delimiters, or its text. */
  function Source(piece: Piece): string {
    match piece
    case BlockMath(m) => "$$" + m + "$$"
    case InlineMath(m) => "$" + m + "$"
    case PlainText(t) => t
  }

  function SourceText(pieces: seq<Piece>): string
    decreases |pieces|
  {
    if pieces == [] then "" else Source(pieces[0]) + SourceText(pieces[1..])
  }

  /** The two classifications differ on exactly three parts: `$`, `$$` and `$$$`. */
  lemma AsWrittenDiffers(part: string)
    ensures ClassifyAsWritten(part) != Classify(part) <==> part in {"$", "$$", "$$$"}
  {
    if |part| >= 4 {
      if StartsWith(part, "$$") && EndsWith(part, "$$") {
        assert Delimited(part);
      }
    } else if part == "$" {
      assert ClassifyAsWritten(part) == InlineMath("");
    } else if part == "$$" {
      assert ClassifyAsWritten(part) == BlockMath("");
    } else if part == "$$$" {
      assert ClassifyAsWritten(part) == BlockMath("");
    } else if |part| == 3 && Delimited(part) {
      assert part[1] != '$';
    } else if |part| == 1 {
      assert part[0] != '$';
    }
  }

  /** A content that is a lone `$` is one text part, which the written classification shows as empty
      inline math: the `$` is not shown at all. */
  lemma LoneDollarVanishes()
    ensures MathParts("$") == ["$"]
    ensures ShownAsWritten("$") == [InlineMath("")]
    ensures SourceText(ShownAsWritten("$")) != "$"
  {
    assert MatchAt("$", 0).None? by {
      assert CloseSingle("$", 1).None?;
    }
    assert SplitParts("$", 0, 1) == ["$"];
    assert ClassifyAsWritten("$") == InlineMath("");
  }

  /** Every part is shown so that its source text is the part itself. */
  lemma ClassifyKeepsPart(part: string)
    ensures Source(Classify(part)) == part
  {
    if |part| >= 4 && StartsWith(part, "$$") && EndsWith(part, "$$") {
      assert part == "$$" + part[2..|part| - 2] + "$$";
    } else if Delimited(part) {
      assert part == "$" + part[1..|part| - 1] + "$";
    }
  }

  lemma {:induction false} SourceTextOfParts(parts: seq<string>)
    ensures SourceText(seq(|parts|, i requires 0 <= i < |parts| => Classify(parts[i]))) == Concat(parts)
    decreases |parts|
  {
    if parts != [] {
      var pieces := seq(|parts|, i requires 0 <= i < |parts| => Classify(parts[i]));
      var tail := parts[1..];
      SourceTextOfParts(tail);
      ClassifyKeepsPart(parts[0]);
      assert pieces[1..] == seq(|tail|, i requires 0 <= i < |tail| => Classify(tail[i]));
    }
  }

  /** Nothing is lost: writing each piece back with its delimiters gives the content. */
  lemma ShownRoundTrip(content: string)
    ensures SourceText(Shown(content)) == content
  {
    SourceTextOfParts(MathParts(content));
    SplitPartsConcat(content, 0, 0);
  }

  /** A part is shown as plain text exactly when it is a text part, at an even index; the matches,
      at odd indices, are shown as math. */
  lemma ShownKinds(content: string)
    ensures |Shown(content)| % 2 == 1
    ensures forall i :: 0 <= i < |Shown(content)| ==> (Shown(content)[i].PlainText? <==> i % 2 == 0)
  {
    var parts := MathParts(content);
    SplitPartsShape(content, 0, 0);
    forall i | 0 <= i < |parts|
      ensures Classify(parts[i]).PlainText? <==> i % 2 == 0
    {
      var t := parts[i];
      if i % 2 == 0 && |t| >= 2 && i < |parts| - 1 {
        assert t[0] in t;
      }
    }
  }

  lemma StartsWithDollar(t: string)
    ensures StartsWith(t, "$") <==> |t| >= 1 && t[0] == '$'
    ensures StartsWith(t, "$$") ==> StartsWith(t, "$")
  {
    if |t| >= 1 && t[0] == '$' {
      assert t[..1] == "$";
    }
  }

  lemma EndsWithDollar(t: string)
    ensures EndsWith(t, "$") <==> |t| >= 1 && t[|t| - 1] == '$'
    ensures EndsWith(t, "$$") ==> EndsWith(t, "$")
  {
    if |t| >= 1 && t[|t| - 1] == '$' {
      assert t[|t| - 1..] == "$";
    }
    if EndsWith(t, "$$") {
      assert t[|t| - 1] == t[|t| - 2..][1];
    }
  }

  /** One part under the written classification: plain text exactly when it is not a lone `$` and does
      not both start and end with `$`. */
  lemma ClassifyAsWrittenPlain(t: string)
    ensures ClassifyAsWritten(t).PlainText? <==> !Delimited(t) && t != "$"
  {
    StartsWithDollar(t);
    EndsWithDollar(t);
    assert ClassifyAsWritten(t).PlainText? <==> !(StartsWith(t, "$") && EndsWith(t, "$"));
    assert Delimited(t) || t == "$" <==> |t| >= 1 && t[0] == '$' && t[|t| - 1] == '$';
  }

  /** As written, the matches at odd indices are shown as math, and so is a final text part that is a
      lone `$`; every other text part is shown as plain text. */
  lemma ShownAsWrittenKinds(content: string)
    ensures |ShownAsWritten(content)| % 2 == 1
    ensures forall i :: 0 <= i < |ShownAsWritten(content)| ==>
      (ShownAsWritten(content)[i].PlainText? <==>
        i % 2 == 0 && !(i == |ShownAsWritten(content)| - 1 && MathParts(content)[i] == "$"))
  {
    var parts := MathParts(content);
    SplitPartsShape(content, 0, 0);
    forall i | 0 <= i < |parts|
      ensures ClassifyAsWritten(parts[i]).PlainText? <==> i % 2 == 0 && !(i == |parts| - 1 && parts[i] == "$")
    {
      var t := parts[i];
      ClassifyAsWrittenPlain(t);
      if i % 2 == 0 && |t| >= 2 && t[0] == '$' && i < |parts| - 1 {
        assert t[0] in t;
      }
    }
  }
}
