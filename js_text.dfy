/** The JavaScript string operations the calculator and the display rely on: white space as `trim()` and
    the regex class `\s` define it, `split` on one character, `join`, and `replace` with a global pattern. */
module JsText {

  /** White space in the sense of ECMAScript's WhiteSpace and LineTerminator productions: the characters
      removed by `String.prototype.trim` and matched by `\s` (tab, line feed, vertical tab, form feed and
      carriage return; space; no-break space; Ogham space mark; the spaces U+2000 to U+200A; line and
      paragraph separator; narrow no-break space; medium mathematical space; ideographic space; and the
      byte order mark). */
  predicate IsSpace(c: char) {
    var n := c as int;
    (9 <= n <= 13) || n == 0x20 || n == 0xA0 || n == 0x1680 || (0x2000 <= n <= 0x200A) ||
    n == 0x2028 || n == 0x2029 || n == 0x202F || n == 0x205F || n == 0x3000 || n == 0xFEFF
  }

  function TrimStart(s: string): (r: string)
    ensures |r| <= |s|
    decreases |s|
  {
    if s == [] || !IsSpace(s[0]) then s else TrimStart(s[1..])
  }

  function TrimEnd(s: string): (r: string)
    ensures |r| <= |s|
    decreases |s|
  {
    if s == [] || !IsSpace(s[|s| - 1]) then s else TrimEnd(s[..|s| - 1])
  }

  /** `TrimStart` removes white space only, up to the first other character. */
  lemma {:induction false} TrimStartSuffix(s: string)
    ensures TrimStart(s) == s[|s| - |TrimStart(s)|..]
    ensures TrimStart(s) == [] || !IsSpace(TrimStart(s)[0])
    ensures forall k :: 0 <= k < |s| - |TrimStart(s)| ==> IsSpace(s[k])
    decreases |s|
  {
    if s != [] && IsSpace(s[0]) {
      TrimStartSuffix(s[1..]);
      assert forall k :: 1 <= k < |s| - |TrimStart(s)| ==> s[k] == s[1..][k - 1];
    }
  }

  /** `TrimEnd` removes white space only, back to the last other character. */
  lemma {:induction false} TrimEndPrefix(s: string)
    ensures TrimEnd(s) == s[..|TrimEnd(s)|]
    ensures TrimEnd(s) == [] || !IsSpace(TrimEnd(s)[|TrimEnd(s)| - 1])
    ensures forall k :: |TrimEnd(s)| <= k < |s| ==> IsSpace(s[k])
    decreases |s|
  {
    if s != [] && IsSpace(s[|s| - 1]) {
      TrimEndPrefix(s[..|s| - 1]);
      assert forall k :: |TrimEnd(s)| <= k < |s| - 1 ==> s[k] == s[..|s| - 1][k];
    }
  }

  /** `s.trim()`: the longest infix of `s` that neither starts nor ends with white space. */
  function Trim(s: string): (r: string)
    ensures |r| <= |s|
    ensures Trimmed(r)
  {
    var t := TrimStart(s);
    TrimStartSuffix(s);
    TrimEndPrefix(t);
    TrimEnd(t)
  }

  /** `Trim(s)` is what lies between a white-space prefix and a white-space suffix of `s`. */
  lemma TrimInfix(s: string)
    ensures exists a, b :: (0 <= a <= b <= |s| && Trim(s) == s[a..b] &&
      (forall k :: 0 <= k < a ==> IsSpace(s[k])) && (forall k :: b <= k < |s| ==> IsSpace(s[k])))
  {
    var t := TrimStart(s);
    TrimStartSuffix(s);
    TrimEndPrefix(t);
    var a, r := |s| - |t|, TrimEnd(t);
    var b := a + |r|;
    assert Trim(s) == r == s[a..b];
    assert forall k :: b <= k < |s| ==> s[k] == t[k - a];
    assert (forall k :: 0 <= k < a ==> IsSpace(s[k])) && (forall k :: b <= k < |s| ==> IsSpace(s[k]));
  }

  /** Conversely, an infix that neither starts nor ends with white space and is surrounded only by white
      space is the trimmed string: together with `TrimInfix` this determines `Trim` completely. */
  lemma TrimCharacterised(s: string, a: nat, b: nat)
    requires a <= b <= |s|
    requires forall k :: 0 <= k < a ==> IsSpace(s[k])
    requires forall k :: b <= k < |s| ==> IsSpace(s[k])
    requires Trimmed(s[a..b])
    ensures Trim(s) == s[a..b]
  {
    if a == b {
      TrimBlank(s);
    } else {
      var t := TrimStart(s);
      TrimStartSuffix(s);
      var i := |s| - |t|;
      assert !IsSpace(s[a]) by { assert s[a..b][0] == s[a]; }
      assert !IsSpace(s[b - 1]) by { assert s[a..b][b - a - 1] == s[b - 1]; }
      assert i == a;
      TrimEndPrefix(t);
      var j := |TrimEnd(t)|;
      assert j == b - a;
      assert Trim(s) == t[..j];
    }
  }

  /** A string trims to nothing exactly when it is all white space. */
  lemma TrimBlank(s: string)
    ensures Trim(s) == [] <==> forall k :: 0 <= k < |s| ==> IsSpace(s[k])
  {
    var t := TrimStart(s);
    TrimStartSuffix(s);
    TrimEndPrefix(t);
    if Trim(s) != [] && t != [] {
      assert s[|s| - |t|] == t[0];
    }
  }

  /** Trimming keeps a subset of the characters: what `s` lacks, `Trim(s)` lacks. */
  lemma TrimKeepsOut(s: string, c: char)
    ensures c !in s ==> c !in Trim(s)
  {
    var t := TrimStart(s);
    TrimStartSuffix(s);
    TrimEndPrefix(t);
    var r := TrimEnd(t);
    assert r == s[|s| - |t|..][..|r|];
    if c in r {
      var k :| 0 <= k < |r| && r[k] == c;
      assert s[|s| - |t| + k] == c;
    }
  }

  /** A string that neither starts nor ends with white space. */
  predicate Trimmed(s: string) {
    s == [] || (!IsSpace(s[0]) && !IsSpace(s[|s| - 1]))
  }

  /** `s.split(c)` for a one-character separator: the pieces between the occurrences of `c`. */
  function Split(s: string, c: char): (r: seq<string>)
    ensures |r| >= 1
    ensures forall k :: 0 <= k < |r| ==> c !in r[k]
    decreases |s|
  {
    if s == [] then [""]
    else if s[0] == c then [""] + Split(s[1..], c)
    else
      var rest := Split(s[1..], c);
      [[s[0]] + rest[0]] + rest[1..]
  }

  /** `xs.join(c)`. */
  function Join(xs: seq<string>, c: char): string
    decreases |xs|
  {
    if xs == [] then ""
    else if |xs| == 1 then xs[0]
    else xs[0] + [c] + Join(xs[1..], c)
  }

  /** Appending a piece to a non-empty list puts one separator before it. */
  lemma {:induction false} JoinSnoc(xs: seq<string>, y: string, c: char)
    requires |xs| >= 1
    ensures Join(xs + [y], c) == Join(xs, c) + [c] + y
    decreases |xs|
  {
    if |xs| > 1 {
      assert (xs + [y])[1..] == xs[1..] + [y];
      JoinSnoc(xs[1..], y, c);
    }
  }

  lemma {:induction false} JoinConsHead(a: string, b: string, t: seq<string>, c: char)
    ensures Join([a + b] + t, c) == a + Join([b] + t, c)
  {
    if t != [] {
      assert ([a + b] + t)[1..] == t;
      assert ([b] + t)[1..] == t;
    }
  }

  /** Splitting and joining on the same character give the string back. */
  lemma {:induction false} JoinSplit(s: string, c: char)
    ensures Join(Split(s, c), c) == s
    decreases |s|
  {
    if s == [] {
    } else if s[0] == c {
      var rest := Split(s[1..], c);
      JoinSplit(s[1..], c);
      assert ([""] + rest)[1..] == rest;
      assert Join([""] + rest, c) == "" + [c] + Join(rest, c);
      assert s == [s[0]] + s[1..];
    } else {
      var rest := Split(s[1..], c);
      JoinSplit(s[1..], c);
      JoinConsHead([s[0]], rest[0], rest[1..], c);
      assert [rest[0]] + rest[1..] == rest;
      assert s == [s[0]] + s[1..];
    }
  }

  lemma {:induction false} SplitNoSeparator(a: string, c: char)
    requires c !in a
    ensures Split(a, c) == [a]
    decreases |a|
  {
    if a != [] {
      SplitNoSeparator(a[1..], c);
      assert [a[0]] + a[1..] == a;
    }
  }

  lemma {:induction false} SplitAtSeparator(a: string, t: string, c: char)
    requires c !in a
    ensures Split(a + [c] + t, c) == [a] + Split(t, c)
    decreases |a|
  {
    if a == [] {
      assert a + [c] + t == [c] + t;
      assert ([c] + t)[1..] == t;
    } else {
      var s := a + [c] + t;
      assert s[0] == a[0] && s[1..] == a[1..] + [c] + t;
      SplitAtSeparator(a[1..], t, c);
      assert [a[0]] + a[1..] == a;
    }
  }

  /** Joining pieces that do not contain the separator and splitting again gives the pieces back. */
  lemma {:induction false} SplitJoin(xs: seq<string>, c: char)
    requires |xs| >= 1
    requires forall k :: 0 <= k < |xs| ==> c !in xs[k]
    ensures Split(Join(xs, c), c) == xs
    decreases |xs|
  {
    if |xs| == 1 {
      SplitNoSeparator(xs[0], c);
    } else {
      SplitJoin(xs[1..], c);
      SplitAtSeparator(xs[0], Join(xs[1..], c), c);
      assert [xs[0]] + xs[1..] == xs;
    }
  }

  /** `s.replace(/c/g, r)`: every occurrence of `c` replaced by `r`, every other character kept. */
  function ReplaceAll(s: string, c: char, r: string): (t: string)
    decreases |s|
  {
    if s == [] then []
    else (if s[0] == c then r else [s[0]]) + ReplaceAll(s[1..], c, r)
  }

  /** The number of occurrences of `c` in `s`. */
  function Count(s: string, c: char): nat
    decreases |s|
  {
    if s == [] then 0 else (if s[0] == c then 1 else 0) + Count(s[1..], c)
  }

  lemma {:induction false} ReplaceAllAppend(a: string, b: string, c: char, r: string)
    ensures ReplaceAll(a + b, c, r) == ReplaceAll(a, c, r) + ReplaceAll(b, c, r)
    decreases |a|
  {
    if a != [] {
      assert (a + b)[0] == a[0] && (a + b)[1..] == a[1..] + b;
      ReplaceAllAppend(a[1..], b, c, r);
    } else {
      assert a + b == b;
    }
  }

  /** Replacing a character by itself changes nothing: `.replace(/\^/g, '^')` is the identity. */
  lemma {:induction false} ReplaceBySelf(s: string, c: char)
    ensures ReplaceAll(s, c, [c]) == s
    decreases |s|
  {
    if s != [] {
      ReplaceBySelf(s[1..], c);
      assert [s[0]] + s[1..] == s;
    }
  }

  /** The rewritten string is longer by `|r| - 1` characters per occurrence of `c`. */
  lemma {:induction false} ReplaceAllLength(s: string, c: char, r: string)
    ensures |ReplaceAll(s, c, r)| == |s| + Count(s, c) * (|r| - 1)
    decreases |s|
  {
    if s != [] {
      ReplaceAllLength(s[1..], c, r);
      var k := Count(s[1..], c);
      if s[0] == c {
        assert Count(s, c) * (|r| - 1) == k * (|r| - 1) + (|r| - 1);
      }
    }
  }

  /** No `c` survives when its replacement has none. */
  lemma {:induction false} ReplaceAllRemoves(s: string, c: char, r: string)
    requires c !in r
    ensures c !in ReplaceAll(s, c, r)
    decreases |s|
  {
    if s != [] {
      ReplaceAllRemoves(s[1..], c, r);
    }
  }

  /** A string in which `c` does not occur is left as it is. */
  lemma {:induction false} ReplaceAllAbsent(s: string, c: char, r: string)
    requires c !in s
    ensures ReplaceAll(s, c, r) == s
    decreases |s|
  {
    if s != [] {
      ReplaceAllAbsent(s[1..], c, r);
      assert [s[0]] + s[1..] == s;
    }
  }

  /** `s.includes(t)`: `t` occurs in `s` at some position. */
  predicate Includes(s: string, t: string)
    decreases |s|
  {
    t <= s || (s != [] && Includes(s[1..], t))
  }
}
