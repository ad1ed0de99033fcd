/** The "LaTeX" rewrite the calculator applies to an expression before showing it in a step
    (src/components/Calculator.tsx:25-29 and its copies). Of its four global replaces only the one on `*`
    changes anything: each `*` becomes ` \cdot `. */
module Notation {
  import opened JsText

  /** The replacement text for `*`: a space, `\cdot` and a space (7 characters). */
  const CdotText: string := " \\cdot "

  /** The full chain of four global replaces (of `^` by `^`, of `*` by ` \cdot `, of `(` by `(` and of `)`
      by `)`), used for the whole expression and for the derivative. */
  function LatexFunc(s: string): string {
    ReplaceAll(ReplaceAll(ReplaceAll(ReplaceAll(s, '^', "^"), '*', CdotText), '(', "("), ')', ")")
  }

  /** The shorter chain (the replaces of `^` and of `*` only), used for numerator and denominator. */
  function LatexPart(s: string): string {
    ReplaceAll(ReplaceAll(s, '^', "^"), '*', CdotText)
  }

  /** The only effective rewrite: `*` to ` \cdot `. */
  function Cdot(s: string): string {
    ReplaceAll(s, '*', CdotText)
  }

  /** The rewrite removes every `*` and adds 6 characters per `*`. */
  lemma CdotRemovesStars(s: string)
    ensures '*' !in Cdot(s)
    ensures |Cdot(s)| == |s| + 6 * Count(s, '*')
  {
    ReplaceAllLength(s, '*', CdotText);
    ReplaceAllRemoves(s, '*', CdotText);
  }

  /** Both chains reduce to `Cdot`: the replaces of `^`, `(` and `)` by themselves are identities. */
  lemma LatexIsCdot(s: string)
    ensures LatexFunc(s) == Cdot(s)
    ensures LatexPart(s) == Cdot(s)
  {
    ReplaceBySelf(s, '^');
    ReplaceBySelf(Cdot(s), '(');
    ReplaceBySelf(ReplaceAll(Cdot(s), '(', "("), ')');
  }

  /** Every character other than `*` is copied, in place and in order. */
  lemma CdotSplits(a: string, b: string)
    ensures Cdot(a + b) == Cdot(a) + Cdot(b)
    ensures Cdot(a + "*" + b) == Cdot(a) + CdotText + Cdot(b)
    ensures '*' !in a ==> Cdot(a) == a
  {
    ReplaceAllAppend(a, b, '*', CdotText);
    ReplaceAllAppend(a + "*", b, '*', CdotText);
    ReplaceAllAppend(a, "*", '*', CdotText);
    if '*' !in a {
      ReplaceAllAbsent(a, '*', CdotText);
    }
  }

  /** Reading ` \cdot ` back as `*`: the inverse of `Cdot` on strings without a backslash. */
  function Uncdot(t: string): string
    decreases |t|
  {
    if |t| >= |CdotText| && t[..|CdotText|] == CdotText then "*" + Uncdot(t[|CdotText|..])
    else if t == [] then []
    else [t[0]] + Uncdot(t[1..])
  }

  lemma {:induction false} CdotHead(s: string)
    requires '\\' !in s
    ensures Cdot(s) == [] || Cdot(s)[0] != '\\'
  {
    if s != [] {
      assert Cdot(s) == (if s[0] == '*' then CdotText else [s[0]]) + Cdot(s[1..]);
    }
  }

  /** An expression written without backslashes is recovered from its rewritten form. */
  lemma {:induction false} UncdotCdot(s: string)
    requires '\\' !in s
    ensures Uncdot(Cdot(s)) == s
    decreases |s|
  {
    if s != [] {
      var rest := Cdot(s[1..]);
      UncdotCdot(s[1..]);
      if s[0] == '*' {
        assert Cdot(s) == CdotText + rest;
        assert (CdotText + rest)[|CdotText|..] == rest;
      } else {
        var t := [s[0]] + rest;
        assert Cdot(s) == t;
        CdotHead(s[1..]);
        assert |t| >= |CdotText| ==> t[1] != CdotText[1];
        assert t[1..] == rest;
      }
      assert [s[0]] + s[1..] == s;
    }
  }
}
