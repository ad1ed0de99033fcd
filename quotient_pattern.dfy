/** The textual split of a quotient into numerator and denominator
    (src/components/Calculator.tsx:188-196): `input.match(/\(([^)]+)\)\s*\/\s*\(([^)]+)\)/)`.
    JavaScript tries start positions from left to right. At a start position the match is forced: a
    group `[^)]+` cannot contain `)` and must be followed by `)`, so it runs to the first `)`; the white
    space runs `\s*` are followed by `/` and `(`, which are not white space, so they are maximal. */
module QuotientPattern {
  import opened Wrappers
  import opened JsText

  /** The first index at or after `k` that holds `)`, or `|s|`. */
  function CloseParen(s: string, k: nat): (j: nat)
    requires k <= |s|
    ensures k <= j <= |s|
    decreases |s| - k
  {
    if k == |s| || s[k] == ')' then k else CloseParen(s, k + 1)
  }

  lemma {:induction false} CloseParenShape(s: string, k: nat)
    requires k <= |s|
    ensures CloseParen(s, k) < |s| ==> s[CloseParen(s, k)] == ')'
    ensures forall m :: k <= m < CloseParen(s, k) ==> s[m] != ')'
    decreases |s| - k
  {
    if k < |s| && s[k] != ')' {
      CloseParenShape(s, k + 1);
    }
  }

  /** The first index at or after `k` that is not white space, or `|s|`. */
  function SkipSpace(s: string, k: nat): (j: nat)
    requires k <= |s|
    ensures k <= j <= |s|
    decreases |s| - k
  {
    if k == |s| || !IsSpace(s[k]) then k else SkipSpace(s, k + 1)
  }

  lemma {:induction false} SkipSpaceShape(s: string, k: nat)
    requires k <= |s|
    ensures SkipSpace(s, k) < |s| ==> !IsSpace(s[SkipSpace(s, k)])
    ensures forall m {:trigger IsSpace(s[m])} :: k <= m < SkipSpace(s, k) ==> IsSpace(s[m])
    decreases |s| - k
  {
    if k < |s| && IsSpace(s[k]) {
      SkipSpaceShape(s, k + 1);
    }
  }

  /** The pattern matches `s[i..t+1]` with `(` at `i`, `)` at `p`, `/` at `q`, `(` at `r` and `)` at `t`:
      both groups are non-empty and free of `)`, and only white space lies around the `/`. */
  predicate MatchShape(s: string, i: int, p: int, q: int, r: int, t: int) {
    0 <= i && i + 1 < p < q < r && r + 1 < t < |s| &&
    s[i] == '(' && s[p] == ')' && s[q] == '/' && s[r] == '(' && s[t] == ')' &&
    (forall m :: i < m < p ==> s[m] != ')') &&
    (forall m {:trigger IsSpace(s[m])} :: p < m < q ==> IsSpace(s[m])) &&
    (forall m {:trigger IsSpace(s[m])} :: q < m < r ==> IsSpace(s[m])) &&
    (forall m :: r < m < t ==> s[m] != ')')
  }

  /** The pattern matches at start position `i`. */
  ghost predicate MatchesAt(s: string, i: nat) {
    exists p, q, r, t :: MatchShape(s, i, p, q, r, t)
  }

  /** The regex engine at one start position: the two groups, or `None` when it fails there. */
  function MatchAt(s: string, i: nat): Option<(string, string)>
    requires i <= |s|
  {
    if i == |s| || s[i] != '(' then None
    else
      var p := CloseParen(s, i + 1);
      if p == i + 1 || p == |s| then None
      else
        var q := SkipSpace(s, p + 1);
        if q == |s| || s[q] != '/' then None
        else
          var r := SkipSpace(s, q + 1);
          if r == |s| || s[r] != '(' then None
          else
            var t := CloseParen(s, r + 1);
            if t == r + 1 || t == |s| then None
            else Some((s[i + 1..p], s[r + 1..t]))
  }

  /** A run of characters other than `)` that ends at a `)` is what `CloseParen` finds. */
  lemma {:induction false} CloseParenAt(s: string, k: nat, j: nat)
    requires k <= j < |s| && s[j] == ')'
    requires forall m :: k <= m < j ==> s[m] != ')'
    ensures CloseParen(s, k) == j
    decreases j - k
  {
    if k < j {
      CloseParenAt(s, k + 1, j);
    }
  }

  /** A run of white space that ends at another character is what `SkipSpace` skips. */
  lemma {:induction false} SkipSpaceAt(s: string, k: nat, j: nat)
    requires k <= j < |s| && !IsSpace(s[j])
    requires forall m {:trigger IsSpace(s[m])} :: k <= m < j ==> IsSpace(s[m])
    ensures SkipSpace(s, k) == j
    decreases j - k
  {
    if k < j {
      SkipSpaceAt(s, k + 1, j);
    }
  }

  /** When every test along the way passes, the engine reports the two groups it delimited. */
  lemma MatchAtFound(s: string, i: nat, p: nat, q: nat, r: nat, t: nat)
    requires i < |s| && s[i] == '('
    requires p == CloseParen(s, i + 1) && i + 1 < p < |s|
    requires q == SkipSpace(s, p + 1) && q < |s| && s[q] == '/'
    requires r == SkipSpace(s, q + 1) && r < |s| && s[r] == '('
    requires t == CloseParen(s, r + 1) && r + 1 < t < |s|
    ensures MatchAt(s, i) == Some((s[i + 1..p], s[r + 1..t]))
  {
  }

  /** Whenever the pattern matches at `i`, the engine reports the two groups of that match. */
  lemma MatchAtComplete(s: string, i: nat, p: int, q: int, r: int, t: int)
    requires MatchShape(s, i, p, q, r, t)
    ensures MatchAt(s, i) == Some((s[i + 1..p], s[r + 1..t]))
  {
    assert !IsSpace('/') && !IsSpace('(');
    CloseParenAt(s, i + 1, p);
    SkipSpaceAt(s, p + 1, q);
    SkipSpaceAt(s, q + 1, r);
    CloseParenAt(s, r + 1, t);
    MatchAtFound(s, i, p, q, r, t);
  }

  /** The positions the engine finds, when each test along the way passes, form a match of the pattern. */
  lemma MatchAtSound(s: string, i: nat, p: nat, q: nat, r: nat, t: nat)
    requires i < |s| && s[i] == '('
    requires p == CloseParen(s, i + 1) && i + 1 < p < |s|
    requires q == SkipSpace(s, p + 1) && q < |s| && s[q] == '/'
    requires r == SkipSpace(s, q + 1) && r < |s| && s[r] == '('
    requires t == CloseParen(s, r + 1) && r + 1 < t < |s|
    ensures MatchShape(s, i, p, q, r, t)
  {
    assert s[p] == ')' && forall m :: i < m < p ==> s[m] != ')' by { CloseParenShape(s, i + 1); }
    assert forall m {:trigger IsSpace(s[m])} :: p < m < q ==> IsSpace(s[m]) by { SkipSpaceShape(s, p + 1); }
    assert forall m {:trigger IsSpace(s[m])} :: q < m < r ==> IsSpace(s[m]) by { SkipSpaceShape(s, q + 1); }
    assert s[t] == ')' && forall m :: r < m < t ==> s[m] != ')' by { CloseParenShape(s, r + 1); }
  }

  /** The engine succeeds at a start position exactly when the pattern matches there, and what it
      reports are the two groups of that match. */
  lemma MatchAtCorrect(s: string, i: nat)
    requires i <= |s|
    ensures MatchAt(s, i).Some? <==> MatchesAt(s, i)
    ensures MatchAt(s, i).Some? ==>
      exists p, q, r, t :: MatchShape(s, i, p, q, r, t) && MatchAt(s, i).value == (s[i + 1..p], s[r + 1..t])
  {
    if MatchAt(s, i).Some? {
      var p := CloseParen(s, i + 1);
      var q := SkipSpace(s, p + 1);
      var r := SkipSpace(s, q + 1);
      var t := CloseParen(s, r + 1);
      MatchAtSound(s, i, p, q, r, t);
      assert MatchAt(s, i).value == (s[i + 1..p], s[r + 1..t]);
    } else if MatchesAt(s, i) {
      var p, q, r, t :| MatchShape(s, i, p, q, r, t);
      MatchAtComplete(s, i, p, q, r, t);
    }
  }

  /** The result at the first position from `i` on whose attempt succeeds, or `None`. */
  function FirstSome<T>(attempts: seq<Option<T>>, i: nat): Option<T>
    requires i <= |attempts|
    decreases |attempts| - i
  {
    if i == |attempts| then None
    else if attempts[i].Some? then attempts[i]
    else FirstSome(attempts, i + 1)
  }

  /** The search from `i` fails exactly when every attempt from `i` on fails. */
  lemma {:induction false} FirstSomeNone<T>(attempts: seq<Option<T>>, i: nat)
    requires i <= |attempts|
    ensures FirstSome(attempts, i).None? <==> forall j :: i <= j < |attempts| ==> attempts[j].None?
    decreases |attempts| - i
  {
    if i < |attempts| && attempts[i].None? {
      FirstSomeNone(attempts, i + 1);
    }
  }

  /** A successful search reports the attempt at some position, and every attempt before it failed. */
  lemma {:induction false} FirstSomeLeftmost<T>(attempts: seq<Option<T>>, i: nat)
    requires i <= |attempts|
    ensures FirstSome(attempts, i).Some? ==>
      exists j :: i <= j < |attempts| && attempts[j] == FirstSome(attempts, i) &&
        forall k :: i <= k < j ==> attempts[k].None?
    decreases |attempts| - i
  {
    if i < |attempts| && attempts[i].None? {
      FirstSomeLeftmost(attempts, i + 1);
      if FirstSome(attempts, i + 1).Some? {
        var j :| i + 1 <= j < |attempts| && attempts[j] == FirstSome(attempts, i + 1) &&
          forall k :: i + 1 <= k < j ==> attempts[k].None?;
        assert forall k :: i <= k < j ==> attempts[k].None?;
      }
    }
  }

  /** The regex engine tried at every start position of `s`. */
  function Attempts(s: string): seq<Option<(string, string)>> {
    seq(|s|, k requires 0 <= k < |s| => MatchAt(s, k))
  }

  /** `input.match(...)`: start positions are tried from left to right, and the first match wins. */
  function SplitQuotient(s: string): Option<(string, string)> {
    FirstSome(Attempts(s), 0)
  }

  /** Where the engine fails, the pattern does not match. */
  lemma MatchAtNone(s: string, k: nat)
    requires k <= |s| && MatchAt(s, k).None?
    ensures !MatchesAt(s, k)
  {
    if MatchesAt(s, k) {
      var p, q, r, t :| MatchShape(s, k, p, q, r, t);
      MatchAtComplete(s, k, p, q, r, t);
    }
  }

  /** The start position whose attempt a successful split reports. */
  lemma FirstMatch(s: string) returns (i: nat)
    requires SplitQuotient(s).Some?
    ensures i < |s| && MatchAt(s, i) == SplitQuotient(s)
    ensures forall k :: 0 <= k < i ==> MatchAt(s, k).None?
  {
    var attempts := Attempts(s);
    FirstSomeLeftmost(attempts, 0);
    i :| 0 <= i < |s| && attempts[i] == SplitQuotient(s) && forall k :: 0 <= k < i ==> attempts[k].None?;
    assert forall k :: 0 <= k < i ==> attempts[k] == MatchAt(s, k);
  }

  /** The split fails exactly when the pattern matches at no start position. */
  lemma SplitQuotientNone(s: string)
    ensures SplitQuotient(s).None? <==> forall i :: 0 <= i < |s| ==> !MatchesAt(s, i)
  {
    if SplitQuotient(s).Some? {
      var i := FirstMatch(s);
      var p := CloseParen(s, i + 1);
      var q := SkipSpace(s, p + 1);
      var r := SkipSpace(s, q + 1);
      var t := CloseParen(s, r + 1);
      MatchAtSound(s, i, p, q, r, t);
      assert MatchesAt(s, i);
    } else {
      var attempts := Attempts(s);
      FirstSomeNone(attempts, 0);
      forall k | 0 <= k < |s|
        ensures !MatchesAt(s, k)
      {
        assert attempts[k] == MatchAt(s, k);
        MatchAtNone(s, k);
      }
    }
  }

  /** A successful split reports the groups of the leftmost match. */
  lemma SplitQuotientLeftmost(s: string)
    ensures SplitQuotient(s).Some? ==>
      exists i, p, q, r, t :: MatchShape(s, i, p, q, r, t) &&
        SplitQuotient(s).value == (s[i + 1..p], s[r + 1..t]) &&
        forall k :: 0 <= k < i ==> !MatchesAt(s, k)
  {
    if SplitQuotient(s).Some? {
      var i := FirstMatch(s);
      forall k | 0 <= k < i
        ensures !MatchesAt(s, k)
      {
        MatchAtNone(s, k);
      }
      var p := CloseParen(s, i + 1);
      var q := SkipSpace(s, p + 1);
      var r := SkipSpace(s, q + 1);
      var t := CloseParen(s, r + 1);
      MatchAtSound(s, i, p, q, r, t);
    }
  }

  /** The groups of a match are non-empty and free of `)`, and they lie around a `/`. */
  lemma ShapeGroups(s: string, i: int, p: int, q: int, r: int, t: int)
    requires MatchShape(s, i, p, q, r, t)
    ensures s[i + 1..p] != [] && s[r + 1..t] != [] && ')' !in s[i + 1..p] && ')' !in s[r + 1..t]
    ensures '/' in s
  {
    var n, d := s[i + 1..p], s[r + 1..t];
    assert forall k :: 0 <= k < |n| ==> n[k] == s[i + 1 + k];
    assert forall k :: 0 <= k < |d| ==> d[k] == s[r + 1 + k];
    assert s[q] == '/';
  }

  /** Numerator and denominator are non-empty and contain no `)`, and a split input contains `/`: the
      `includes('/')` test in front of the match never changes the outcome. */
  lemma SplitQuotientGroups(s: string)
    ensures SplitQuotient(s).Some? ==>
      SplitQuotient(s).value.0 != [] && SplitQuotient(s).value.1 != [] &&
      ')' !in SplitQuotient(s).value.0 && ')' !in SplitQuotient(s).value.1 && '/' in s
  {
    SplitQuotientLeftmost(s);
    if SplitQuotient(s).Some? {
      var i, p, q, r, t :| MatchShape(s, i, p, q, r, t) && SplitQuotient(s).value == (s[i + 1..p], s[r + 1..t]);
      ShapeGroups(s, i, p, q, r, t);
    }
  }

  /** A quotient written as `(n)/(d)`, with groups that are non-empty and free of `)`, splits back into
      `n` over `d`: the match at the first character is the leftmost one. */
  lemma QuotientRoundTrip(n: string, d: string)
    requires n != [] && d != [] && ')' !in n && ')' !in d
    ensures SplitQuotient("(" + n + ")/(" + d + ")") == Some((n, d))
  {
    var s := "(" + n + ")/(" + d + ")";
    var p := |n| + 1;
    var r := p + 2;
    var t := r + |d| + 1;
    assert forall m :: 0 < m < p ==> s[m] == n[m - 1];
    assert forall m :: r < m < t ==> s[m] == d[m - r - 1];
    assert s[0] == '(' && s[p] == ')' && s[p + 1] == '/' && s[r] == '(' && s[t] == ')';
    assert s[1..p] == n && s[r + 1..t] == d;
    MatchAtComplete(s, 0, p, p + 1, r, t);
  }

  /** The calculator's default input `(x^2 - 8*x + 15)/(x^2 - 5)` splits into `x^2 - 8*x + 15` over
      `x^2 - 5`. */
  lemma DefaultInputSplit(n: string, d: string)
    requires n == "x^2 - 8*x + 15" && d == "x^2 - 5"
    ensures SplitQuotient("(" + n + ")/(" + d + ")") == Some((n, d))
  {
    QuotientRoundTrip(n, d);
  }
}
