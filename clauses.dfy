/**
 * One match of the LIMIT pattern of main.py:197-201, `\blimit\s+(\d+)\b`, at a position
 * of the lowered text (the `(?i)` flag is modelled by matching on the lowered text, which
 * keeps every position). Everything is read in place, by position, so that a match can be
 * moved from one text to another character by character.
 */
module Clauses {
  import opened Text

  datatype CharClass = Spaces | Digits

  predicate InClass(c: char, cls: CharClass) {
    match cls
    case Spaces => IsSpace(c)
    case Digits => IsDigit(c)
  }

  /**
   * Length of the run of one class that starts at position j of t: what the greedy `\s+`
   * or `\d+` consumes there.
   */
  function Run(t: string, j: nat, cls: CharClass): (n: nat)
    requires j <= |t|
    ensures j + n <= |t|
    decreases |t| - j
  {
    if j < |t| && InClass(t[j], cls) then 1 + Run(t, j + 1, cls) else 0
  }

  /** The run is all of one class, and the character after it (if any) is not. */
  lemma {:induction false} RunFacts(t: string, j: nat, cls: CharClass)
    requires j <= |t|
    ensures forall k :: j <= k < j + Run(t, j, cls) ==> InClass(t[k], cls)
    ensures j + Run(t, j, cls) < |t| ==> !InClass(t[j + Run(t, j, cls)], cls)
    decreases |t| - j
  {
    if j < |t| && InClass(t[j], cls) {
      RunFacts(t, j + 1, cls);
    }
  }

  /** The three properties in Run's contract determine it. */
  lemma {:induction false} RunUnique(t: string, j: nat, cls: CharClass, n: nat)
    requires j + n <= |t|
    requires forall k :: j <= k < j + n ==> InClass(t[k], cls)
    requires j + n < |t| ==> !InClass(t[j + n], cls)
    ensures Run(t, j, cls) == n
    decreases n
  {
    if n > 0 {
      RunUnique(t, j + 1, cls, n - 1);
    }
  }

  const Keyword: string := "limit"

  /** "limit" is spelled at position i of t. */
  predicate KeywordAt(t: string, i: int) {
    && 0 <= i && i + 5 <= |t|
    && t[i] == 'l' && t[i + 1] == 'i' && t[i + 2] == 'm' && t[i + 3] == 'i' && t[i + 4] == 't'
  }

  lemma KeywordAtOccurs(t: string, i: int)
    ensures KeywordAt(t, i) <==> OccursAt(t, Keyword, i)
  {
    if OccursAt(t, Keyword, i) {
      var v := t[i..i + 5];
      assert v[0] == t[i] && v[1] == t[i + 1] && v[2] == t[i + 2] && v[3] == t[i + 3] && v[4] == t[i + 4];
    }
    if KeywordAt(t, i) {
      assert t[i..i + 5] == Keyword;
    }
  }

  /** Where the digits of a match at i begin: after "limit" and its whitespace. */
  function DigitsAt(t: string, i: nat): (k: nat)
    requires i + 5 <= |t|
    ensures i + 5 <= k <= |t|
  {
    i + 5 + Run(t, i + 5, Spaces)
  }

  /**
   * Length of the match of `limit\s+\d+\b` at position i of t, or 0 when it does not match
   * there. The whitespace and digit runs are maximal; the closing `\b` follows a digit, so it
   * needs the end of t or a character that is not a word character.
   */
  function ClauseLen(t: string, i: nat): (n: nat)
    requires i <= |t|
    ensures n == 0 || 7 <= n <= |t| - i
  {
    if !KeywordAt(t, i) then 0
    else
      var k := DigitsAt(t, i);
      if k == i + 5 then 0
      else
        var e := k + Run(t, k, Digits);
        if e == k || (e < |t| && IsWordChar(t[e])) then 0 else e - i
  }

  /** `\blimit\s+\d+\b` matches the text t at position i. */
  predicate LimitAt(t: string, i: int) {
    0 <= i < |t| && Boundary(t, i) && ClauseLen(t, i) > 0
  }

  /** The length of the match at i. */
  function MatchLen(t: string, i: int): nat
    requires LimitAt(t, i)
  {
    ClauseLen(t, i)
  }

  /** `int(m.group(1))` for the match at i. */
  function LimitValue(t: string, i: int): nat
    requires LimitAt(t, i)
  {
    DigitsValue(t[DigitsAt(t, i)..i + MatchLen(t, i)])
  }

  /**
   * The regular expression's own reading: "limit" at a word boundary, whitespace on
   * [i+5, k), digits on [k, e), a word boundary at e.
   */
  predicate RegexMatch(t: string, i: int, k: int, e: int) {
    && 0 <= i && i + 5 < k < e <= |t|
    && Boundary(t, i) && KeywordAt(t, i)
    && (forall o :: i + 5 <= o < k ==> IsSpace(t[o]))
    && (forall o :: k <= o < e ==> IsDigit(t[o]))
    && Boundary(t, e)
  }

  lemma RegexMatchIsClause(t: string, i: int, k: int, e: int)
    requires RegexMatch(t, i, k, e)
    ensures LimitAt(t, i) && k == DigitsAt(t, i) && e == i + MatchLen(t, i)
  {
    assert InClass(t[k], Digits);
    RunUnique(t, i + 5, Spaces, k - i - 5);
    assert DigitsAt(t, i) == k;
    assert IsWordChar(t[e - 1]);
    RunUnique(t, k, Digits, e - k);
    assert ClauseLen(t, i) == e - i;
  }

  /** The value read off a match is the value of its digits. */
  lemma RegexMatchValue(t: string, i: int, k: int, e: int)
    requires RegexMatch(t, i, k, e)
    ensures LimitAt(t, i) && k == DigitsAt(t, i) && e == i + MatchLen(t, i)
    ensures LimitValue(t, i) == DigitsValue(t[k..e])
  {
    RegexMatchIsClause(t, i, k, e);
  }

  lemma ClauseIsRegexMatch(t: string, i: int)
    requires LimitAt(t, i)
    ensures RegexMatch(t, i, DigitsAt(t, i), i + MatchLen(t, i))
  {
    var e := i + MatchLen(t, i);
    RunFacts(t, i + 5, Spaces);
    RunFacts(t, DigitsAt(t, i), Digits);
    assert IsDigit(t[e - 1]);
  }

  /**
   * Backtracking cannot find a second reading: the regular expression matches at i with
   * split points k and e exactly when LimitAt holds and k, e are where the maximal runs end.
   */
  lemma RegexMatchIsMaximal(t: string, i: int, k: int, e: int)
    requires 0 <= i < |t|
    ensures RegexMatch(t, i, k, e) <==> LimitAt(t, i) && k == DigitsAt(t, i) && e == i + MatchLen(t, i)
  {
    if RegexMatch(t, i, k, e) {
      RegexMatchIsClause(t, i, k, e);
    }
    if LimitAt(t, i) && k == DigitsAt(t, i) && e == i + MatchLen(t, i) {
      ClauseIsRegexMatch(t, i);
    }
  }

  /**
   * A match depends only on its own characters and on the `\b` at each end: the same
   * characters at a place of u shifted by d, with word boundaries there, match in u.
   */
  lemma RegexMatchMoves(t: string, u: string, i: int, k: int, e: int, d: int)
    requires RegexMatch(t, i, k, e)
    requires 0 <= i + d && e + d <= |u|
    requires forall o :: i + d <= o < e + d ==> u[o] == t[o - d]
    requires Boundary(u, i + d) && Boundary(u, e + d)
    ensures RegexMatch(u, i + d, k + d, e + d)
    ensures t[k..e] == u[k + d..e + d]
  {
    assert u[i + d] == t[i] && u[i + d + 1] == t[i + 1] && u[i + d + 2] == t[i + 2];
    assert u[i + d + 3] == t[i + 3] && u[i + d + 4] == t[i + 4];
    forall o | i + 5 + d <= o < k + d
      ensures IsSpace(u[o])
    {
      assert u[o] == t[o - d];
    }
    forall o | k + d <= o < e + d
      ensures IsDigit(u[o])
    {
      assert u[o] == t[o - d];
    }
    forall o | 0 <= o < e - k
      ensures t[k..e][o] == u[k + d..e + d][o]
    {
      assert u[k + o + d] == t[k + o];
    }
  }

  /**
   * The match at i of t, found again in u at i + d: the same characters there, with a word
   * boundary at each end, give a match of the same length and value.
   */
  lemma MoveLimit(t: string, u: string, i: int, d: int)
    requires LimitAt(t, i)
    requires 0 <= i + d && i + MatchLen(t, i) + d <= |u|
    requires forall o :: i + d <= o < i + MatchLen(t, i) + d ==> u[o] == t[o - d]
    requires Boundary(u, i + d) && Boundary(u, i + MatchLen(t, i) + d)
    ensures LimitAt(u, i + d) && MatchLen(u, i + d) == MatchLen(t, i)
    ensures LimitValue(u, i + d) == LimitValue(t, i)
  {
    var k, e := MoveMatch(t, u, i, d);
    MovedValue(t, u, i, k, e, d);
  }

  lemma MoveMatch(t: string, u: string, i: int, d: int) returns (k: int, e: int)
    requires LimitAt(t, i)
    requires 0 <= i + d && i + MatchLen(t, i) + d <= |u|
    requires forall o :: i + d <= o < i + MatchLen(t, i) + d ==> u[o] == t[o - d]
    requires Boundary(u, i + d) && Boundary(u, i + MatchLen(t, i) + d)
    ensures k == DigitsAt(t, i) && e == i + MatchLen(t, i)
    ensures LimitAt(u, i + d) && k + d == DigitsAt(u, i + d) && e + d == i + d + MatchLen(u, i + d)
    ensures t[k..e] == u[k + d..e + d]
  {
    k, e := DigitsAt(t, i), i + MatchLen(t, i);
    ClauseIsRegexMatch(t, i);
    RegexMatchMoves(t, u, i, k, e, d);
    RegexMatchIsClause(u, i + d, k + d, e + d);
  }

  /** Matches with the same digits have the same value. */
  lemma MovedValue(t: string, u: string, i: int, k: int, e: int, d: int)
    requires LimitAt(t, i) && k == DigitsAt(t, i) && e == i + MatchLen(t, i)
    requires LimitAt(u, i + d) && k + d == DigitsAt(u, i + d) && e + d == i + d + MatchLen(u, i + d)
    requires t[k..e] == u[k + d..e + d]
    ensures LimitValue(u, i + d) == LimitValue(t, i)
  {
  }

  /** Text that is exactly one LIMIT clause, as the lowered text of a match or a replacement. */
  predicate LimitClause(x: string) {
    |x| > 0 && ClauseLen(x, 0) == |x|
  }

  /** The number a clause carries. */
  function ClauseValue(x: string): nat
    requires LimitClause(x)
  {
    LimitValue(x, 0)
  }

  /** A clause matches on its own, at its start. */
  lemma ClauseIsMatch(x: string)
    requires LimitClause(x)
    ensures LimitAt(x, 0) && MatchLen(x, 0) == |x| && LimitValue(x, 0) == ClauseValue(x)
    ensures RegexMatch(x, 0, DigitsAt(x, 0), |x|)
  {
    ClauseIsRegexMatch(x, 0);
  }

  /** The matched text, cut out of the text, is a clause with the match's value. */
  lemma MatchIsClause(t: string, i: int)
    requires LimitAt(t, i)
    ensures i + MatchLen(t, i) <= |t|
    ensures LimitClause(t[i..i + MatchLen(t, i)])
    ensures ClauseValue(t[i..i + MatchLen(t, i)]) == LimitValue(t, i)
  {
    var k, e := DigitsAt(t, i), i + MatchLen(t, i);
    var x := t[i..e];
    CutMatch(t, x, i, k, e);
    RegexMatchClause(x, k - i);
    RegexMatchValue(t, i, k, e);
  }

  lemma CutMatch(t: string, x: string, i: int, k: int, e: int)
    requires LimitAt(t, i) && k == DigitsAt(t, i) && e == i + MatchLen(t, i) && x == t[i..e]
    ensures RegexMatch(t, i, k, e) && RegexMatch(x, 0, k - i, |x|)
    ensures t[k..e] == x[k - i..|x|]
  {
    ClauseIsRegexMatch(t, i);
    assert x[0] == t[i];
    assert x[e - i - 1] == t[e - 1];
    RegexMatchMoves(t, x, i, k, e, -i);
  }

  /** A text that the regular expression matches from start to end is a clause. */
  lemma RegexMatchClause(x: string, k: int)
    requires RegexMatch(x, 0, k, |x|)
    ensures LimitClause(x) && ClauseValue(x) == DigitsValue(x[k..|x|])
  {
    RegexMatchValue(x, 0, k, |x|);
  }
}
