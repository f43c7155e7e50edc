/**
 * What the rest of a lowered text sees of one LIMIT clause x standing between a and b.
 * The clause begins with the word character 'l' and ends with a digit, and the `\b` on both
 * sides of the match puts a non-word character (or the end of the text) next to it. So a
 * whole word other than "limit", a needle that cannot overlap a clause, and another LIMIT
 * match all lie entirely in a or entirely in b. These facts let the rewrite of main.py:201
 * be shown harmless to every earlier check.
 */
module Splice {
  import opened Text
  import opened Clauses
  import opened Limits

  /** Text that ends, if at all, in a character that is not a word character. */
  predicate LeftEdge(a: string) {
    a == [] || !IsWordChar(a[|a| - 1])
  }

  /** Text that starts, if at all, with a character that is not a word character. */
  predicate RightEdge(b: string) {
    b == [] || !IsWordChar(b[0])
  }

  /** x is a lowered LIMIT clause with a `\b` on each side. */
  predicate InContext(a: string, x: string, b: string) {
    LimitClause(x) && LeftEdge(a) && RightEdge(b)
  }

  predicate AllLetters(w: string) {
    forall k :: 0 <= k < |w| ==> IsLetter(w[k])
  }

  /** The characters of a lowered clause: "limit", then only whitespace and digits, a digit last. */
  lemma ClauseChars(x: string)
    requires LimitClause(x)
    ensures KeywordAt(x, 0) && x[0] == 'l' && x[1] == 'i' && x[2] == 'm' && x[3] == 'i' && x[4] == 't'
    ensures IsSpace(x[5]) && IsDigit(x[|x| - 1])
    ensures forall o :: 5 <= o < |x| ==> IsSpace(x[o]) || IsDigit(x[o])
  {
    ClauseIsMatch(x);
    var k := DigitsAt(x, 0);
    assert forall o :: 5 <= o < k ==> IsSpace(x[o]);
    assert forall o :: k <= o < |x| ==> IsDigit(x[o]);
  }

  lemma SpliceIndex(a: string, x: string, b: string)
    ensures forall o :: 0 <= o < |a| ==> (a + x + b)[o] == a[o]
    ensures forall o :: 0 <= o < |x| ==> (a + x + b)[|a| + o] == x[o]
    ensures forall o :: 0 <= o < |b| ==> (a + x + b)[|a| + |x| + o] == b[o]
  {
  }

  /** A whole word of letters that ends inside a, or starts after x, is unaffected by x. */
  lemma WordAtBefore(a: string, x: string, b: string, w: string, j: int)
    requires InContext(a, x, b) && |w| > 0 && AllLetters(w) && 0 <= j < |a|
    ensures WordAt(a + x + b, w, j) <==> WordAt(a, w, j)
  {
    var t := a + x + b;
    SpliceIndex(a, x, b);
    if WordAt(t, w, j) {
      assert a[j..j + |w|] == t[j..j + |w|];
    }
    if WordAt(a, w, j) {
      assert a[j..j + |w|] == t[j..j + |w|];
    }
  }

  lemma WordAtAfter(a: string, x: string, b: string, w: string, j: int)
    requires InContext(a, x, b) && |w| > 0 && AllLetters(w) && j > |a| + |x|
    ensures WordAt(a + x + b, w, j) <==> WordAt(b, w, j - |a| - |x|)
  {
    SpliceTail(a, x, b);
    WordAtTail(a + x + b, b, w, j, |a| + |x|);
  }

  /** Past position p, where t continues as b, t and b have the same whole words. */
  lemma WordAtTail(t: string, b: string, w: string, j: int, p: int)
    requires 0 < p < j && p + |b| == |t|
    requires forall o :: p <= o < |t| ==> t[o] == b[o - p]
    ensures WordAt(t, w, j) <==> WordAt(b, w, j - p)
  {
    var e := j + |w|;
    if e <= |t| {
      assert t[j - 1] == b[j - p - 1];
      assert j < |t| ==> t[j] == b[j - p];
      assert e < |t| ==> t[e] == b[e - p];
      assert e > 0 ==> t[e - 1] == b[e - p - 1];
      BoundaryShift(t, b, j, -p);
      BoundaryShift(t, b, e, -p);
      assert t[j..e] == b[j - p..e - p];
    }
  }

  /** At the start of the clause the only whole word is "limit". */
  lemma WordAtClauseStart(a: string, x: string, b: string, w: string)
    requires InContext(a, x, b) && |w| > 0 && AllLetters(w)
    ensures WordAt(a + x + b, w, |a|) <==> w == Keyword
  {
    var t := a + x + b;
    ClauseChars(x);
    SpliceIndex(a, x, b);
    assert t[|a|] == x[0] && t[|a| + 4] == x[4] && t[|a| + 5] == x[5];
    assert KeywordAt(t, |a|);
    KeywordAtOccurs(t, |a|);
    if w != Keyword && |a| + |w| <= |t| {
      var v := t[|a|..|a| + |w|];
      if |w| > 5 {
        assert v[5] == x[5];
        assert v != w;
      } else if |w| < 5 {
        assert t[|a| + |w| - 1] == x[|w| - 1] && t[|a| + |w|] == x[|w|];
        assert !Boundary(t, |a| + |w|);
      }
    }
  }

  /** No whole word of letters starts inside the clause after its first character. */
  lemma WordNotInside(a: string, x: string, b: string, w: string, j: int)
    requires InContext(a, x, b) && |w| > 0 && AllLetters(w) && |a| < j <= |a| + |x|
    ensures !WordAt(a + x + b, w, j)
  {
    ClauseChars(x);
  }

  /** Whole-word search across the splice: only the two sides count, for words other than "limit". */
  lemma ContainsWordSplice(a: string, x: string, b: string, w: string)
    requires InContext(a, x, b) && |w| > 0 && AllLetters(w) && w != Keyword
    ensures ContainsWord(a + x + b, w) <==> ContainsWord(a, w) || ContainsWord(b, w)
  {
    var t := a + x + b;
    if ContainsWord(t, w) {
      var j :| 0 <= j <= |t| && WordAt(t, w, j);
      if j < |a| {
        WordAtBefore(a, x, b, w, j);
      } else if j == |a| {
        WordAtClauseStart(a, x, b, w);
      } else if j <= |a| + |x| {
        WordNotInside(a, x, b, w, j);
      } else {
        WordAtAfter(a, x, b, w, j);
      }
    }
    if ContainsWord(a, w) {
      var j :| 0 <= j <= |a| && WordAt(a, w, j);
      WordAtBefore(a, x, b, w, j);
    }
    if ContainsWord(b, w) {
      var j :| 0 <= j <= |b| && WordAt(b, w, j);
      WordAtAfter(a, x, b, w, j + |a| + |x|);
    }
  }

  lemma ContainsLimitWord(a: string, x: string, b: string)
    requires InContext(a, x, b)
    ensures ContainsWord(a + x + b, Keyword)
  {
    WordAtClauseStart(a, x, b, Keyword);
  }

  /** The prefix test `^w\b` only sees a, and fails when a is empty. */
  lemma WordAtStartSplice(a: string, x: string, b: string, w: string)
    requires InContext(a, x, b) && |w| > 0 && AllLetters(w) && w != Keyword
    ensures WordAt(a + x + b, w, 0) <==> a != [] && WordAt(a, w, 0)
  {
    if a == [] {
      WordAtClauseStart(a, x, b, w);
    } else {
      WordAtBefore(a, x, b, w, 0);
    }
  }

  /**
   * A needle that cannot overlap a clause: no 'l', no digit, and one character q that is
   * neither whitespace nor one of 'i', 'm', 't'.
   */
  predicate CannotOverlapClause(n: string, q: int) {
    && 0 <= q < |n|
    && (forall k :: 0 <= k < |n| ==> n[k] != 'l' && !IsDigit(n[k]))
    && !IsSpace(n[q]) && n[q] != 'i' && n[q] != 'm' && n[q] != 't'
  }

  /** Such a needle has no occurrence that overlaps the clause. */
  lemma NoOverlap(a: string, x: string, b: string, n: string, q: int, j: int)
    requires InContext(a, x, b) && CannotOverlapClause(n, q)
    requires 0 <= j < |a| + |x| && j + |n| > |a|
    ensures !OccursAt(a + x + b, n, j)
  {
    var t := a + x + b;
    ClauseChars(x);
    if j + |n| <= |t| {
      var o := if j <= |a| then |a| - j else if j + |n| > |a| + |x| then |a| + |x| - 1 - j else q;
      assert t[j..j + |n|][o] == t[j + o];
      assert t[j + o] == x[j + o - |a|];
      assert t[j + o] != n[o];
    }
  }

  lemma ContainsSplice(a: string, x: string, b: string, n: string, q: int)
    requires InContext(a, x, b) && CannotOverlapClause(n, q)
    ensures Contains(a + x + b, n) <==> Contains(a, n) || Contains(b, n)
  {
    var t := a + x + b;
    if Contains(t, n) {
      var j :| 0 <= j <= |t| && OccursAt(t, n, j);
      if j + |n| <= |a| {
        assert a[j..j + |n|] == t[j..j + |n|];
        assert OccursAt(a, n, j);
      } else if j >= |a| + |x| {
        var j' := j - |a| - |x|;
        assert b[j'..j' + |n|] == t[j..j + |n|];
        assert OccursAt(b, n, j');
      } else {
        NoOverlap(a, x, b, n, q, j);
      }
    }
    if Contains(a, n) {
      var j :| 0 <= j <= |a| && OccursAt(a, n, j);
      assert a[j..j + |n|] == t[j..j + |n|];
      assert OccursAt(t, n, j);
    }
    if Contains(b, n) {
      var j :| 0 <= j <= |b| && OccursAt(b, n, j);
      var j' := j + |a| + |x|;
      assert b[j..j + |n|] == t[j'..j' + |n|];
      assert OccursAt(t, n, j');
    }
  }

  /** The replacement text, lowered, is one clause whose value is the cap. */
  lemma ReplacementClause(n: nat)
    ensures LimitClause(Lower(Replacement(n))) && ClauseValue(Lower(Replacement(n))) == n
  {
    var d := NatToDigits(n);
    LowerReplacement(d);
    DigitsClause(d);
    DigitsRoundTrip(n);
  }

  lemma LowerReplacement(d: string)
    requires AllDigits(d)
    ensures Lower("LIMIT " + d) == "limit " + d
  {
    var x := Lower("LIMIT " + d);
    assert forall o :: 6 <= o < |x| ==> x[o] == d[o - 6];
  }

  /** "limit " and a non-empty run of digits is one clause, valued by its digits. */
  lemma DigitsClause(d: string)
    requires AllDigits(d) && |d| > 0
    ensures LimitClause("limit " + d) && ClauseValue("limit " + d) == DigitsValue(d)
  {
    var x := "limit " + d;
    assert forall o :: 6 <= o < |x| ==> IsDigit(x[o]) by {
      assert forall o :: 6 <= o < |x| ==> x[o] == d[o - 6];
    }
    assert IsWordChar(x[|x| - 1]);
    assert RegexMatch(x, 0, 6, |x|);
    RegexMatchClause(x, 6);
    assert x[6..|x|] == d;
  }

  /** Whether `\b` holds depends only on the characters on either side. */
  lemma BoundaryShift(t: string, u: string, i: int, d: int)
    requires 0 <= i <= |t| && 0 <= i + d <= |u|
    requires (i > 0) == (i + d > 0) && (i < |t|) == (i + d < |u|)
    requires i > 0 ==> t[i - 1] == u[i + d - 1]
    requires i < |t| ==> t[i] == u[i + d]
    ensures Boundary(t, i) == Boundary(u, i + d)
  {
  }

  /** The characters of x + b from p on are those of b. */
  lemma SpliceTail(a: string, x: string, b: string)
    ensures forall o :: |a| + |x| <= o < |a| + |x| + |b| ==> (a + x + b)[o] == b[o - |a| - |x|]
  {
  }

  /** LIMIT matches that start after x are those of b, shifted, with the same values. */
  lemma LimitAfter(a: string, x: string, b: string, j: int)
    requires InContext(a, x, b) && j >= |a| + |x|
    ensures LimitAt(a + x + b, j) <==> LimitAt(b, j - |a| - |x|)
    ensures LimitAt(b, j - |a| - |x|) ==> LimitValue(a + x + b, j) == LimitValue(b, j - |a| - |x|)
  {
    var t, p := a + x + b, |a| + |x|;
    ClauseChars(x);
    if j == p {
      assert t[p - 1] == x[|x| - 1];
      assert p < |t| ==> t[p] == b[0];
    } else {
      if LimitAt(t, j) {
        SpliceIndex(a, x, b);
        PastClause(t, b, j, p);
      }
      if LimitAt(b, j - p) {
        SpliceTail(a, x, b);
        IntoText(b, t, j - p, p);
      }
    }
  }

  /** A match of t past position p, where t continues as b, is a match of b. */
  lemma PastClause(t: string, b: string, j: int, p: int)
    requires LimitAt(t, j) && 0 < p < j && p + |b| == |t|
    requires forall o :: 0 <= o < |b| ==> b[o] == t[o + p]
    ensures LimitAt(b, j - p) && LimitValue(b, j - p) == LimitValue(t, j)
  {
    var e := j + MatchLen(t, j);
    ClauseIsRegexMatch(t, j);
    assert t[j - 1] == b[j - p - 1] && t[j] == b[j - p];
    assert e < |t| ==> t[e] == b[e - p];
    assert t[e - 1] == b[e - p - 1];
    BoundaryShift(t, b, j, -p);
    BoundaryShift(t, b, e, -p);
    MoveLimit(t, b, j, -p);
  }

  /** A match of b away from its start is a match of t, where t continues as b from p on. */
  lemma IntoText(b: string, t: string, j: int, p: int)
    requires LimitAt(b, j) && 0 < j && 0 < p && p + |b| == |t|
    requires forall o :: p <= o < |t| ==> t[o] == b[o - p]
    ensures LimitAt(t, j + p) && LimitValue(t, j + p) == LimitValue(b, j)
  {
    var e := j + MatchLen(b, j);
    ClauseIsRegexMatch(b, j);
    assert b[j - 1] == t[j + p - 1] && b[j] == t[j + p];
    assert e < |b| ==> b[e] == t[e + p];
    assert b[e - 1] == t[e + p - 1];
    BoundaryShift(b, t, j, p);
    BoundaryShift(b, t, e, p);
    MoveLimit(b, t, j, p);
  }

  /** No LIMIT match starts inside x after its first character. */
  lemma LimitNotInside(a: string, x: string, b: string, j: int)
    requires InContext(a, x, b)
    ensures |a| < j < |a| + |x| ==> !LimitAt(a + x + b, j)
  {
    if |a| < j < |a| + |x| {
      var t := a + x + b;
      ClauseChars(x);
      assert t[j] == x[j - |a|];
    }
  }

  /** LIMIT matches that start in a, before a clause in context, are those of a alone. */
  lemma LimitBeforeClause(a: string, x: string, b: string, j: int)
    requires InContext(a, x, b) && 0 <= j < |a|
    ensures LimitAt(a + x + b, j) <==> LimitAt(a, j)
  {
    var t := a + x + b;
    ClauseChars(x);
    assert t[|a|] == x[0] && t[|a| - 1] == a[|a| - 1];
    if LimitAt(t, j) {
      ClauseIsRegexMatch(t, j);
      StopsBefore(t, j, DigitsAt(t, j), j + MatchLen(t, j), |a|);
      SpliceIndex(a, x, b);
      SameStart(t, a, j);
    }
    if LimitAt(a, j) {
      ClauseIsRegexMatch(a, j);
      assert IsWordChar(a[j + MatchLen(a, j) - 1]);
      SpliceIndex(a, x, b);
      SameStart(a, t, j);
    }
  }

  /** A match of t that ends before the end of u, where u and t agree, is a match of u. */
  lemma SameStart(t: string, u: string, j: int)
    requires LimitAt(t, j) && j + MatchLen(t, j) < |u| && j + MatchLen(t, j) < |t|
    requires forall o :: 0 <= o < |u| && o < |t| ==> u[o] == t[o]
    ensures LimitAt(u, j)
  {
    var e := j + MatchLen(t, j);
    ClauseIsRegexMatch(t, j);
    assert j > 0 ==> t[j - 1] == u[j - 1];
    assert t[j] == u[j] && t[e - 1] == u[e - 1];
    assert t[e] == u[e];
    BoundaryShift(t, u, j, 0);
    BoundaryShift(t, u, e, 0);
    MoveLimit(t, u, j, 0);
  }

  /**
   * A match cannot run past a non-word character that is followed by 'l': the character
   * is neither a keyword letter nor a digit, and 'l' cannot continue the whitespace.
   */
  lemma StopsBefore(t: string, j: int, k: int, e: int, p: int)
    requires RegexMatch(t, j, k, e) && j < p < |t|
    requires !IsWordChar(t[p - 1]) && t[p] == 'l'
    ensures e < p
  {
    assert !(j <= p - 1 < j + 5);
    assert !(k <= p - 1 < e);
    assert !(j + 5 <= p < e);
  }

  /** The characters of a + x + b from |a| to |a| + |x| are those of x. */
  lemma SpliceMiddle(a: string, x: string, b: string)
    ensures forall o :: |a| <= o < |a| + |x| ==> (a + x + b)[o] == x[o - |a|]
  {
  }

  /** x itself is the match at |a|, and its value is the clause's. */
  lemma LimitAtClause(a: string, x: string, b: string)
    requires InContext(a, x, b)
    ensures LimitAt(a + x + b, |a|) && MatchLen(a + x + b, |a|) == |x|
    ensures LimitValue(a + x + b, |a|) == ClauseValue(x)
  {
    var t := a + x + b;
    ClauseIsMatch(x);
    ClauseChars(x);
    assert t[|a|] == x[0] && t[|a| + |x| - 1] == x[|x| - 1];
    assert |a| > 0 ==> t[|a| - 1] == a[|a| - 1];
    assert |a| + |x| < |t| ==> t[|a| + |x|] == b[0];
    SpliceMiddle(a, x, b);
    MoveLimit(x, t, 0, |a|);
  }
}
