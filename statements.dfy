/**
 * `_single_statement` (main.py:170-172): split on ';', drop the segments that strip to "",
 * and accept when exactly one segment is left.
 */
module Statements {
  import opened Text

  /** Python's `s.split(";")`: the ';'-free segments between separators, at least one. */
  function Split(s: string): (parts: seq<string>)
    ensures |parts| >= 1
    ensures forall k :: 0 <= k < |parts| ==> ';' !in parts[k]
  {
    if s == [] then [[]]
    else
      var rest := Split(s[1..]);
      if s[0] == ';' then [[]] + rest else [[s[0]] + rest[0]] + rest[1..]
  }

  /** Python's `";".join(parts)`. */
  function Join(parts: seq<string>): string
    requires |parts| >= 1
  {
    if |parts| == 1 then parts[0] else parts[0] + ";" + Join(parts[1..])
  }

  /** Joining the segments with ';' gives back the text: Split loses nothing. */
  lemma {:induction false} JoinSplit(s: string)
    ensures Join(Split(s)) == s
  {
    if s != [] {
      var rest := Split(s[1..]);
      JoinSplit(s[1..]);
      if s[0] == ';' {
        assert ([[]] + rest)[1..] == rest;
      } else {
        var parts := [[s[0]] + rest[0]] + rest[1..];
        if |rest| > 1 {
          assert parts[1..] == rest[1..];
          assert Join(rest) == rest[0] + ";" + Join(rest[1..]);
        }
      }
      assert s == [s[0]] + s[1..];
    }
  }

  /** The number of segments that survive `if p.strip()`. */
  function CountStatements(parts: seq<string>): nat {
    if parts == [] then 0
    else (if Strip(parts[0]) != [] then 1 else 0) + CountStatements(parts[1..])
  }

  /** `_single_statement(s)`. */
  predicate SingleStatement(s: string) {
    CountStatements(Split(Strip(s))) == 1
  }

  /** A character that makes a segment a statement: neither whitespace nor a separator. */
  predicate Solid(c: char) {
    !IsSpace(c) && c != ';'
  }

  predicate HasSolid(s: string) {
    exists k :: 0 <= k < |s| && Solid(s[k])
  }

  /** Two segment lists with the same shape: same length, blank at the same indices. */
  predicate Similar(ps: seq<string>, qs: seq<string>) {
    |ps| == |qs| && forall k :: 0 <= k < |ps| ==> IsBlank(ps[k]) == IsBlank(qs[k])
  }

  /** A segment is blank exactly when its first character and the rest are. */
  lemma BlankCons(c: char, p: string)
    ensures IsBlank([c] + p) <==> IsSpace(c) && IsBlank(p)
  {
    var u := [c] + p;
    assert u[0] == c;
    assert forall k :: 1 <= k < |u| ==> u[k] == p[k - 1];
    if !IsBlank(p) {
      var k :| 0 <= k < |p| && !IsSpace(p[k]);
      assert u[k + 1] == p[k];
    }
  }

  lemma {:induction false} SimilarCount(ps: seq<string>, qs: seq<string>)
    requires Similar(ps, qs)
    ensures CountStatements(ps) == CountStatements(qs)
  {
    if ps != [] {
      StripEmptyIffBlank(ps[0]);
      StripEmptyIffBlank(qs[0]);
      SimilarCount(ps[1..], qs[1..]);
    }
  }

  lemma {:induction false} CountAppend(ps: seq<string>, qs: seq<string>)
    ensures CountStatements(ps + qs) == CountStatements(ps) + CountStatements(qs)
  {
    if ps == [] {
      assert ps + qs == qs;
    } else {
      assert (ps + qs)[0] == ps[0];
      assert (ps + qs)[1..] == ps[1..] + qs;
      CountAppend(ps[1..], qs);
    }
  }

  /** A ';'-free text is one segment. */
  lemma {:induction false} SplitNoSeparator(x: string)
    requires ';' !in x
    ensures Split(x) == [x]
  {
    if x != [] {
      SplitNoSeparator(x[1..]);
      assert x == [x[0]] + x[1..];
    }
  }

  /** A ';'-free prefix joins the first segment of what follows. */
  lemma {:induction false} SplitFreePrefix(x: string, y: string)
    requires ';' !in x
    ensures Split(x + y) == [x + Split(y)[0]] + Split(y)[1..]
  {
    if x == [] {
      assert x + y == y;
      assert x + Split(y)[0] == Split(y)[0];
      assert Split(y) == [Split(y)[0]] + Split(y)[1..];
    } else {
      assert (x + y)[0] == x[0];
      assert (x + y)[1..] == x[1..] + y;
      SplitFreePrefix(x[1..], y);
      var r := Split(x[1..] + y);
      assert r[0] == x[1..] + Split(y)[0];
      assert r[1..] == Split(y)[1..];
      assert x[0] != ';';
      assert [x[0]] + r[0] == x + Split(y)[0];
    }
  }

  /** Splitting at a separator: the segments of both sides, concatenated. */
  lemma {:induction false} SplitAtSeparator(a: string, b: string)
    ensures Split(a + ";" + b) == Split(a) + Split(b)
  {
    if a == [] {
      assert a + ";" + b == [';'] + b;
      assert ([';'] + b)[1..] == b;
    } else {
      var u := a + ";" + b;
      assert u[0] == a[0] && u[1..] == a[1..] + ";" + b;
      SplitAtSeparator(a[1..], b);
      var r, q := Split(a[1..]), Split(b);
      assert Split(u[1..]) == r + q;
      if a[0] != ';' {
        assert (r + q)[0] == r[0];
        assert (r + q)[1..] == r[1..] + q;
      }
    }
  }

  lemma SimilarDropSpace(c: char, x: string)
    requires IsSpace(c)
    ensures Similar(Split([c] + x), Split(x))
  {
    var u, rest := [c] + x, Split(x);
    assert u[0] == c && u[1..] == x;
    var ps := Split(u);
    assert ps == [[c] + rest[0]] + rest[1..];
    BlankCons(c, rest[0]);
    forall k | 0 <= k < |rest|
      ensures IsBlank(ps[k]) == IsBlank(rest[k])
    {
      if k > 0 {
        assert ps[k] == rest[k];
      }
    }
  }

  lemma {:induction false} SimilarDropBlankPrefix(p: string, x: string)
    requires IsBlank(p)
    ensures Similar(Split(p + x), Split(x))
  {
    if p == [] {
      assert p + x == x;
    } else {
      assert p + x == [p[0]] + (p[1..] + x);
      SimilarDropSpace(p[0], p[1..] + x);
      SimilarDropBlankPrefix(p[1..], x);
      var u, v, w := Split(p + x), Split(p[1..] + x), Split(x);
      assert Similar(u, v) && Similar(v, w);
      assert |u| == |w|;
      forall k | 0 <= k < |u| ensures IsBlank(u[k]) == IsBlank(w[k]) {
        assert IsBlank(u[k]) == IsBlank(v[k]);
      }
    }
  }

  lemma {:induction false} SimilarDropBlankSuffix(x: string, q: string)
    requires IsBlank(q)
    ensures Similar(Split(x + q), Split(x))
  {
    if x == [] {
      assert x + q == q;
      assert forall k :: 0 <= k < |q| ==> q[k] != ';';
      SplitNoSeparator(q);
    } else {
      assert (x + q)[1..] == x[1..] + q;
      SimilarDropBlankSuffix(x[1..], q);
      var r, r' := Split(x[1..] + q), Split(x[1..]);
      if x[0] != ';' {
        BlankCons(x[0], r[0]);
        BlankCons(x[0], r'[0]);
      }
    }
  }

  /** `sql.strip()` inside `_single_statement` never changes the number of statements. */
  lemma StripKeepsCount(s: string)
    ensures CountStatements(Split(Strip(s))) == CountStatements(Split(s))
  {
    var i, j := StripSlice(s);
    assert s == s[..i] + (s[i..j] + s[j..]);
    SimilarDropBlankPrefix(s[..i], s[i..j] + s[j..]);
    SimilarDropBlankSuffix(s[i..j], s[j..]);
    SimilarCount(Split(s), Split(s[i..j]));
  }

  /** A trailing ';' is allowed: it only adds a blank segment. */
  lemma TrailingSeparatorAllowed(s: string)
    ensures SingleStatement(s + ";") == SingleStatement(s)
  {
    StripKeepsCount(s + ";");
    StripKeepsCount(s);
    assert s + ";" == s + ";" + [];
    SplitAtSeparator(s, []);
    CountAppend(Split(s), Split([]));
  }

  /** No statement survives exactly when the text has nothing but whitespace and separators. */
  lemma {:induction false} NoStatementIffNoSolid(s: string)
    ensures CountStatements(Split(s)) == 0 <==> !HasSolid(s)
  {
    if s != [] {
      NoStatementIffNoSolid(s[1..]);
      var r := Split(s[1..]);
      assert HasSolid(s) <==> Solid(s[0]) || HasSolid(s[1..]) by {
        if HasSolid(s) {
          var k :| 0 <= k < |s| && Solid(s[k]);
          if k > 0 { assert s[1..][k - 1] == s[k]; }
        }
        if HasSolid(s[1..]) {
          var k :| 0 <= k < |s[1..]| && Solid(s[1..][k]);
          assert s[k + 1] == s[1..][k];
        }
      }
      if s[0] != ';' {
        StripEmptyIffBlank([s[0]] + r[0]);
        StripEmptyIffBlank(r[0]);
        BlankCons(s[0], r[0]);
        assert CountStatements(r) == (if Strip(r[0]) != [] then 1 else 0) + CountStatements(r[1..]);
      }
    }
  }

  /** One ';'-free segment with content is a single statement. */
  lemma OneSegmentIsSingle(x: string)
    requires ';' !in x && HasSolid(x)
    ensures SingleStatement(x)
  {
    StripKeepsCount(x);
    SplitNoSeparator(x);
    NoStatementIffNoSolid(x);
  }

  /** Two segments with content around a ';' are two statements. */
  lemma TwoStatementsRejected(p: string, q: string)
    requires HasSolid(p) && HasSolid(q)
    ensures !SingleStatement(p + ";" + q)
  {
    StripKeepsCount(p + ";" + q);
    SplitAtSeparator(p, q);
    CountAppend(Split(p), Split(q));
    NoStatementIffNoSolid(p);
    NoStatementIffNoSolid(q);
  }

  /**
   * Replacing a ';'-free, non-blank piece of text by another one keeps the blank/non-blank
   * shape of every segment: the piece lies inside one segment, which has content either way.
   */
  lemma {:induction false} SimilarSplice(a: string, x: string, x': string, b: string)
    requires ';' !in x && ';' !in x' && !IsBlank(x) && !IsBlank(x')
    ensures Similar(Split(a + x + b), Split(a + x' + b))
  {
    if a == [] {
      assert a + x + b == x + b && a + x' + b == x' + b;
      SimilarAtStart(x, x', b);
    } else {
      assert a + x + b == [a[0]] + (a[1..] + x + b);
      assert a + x' + b == [a[0]] + (a[1..] + x' + b);
      SimilarSplice(a[1..], x, x', b);
      SimilarCons(a[0], a[1..] + x + b, a[1..] + x' + b);
    }
  }

  /** Two ';'-free pieces with content, each followed by b: the first segment has content both times. */
  lemma SimilarAtStart(x: string, x': string, b: string)
    requires ';' !in x && ';' !in x' && !IsBlank(x) && !IsBlank(x')
    ensures Similar(Split(x + b), Split(x' + b))
  {
    SplitFreePrefix(x, b);
    SplitFreePrefix(x', b);
    var k :| 0 <= k < |x| && !IsSpace(x[k]);
    assert (x + Split(b)[0])[k] == x[k];
    var k' :| 0 <= k' < |x'| && !IsSpace(x'[k']);
    assert (x' + Split(b)[0])[k'] == x'[k'];
  }

  /** Putting the same character in front of two texts of the same shape keeps them alike. */
  lemma SimilarCons(c: char, u: string, u': string)
    requires Similar(Split(u), Split(u'))
    ensures Similar(Split([c] + u), Split([c] + u'))
  {
    assert ([c] + u)[1..] == u && ([c] + u')[1..] == u';
    if c != ';' {
      BlankCons(c, Split(u)[0]);
      BlankCons(c, Split(u')[0]);
    }
  }
}
