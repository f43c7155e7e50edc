/**
 * The safety gate on generated SQL (main.py:164-203): `validate_sql` either rejects the text
 * with one of six HTTP 400 errors, checked in a fixed order, or returns the stripped text
 * with every LIMIT clause rewritten to the cap when the first one exceeds it.
 *
 * Most lemmas here support SqlGate.RewriteCapsAll, the proof that the rewrite keeps every
 * verdict. The short `requires u == v` lemmas (SameClause, SameLower, SameMatch, Regroup,
 * LowerOf and the like) are congruence steps of that proof: each carries one fact across an
 * equality, so that the solver does not unfold both sides.
 */
module SqlGate {
  import opened Text
  import opened Wrappers
  import opened Statements
  import opened Clauses
  import opened Limits
  import opened Splice

  /** The HTTP 400 rejections of `validate_sql`, one per check. */
  datatype SqlError =
    | NoSql              // "SQL üretilemedi."
    | NotAReadQuery      // "Sadece SELECT sorgularına izin veriliyor."
    | ForbiddenKeyword   // "Yasak SQL anahtar kelimesi tespit edildi."
    | MultipleStatements // "Tek bir SQL statement olmalı."
    | SchemaNotAllowed   // "Sadece mart şemasına erişim var (mart.*)."
    | LimitRequired      // "LIMIT zorunlu (maks MAX_ROWS)."

  /** The alternatives of the `BANNED` pattern, main.py:164-167. */
  const Banned: seq<string> :=
    ["insert", "update", "delete", "drop", "alter", "create", "truncate", "grant", "revoke", "vacuum", "copy"]

  /** `re.match(r"^(select|with)\b", s, re.IGNORECASE)`, on the lowered text t. */
  predicate ReadQuery(t: string) {
    WordAt(t, "select", 0) || WordAt(t, "with", 0)
  }

  /** `BANNED.search(s)`, on the lowered text t. */
  predicate HasBannedWord(t: string) {
    exists k :: 0 <= k < |Banned| && ContainsWord(t, Banned[k])
  }

  /** The text mentions a FROM in one of the three spellings the gate looks for. */
  predicate MentionsFrom(t: string) {
    Contains(t, " from ") || Contains(t, "\nfrom ") || Contains(t, "\tfrom ")
  }

  /** The schema rule of main.py:191-192. */
  predicate SchemaOk(t: string) {
    !MentionsFrom(t) || Contains(t, "mart.")
  }

  /** `re.search(r"\blimit\b", lowered) is not None`. */
  predicate HasLimitWord(t: string) {
    ContainsWord(t, Keyword)
  }

  /** The checks made on the lowered text. */
  predicate LoweredChecks(t: string) {
    ReadQuery(t) && !HasBannedWord(t) && SchemaOk(t) && HasLimitWord(t)
  }

  /** Every rejecting check passes on the stripped text s. */
  predicate Admissible(s: string) {
    LoweredChecks(Lower(s)) && SingleStatement(s)
  }

  /** The first `limit <digits>` clause, if any, is within the cap: what the gate enforces. */
  predicate FirstLimitWithin(s: string, maxRows: nat) {
    var t := Lower(s);
    match FindLimit(t, 0)
    case Some(j) => LimitValue(t, j) <= maxRows
    case None => true
  }

  /** What `validate_sql` lets through: stripped, every check passed, the first LIMIT capped. */
  predicate Accepted(s: string, maxRows: nat) {
    IsStripped(s) && Admissible(s) && FirstLimitWithin(s, maxRows)
  }

  /** `validate_sql(sql)` with `MAX_ROWS == maxRows`. */
  function ValidateSql(sql: string, maxRows: nat): (r: Result<string, SqlError>)
    ensures r.Success? ==> Accepted(r.value, maxRows)
    ensures r.Success? <==> sql != [] && Admissible(Strip(sql))
  {
    if sql == [] then Failure(NoSql)
    else
      var s := Strip(sql);
      var t := Lower(s);
      if !ReadQuery(t) then Failure(NotAReadQuery)
      else if HasBannedWord(t) then Failure(ForbiddenKeyword)
      else if !SingleStatement(s) then Failure(MultipleStatements)
      else if !SchemaOk(t) then Failure(SchemaNotAllowed)
      else if !HasLimitWord(t) then Failure(LimitRequired)
      else
        ClampAccepted(s, maxRows);
        Success(Clamp(s, maxRows))
  }

  // ---------------------------------------------------------------------------------------
  // The checks seen across a LIMIT clause.

  lemma BannedWordsShape()
    ensures forall k :: 0 <= k < |Banned| ==> |Banned[k]| > 0 && AllLetters(Banned[k]) && Banned[k] != Keyword
  {
  }

  /** On lowered text, each check sees a clause in context only through what surrounds it. */
  lemma ChecksSplice(a: string, x: string, b: string)
    requires InContext(a, x, b)
    ensures ReadQuery(a + x + b) <==> a != [] && ReadQuery(a)
    ensures HasBannedWord(a + x + b) <==> HasBannedWord(a) || HasBannedWord(b)
    ensures MentionsFrom(a + x + b) <==> MentionsFrom(a) || MentionsFrom(b)
    ensures Contains(a + x + b, "mart.") <==> Contains(a, "mart.") || Contains(b, "mart.")
    ensures HasLimitWord(a + x + b)
  {
    WordAtStartSplice(a, x, b, "select");
    WordAtStartSplice(a, x, b, "with");
    BannedSplice(a, x, b);
    FromSplice(a, x, b);
    ContainsLimitWord(a, x, b);
  }

  lemma BannedSplice(a: string, x: string, b: string)
    requires InContext(a, x, b)
    ensures HasBannedWord(a + x + b) <==> HasBannedWord(a) || HasBannedWord(b)
  {
    BannedWordsShape();
    forall k | 0 <= k < |Banned|
      ensures ContainsWord(a + x + b, Banned[k]) <==> ContainsWord(a, Banned[k]) || ContainsWord(b, Banned[k])
    {
      ContainsWordSplice(a, x, b, Banned[k]);
    }
  }

  lemma FromSplice(a: string, x: string, b: string)
    requires InContext(a, x, b)
    ensures MentionsFrom(a + x + b) <==> MentionsFrom(a) || MentionsFrom(b)
    ensures Contains(a + x + b, "mart.") <==> Contains(a, "mart.") || Contains(b, "mart.")
  {
    assert CannotOverlapClause(" from ", 1);
    assert CannotOverlapClause("\nfrom ", 1);
    assert CannotOverlapClause("\tfrom ", 1);
    assert CannotOverlapClause("mart.", 1);
    ContainsSplice(a, x, b, " from ", 1);
    ContainsSplice(a, x, b, "\nfrom ", 1);
    ContainsSplice(a, x, b, "\tfrom ", 1);
    ContainsSplice(a, x, b, "mart.", 1);
  }

  /** Text whose lowered form is a LIMIT clause has no ';' and is not blank. */
  lemma ClauseTextShape(m: string)
    requires LimitClause(Lower(m))
    ensures ';' !in m && !IsBlank(m)
    ensures !IsSpace(m[0]) && !IsSpace(m[|m| - 1])
  {
    var x := Lower(m);
    ClauseChars(x);
    assert LowerChar(m[0]) == x[0];
    assert LowerChar(m[|m| - 1]) == x[|x| - 1];
    forall k | 0 <= k < |m| ensures m[k] != ';' {
      assert LowerChar(m[k]) == x[k];
      if k >= 5 {
        assert IsSpace(x[k]) || IsDigit(x[k]);
      }
    }
  }

  lemma LowerSplice(pre: string, m: string, post: string)
    ensures Lower(pre + m + post) == Lower(pre) + Lower(m) + Lower(post)
  {
    LowerAppend(pre, m);
    LowerAppend(pre + m, post);
  }

  lemma LoweredSwap(a: string, x: string, y: string, b: string)
    requires InContext(a, x, b) && InContext(a, y, b)
    ensures LoweredChecks(a + x + b) <==> LoweredChecks(a + y + b)
  {
    ChecksSplice(a, x, b);
    ChecksSplice(a, y, b);
  }

  lemma StatementSwap(pre: string, m: string, r: string, post: string)
    requires ';' !in m && ';' !in r && !IsBlank(m) && !IsBlank(r)
    ensures SingleStatement(pre + m + post) <==> SingleStatement(pre + r + post)
  {
    StripKeepsCount(pre + m + post);
    StripKeepsCount(pre + r + post);
    SimilarSplice(pre, m, r, post);
    SimilarCount(Split(pre + m + post), Split(pre + r + post));
  }

  lemma StrippedSwap(pre: string, m: string, r: string, post: string)
    requires m != [] && r != []
    requires !IsSpace(m[0]) && !IsSpace(m[|m| - 1]) && !IsSpace(r[0]) && !IsSpace(r[|r| - 1])
    ensures IsStripped(pre + m + post) <==> IsStripped(pre + r + post)
  {
    var u, v := pre + m + post, pre + r + post;
    if pre != [] {
      assert u[0] == pre[0] && v[0] == pre[0];
    } else {
      assert u[0] == m[0] && v[0] == r[0];
    }
    if post != [] {
      assert u[|u| - 1] == post[|post| - 1] && v[|v| - 1] == post[|post| - 1];
    } else {
      assert u[|u| - 1] == m[|m| - 1] && v[|v| - 1] == r[|r| - 1];
    }
  }

  // ---------------------------------------------------------------------------------------
  // The rewrite, one clause at a time.

  /** Every match from i on has value n. */
  ghost predicate CappedFrom(u: string, i: int, n: nat) {
    forall j :: i <= j && LimitAt(u, j) ==> LimitValue(u, j) == n
  }

  /** The text before a match ends in a non-word character. */
  lemma PrefixContext(s: string, i: nat)
    requires i < |s| && LimitAt(Lower(s), i)
    ensures LeftEdge(Lower(s[..i]))
  {
    var t := Lower(s);
    assert KeywordAt(t, i);
    if i > 0 {
      LowerSlice(s, 0, i);
      assert Lower(s[..i])[i - 1] == t[i - 1];
    }
  }

  /** The matched text is a clause of its own. */
  lemma MatchedClause(s: string, i: nat)
    requires i < |s| && LimitAt(Lower(s), i)
    ensures i + MatchLen(Lower(s), i) <= |s|
    ensures LimitClause(Lower(s[i..i + MatchLen(Lower(s), i)]))
  {
    var t := Lower(s);
    var e := i + MatchLen(t, i);
    MatchIsClause(t, i);
    LoweredClause(s, t, i, e);
  }

  /** A clause found in the lowered text is the lowered slice of the text. */
  lemma LoweredClause(s: string, t: string, i: nat, e: nat)
    requires t == Lower(s) && i <= e <= |s| && LimitClause(t[i..e])
    ensures LimitClause(Lower(s[i..e]))
  {
    LowerSlice(s, i, e);
    SameClause(Lower(s[i..e]), t[i..e]);
  }

  /** Congruence for equal texts: lets a caller use a fact about v for u without unfolding either. */
  lemma SameClause(u: string, v: string)
    requires u == v && LimitClause(v)
    ensures LimitClause(u)
  {
  }

  /** What the scan resumes on after a match starts with a non-word character. */
  lemma RestContext(s: string, i: nat, rep: string)
    requires i < |s| && LimitAt(Lower(s), i)
    ensures i + MatchLen(Lower(s), i) <= |s|
    ensures RightEdge(Lower(ReplaceFrom(s, i + MatchLen(Lower(s), i), rep)))
  {
    var t := Lower(s);
    var e := i + MatchLen(t, i);
    ClauseIsRegexMatch(t, i);
    if e < |s| {
      assert IsWordChar(t[e - 1]) && !IsWordChar(t[e]);
      assert !KeywordAt(t, e);
      var rest := ReplaceFrom(s, e, rep);
      assert rest == [s[e]] + ReplaceFrom(s, e + 1, rep);
      assert Lower(rest)[0] == LowerChar(s[e]);
    }
  }

  lemma Regroup(s: string, i: nat, len: nat, rep: string, r: string, rest: string)
    requires i + len <= |s| && r == rep + rest
    ensures s[..i] + r == s[..i] + rep + rest
    ensures s[..i + len] + rest == s[..i] + s[i..i + len] + rest
  {
    assert s[..i + len] == s[..i] + s[i..i + len];
  }

  /** What the rewrite produces at a match: the prefix, the replacement, the rest rewritten. */
  lemma MatchStep(s: string, i: nat, rep: string)
    requires i < |s| && LimitAt(Lower(s), i)
    ensures i + MatchLen(Lower(s), i) <= |s|
    ensures Rewritten(s, i, rep) == s[..i] + rep + ReplaceFrom(s, i + MatchLen(Lower(s), i), rep)
    ensures Rewritten(s, i + MatchLen(Lower(s), i), rep) ==
      s[..i] + s[i..i + MatchLen(Lower(s), i)] + ReplaceFrom(s, i + MatchLen(Lower(s), i), rep)
  {
    var len := MatchLen(Lower(s), i);
    var r, rest := ReplaceFrom(s, i, rep), ReplaceFrom(s, i + len, rep);
    ReplaceAtMatch(s, i, rep);
    Regroup(s, i, len, rep, r, rest);
    assert Rewritten(s, i, rep) == s[..i] + r;
    assert Rewritten(s, i + len, rep) == s[..i + len] + rest;
  }

  /** rep, lowered, is one LIMIT clause whose value is n: what the rewrite puts in. */
  predicate CapClause(rep: string, n: nat) {
    LimitClause(Lower(rep)) && ClauseValue(Lower(rep)) == n
  }

  /** The pieces around a match have word boundaries on both sides of the clause. */
  lemma MatchPieces(s: string, i: nat, rep: string, n: nat)
    requires i < |s| && LimitAt(Lower(s), i) && CapClause(rep, n)
    ensures i + MatchLen(Lower(s), i) <= |s|
    ensures InContext(Lower(s[..i]), Lower(s[i..i + MatchLen(Lower(s), i)]),
      Lower(ReplaceFrom(s, i + MatchLen(Lower(s), i), rep)))
    ensures InContext(Lower(s[..i]), Lower(rep), Lower(ReplaceFrom(s, i + MatchLen(Lower(s), i), rep)))
  {
    MatchedClause(s, i);
    PrefixContext(s, i);
    RestContext(s, i, rep);
  }

  /** Congruence for equal texts: lets a caller use a fact about v for u without unfolding either. */
  lemma SameVerdicts(u: string, v: string)
    requires u == v
    ensures (Admissible(u) <==> Admissible(v)) && (IsStripped(u) <==> IsStripped(v))
  {
  }

  /** Congruence for equal texts: lets a caller use a fact about v for u without unfolding either. */
  lemma SameLower(u: string, v: string)
    requires u == v
    ensures Lower(u) == Lower(v)
  {
  }

  /** Congruence for equal texts: lets a caller use a fact about v for u without unfolding either. */
  lemma SameMatch(u: string, v: string, j: int)
    requires u == v
    ensures LimitAt(u, j) <==> LimitAt(v, j)
    ensures LimitAt(u, j) ==> LimitValue(u, j) == LimitValue(v, j)
  {
  }

  /** Congruence for a text given by its three pieces: lowering it lowers each piece. */
  lemma LowerOf(r: string, pre: string, m: string, post: string)
    requires r == pre + m + post
    ensures Lower(r) == Lower(pre) + Lower(m) + Lower(post)
  {
    LowerSplice(pre, m, post);
  }

  /**
   * The text before and after the scan passes a match at i, in pieces: the prefix pre, the
   * matched text m or the replacement, and the rewritten rest.
   */
  lemma MatchRaw(s: string, i: nat, rep: string) returns (pre: string, m: string, rest: string)
    requires i < |s| && LimitAt(Lower(s), i)
    ensures pre == s[..i] && m == s[i..i + MatchLen(Lower(s), i)]
    ensures rest == ReplaceFrom(s, i + MatchLen(Lower(s), i), rep)
    ensures |pre| == i && Resume(s, i) == i + |m|
    ensures Rewritten(s, i, rep) == pre + rep + rest
    ensures Rewritten(s, Resume(s, i), rep) == pre + m + rest
  {
    ResumeAtMatch(s, i);
    var len := MatchLen(Lower(s), i);
    MatchStep(s, i, rep);
    pre, m, rest := s[..i], s[i..i + len], ReplaceFrom(s, i + len, rep);
  }

  /** The clause, matched or replaced, has word boundaries on both sides. */
  lemma MatchContext(s: string, i: nat, rep: string, n: nat, pre: string, m: string, rest: string)
    requires i < |s| && LimitAt(Lower(s), i) && CapClause(rep, n)
    requires pre == s[..i] && m == s[i..i + MatchLen(Lower(s), i)]
    requires rest == ReplaceFrom(s, i + MatchLen(Lower(s), i), rep)
    ensures InContext(Lower(pre), Lower(m), Lower(rest)) && InContext(Lower(pre), Lower(rep), Lower(rest))
  {
    MatchPieces(s, i, rep, n);
  }

  /** The same pieces, lowered: the clause x or y in its context a, b. */
  lemma MatchSplit(s: string, i: nat, rep: string, n: nat) returns (a: string, x: string, y: string, b: string)
    requires i < |s| && LimitAt(Lower(s), i) && CapClause(rep, n)
    ensures InContext(a, x, b) && InContext(a, y, b)
    ensures y == Lower(rep) && |a| == i && Resume(s, i) == i + |x|
    ensures Lower(Rewritten(s, i, rep)) == a + y + b
    ensures Lower(Rewritten(s, Resume(s, i), rep)) == a + x + b
  {
    var pre, m, rest := MatchRaw(s, i, rep);
    MatchContext(s, i, rep, n, pre, m, rest);
    LowerOf(Rewritten(s, i, rep), pre, rep, rest);
    LowerOf(Rewritten(s, Resume(s, i), rep), pre, m, rest);
    a, x, y, b := Lower(pre), Lower(m), Lower(rep), Lower(rest);
  }

  /** Congruence for equal texts: lets a caller use a fact about v for u without unfolding either. */
  lemma SameChecks(u: string, v: string)
    requires u == v
    ensures LoweredChecks(u) <==> LoweredChecks(v)
  {
  }

  /** Congruence for equal texts: lets a caller use a fact about v for u without unfolding either. */
  lemma SameShape(u: string, v: string)
    requires u == v
    ensures SingleStatement(u) <==> SingleStatement(v)
    ensures IsStripped(u) <==> IsStripped(v)
  {
  }

  /** Passing a match keeps the verdict of the checks made on the lowered text. */
  lemma MatchChecks(s: string, i: nat, rep: string, n: nat)
    requires i < |s| && LimitAt(Lower(s), i) && CapClause(rep, n)
    ensures LoweredChecks(Lower(Rewritten(s, i, rep))) <==> LoweredChecks(Lower(Rewritten(s, Resume(s, i), rep)))
  {
    var a, x, y, b := MatchSplit(s, i, rep, n);
    LoweredSwap(a, x, y, b);
    SameChecks(Lower(Rewritten(s, i, rep)), a + y + b);
    SameChecks(Lower(Rewritten(s, Resume(s, i), rep)), a + x + b);
  }

  /** Passing a match keeps the number of statements and keeps the text stripped. */
  lemma MatchShape(s: string, i: nat, rep: string, n: nat)
    requires i < |s| && LimitAt(Lower(s), i) && CapClause(rep, n)
    ensures SingleStatement(Rewritten(s, i, rep)) <==> SingleStatement(Rewritten(s, Resume(s, i), rep))
    ensures IsStripped(Rewritten(s, i, rep)) <==> IsStripped(Rewritten(s, Resume(s, i), rep))
  {
    var pre, m, rest := MatchRaw(s, i, rep);
    MatchContext(s, i, rep, n, pre, m, rest);
    ClauseTextShape(m);
    ClauseTextShape(rep);
    StatementSwap(pre, m, rep, rest);
    StrippedSwap(pre, m, rep, rest);
    SameShape(Rewritten(s, i, rep), pre + rep + rest);
    SameShape(Rewritten(s, Resume(s, i), rep), pre + m + rest);
  }

  /** Passing a match keeps the verdict of every check. */
  lemma MatchVerdicts(s: string, i: nat, rep: string, n: nat)
    requires i < |s| && LimitAt(Lower(s), i) && CapClause(rep, n)
    ensures Admissible(Rewritten(s, i, rep)) <==> Admissible(Rewritten(s, Resume(s, i), rep))
    ensures IsStripped(Rewritten(s, i, rep)) <==> IsStripped(Rewritten(s, Resume(s, i), rep))
  {
    MatchChecks(s, i, rep, n);
    MatchShape(s, i, rep, n);
  }

  /** Passing a character that starts no match changes nothing. */
  lemma MissVerdicts(s: string, i: nat, rep: string)
    requires i < |s| && !LimitAt(Lower(s), i)
    ensures Admissible(Rewritten(s, i, rep)) <==> Admissible(Rewritten(s, Resume(s, i), rep))
    ensures IsStripped(Rewritten(s, i, rep)) <==> IsStripped(Rewritten(s, Resume(s, i), rep))
  {
    MissStep(s, i, rep);
    SameVerdicts(Rewritten(s, i, rep), Rewritten(s, Resume(s, i), rep));
  }

  /** Passing a match at i leaves the matches before i alone. */
  lemma MatchBefore(s: string, i: nat, rep: string, n: nat, j: nat)
    requires i < |s| && LimitAt(Lower(s), i) && CapClause(rep, n) && j < i
    ensures LimitAt(Lower(Rewritten(s, i, rep)), j) <==> LimitAt(Lower(Rewritten(s, Resume(s, i), rep)), j)
  {
    var a, x, y, b := MatchSplit(s, i, rep, n);
    LimitBeforeClause(a, y, b, j);
    LimitBeforeClause(a, x, b, j);
    SameMatch(Lower(Rewritten(s, i, rep)), a + y + b, j);
    SameMatch(Lower(Rewritten(s, Resume(s, i), rep)), a + x + b, j);
  }

  lemma MissBefore(s: string, i: nat, rep: string, j: nat)
    requires i < |s| && !LimitAt(Lower(s), i)
    ensures LimitAt(Lower(Rewritten(s, i, rep)), j) <==> LimitAt(Lower(Rewritten(s, Resume(s, i), rep)), j)
  {
    MissStep(s, i, rep);
    SameLower(Rewritten(s, i, rep), Rewritten(s, Resume(s, i), rep));
    SameMatch(Lower(Rewritten(s, i, rep)), Lower(Rewritten(s, Resume(s, i), rep)), j);
  }

  /**
   * Passing a match at i: a match at j >= i of the new text is the replacement itself (done),
   * or the match at j' of the text the scan resumes on, with the same value.
   */
  lemma MatchCapped(s: string, i: nat, rep: string, n: nat, j: nat) returns (done: bool, j': nat)
    requires i < |s| && LimitAt(Lower(s), i) && CapClause(rep, n) && i <= j
    requires LimitAt(Lower(Rewritten(s, i, rep)), j)
    ensures done ==> LimitValue(Lower(Rewritten(s, i, rep)), j) == n
    ensures !done ==> Resume(s, i) <= j' && LimitAt(Lower(Rewritten(s, Resume(s, i), rep)), j')
    ensures !done ==>
      LimitValue(Lower(Rewritten(s, i, rep)), j) == LimitValue(Lower(Rewritten(s, Resume(s, i), rep)), j')
  {
    var a, x, y, b := MatchSplit(s, i, rep, n);
    SameMatch(Lower(Rewritten(s, i, rep)), a + y + b, j);
    LimitNotInside(a, y, b, j);
    if j == i {
      LimitAtClause(a, y, b);
      done, j' := true, 0;
    } else {
      done, j' := false, j - |y| + |x|;
      LimitAfter(a, y, b, j);
      LimitAfter(a, x, b, j');
      SameMatch(Lower(Rewritten(s, Resume(s, i), rep)), a + x + b, j');
    }
  }

  /** Passing a character that starts no match: the matches from i on move to the next position. */
  lemma MissCapped(s: string, i: nat, rep: string, n: nat, j: nat)
    requires i < |s| && !LimitAt(Lower(s), i) && CapClause(rep, n) && i <= j
    requires LimitAt(Lower(Rewritten(s, i, rep)), j)
    ensures Resume(s, i) <= j && LimitAt(Lower(Rewritten(s, Resume(s, i), rep)), j)
    ensures LimitValue(Lower(Rewritten(s, i, rep)), j) == LimitValue(Lower(Rewritten(s, Resume(s, i), rep)), j)
  {
    MissStep(s, i, rep);
    MissPast(s, i, rep, n, j);
    SameRewrite(Rewritten(s, i, rep), Rewritten(s, Resume(s, i), rep), j);
  }

  /** The position passed starts no match in the new text either. */
  lemma MissPast(s: string, i: nat, rep: string, n: nat, j: nat)
    requires i < |s| && !LimitAt(Lower(s), i) && CapClause(rep, n) && i <= j
    requires LimitAt(Lower(Rewritten(s, i, rep)), j)
    ensures i < j
  {
    MissStep(s, i, rep);
    RewriteBefore(s, i + 1, rep, n, i);
    NoMatchThere(Rewritten(s, i, rep), Rewritten(s, i + 1, rep), i);
  }

  /** Congruence for equal texts: lets a caller use a fact about v for u without unfolding either. */
  lemma NoMatchThere(u: string, v: string, i: int)
    requires u == v && !LimitAt(Lower(v), i)
    ensures !LimitAt(Lower(u), i)
  {
  }

  /** Congruence for equal texts: lets a caller use a fact about v for u without unfolding either. */
  lemma SameRewrite(u: string, v: string, j: int)
    requires u == v && LimitAt(Lower(u), j)
    ensures LimitAt(Lower(v), j) && LimitValue(Lower(u), j) == LimitValue(Lower(v), j)
  {
  }

  /** By induction over the scan of `re.sub`: the verdict of every check is kept. */
  lemma {:induction false} RewriteVerdicts(s: string, i: nat, rep: string, n: nat)
    requires i <= |s| && CapClause(rep, n)
    ensures Admissible(Rewritten(s, i, rep)) <==> Admissible(s)
    ensures IsStripped(Rewritten(s, i, rep)) <==> IsStripped(s)
    decreases |s| - i
  {
    if i == |s| {
      RewrittenAtEnd(s, rep);
      SameVerdicts(Rewritten(s, |s|, rep), s);
    } else {
      if LimitAt(Lower(s), i) {
        MatchVerdicts(s, i, rep, n);
      } else {
        MissVerdicts(s, i, rep);
      }
      RewriteVerdicts(s, Resume(s, i), rep, n);
    }
  }

  /** By induction over the scan: the matches before position i are left where they were. */
  lemma {:induction false} RewriteBefore(s: string, i: nat, rep: string, n: nat, j: nat)
    requires j < i <= |s| && CapClause(rep, n)
    ensures LimitAt(Lower(Rewritten(s, i, rep)), j) <==> LimitAt(Lower(s), j)
    decreases |s| - i
  {
    if i == |s| {
      RewrittenAtEnd(s, rep);
      SameLower(Rewritten(s, |s|, rep), s);
      SameMatch(Lower(Rewritten(s, |s|, rep)), Lower(s), j);
    } else {
      if LimitAt(Lower(s), i) {
        MatchBefore(s, i, rep, n, j);
      } else {
        MissBefore(s, i, rep, j);
      }
      RewriteBefore(s, Resume(s, i), rep, n, j);
    }
  }

  /** By induction over the scan: every match from position i on has value n. */
  lemma {:induction false} RewriteCapped(s: string, i: nat, rep: string, n: nat, j: nat)
    requires i <= j && i <= |s| && CapClause(rep, n)
    ensures LimitAt(Lower(Rewritten(s, i, rep)), j) ==> LimitValue(Lower(Rewritten(s, i, rep)), j) == n
    decreases |s| - i
  {
    if i == |s| {
      RewrittenAtEnd(s, rep);
      SameLower(Rewritten(s, |s|, rep), s);
    } else if LimitAt(Lower(Rewritten(s, i, rep)), j) {
      if LimitAt(Lower(s), i) {
        var done, j' := MatchCapped(s, i, rep, n, j);
        if !done {
          RewriteCapped(s, Resume(s, i), rep, n, j');
        }
      } else {
        MissCapped(s, i, rep, n, j);
        RewriteCapped(s, Resume(s, i), rep, n, j);
      }
    }
  }

  /** After a rewrite every LIMIT clause of the text carries the cap. */
  lemma RewriteCapsAll(s: string, n: nat)
    ensures Admissible(ReplaceFrom(s, 0, Replacement(n))) <==> Admissible(s)
    ensures IsStripped(ReplaceFrom(s, 0, Replacement(n))) <==> IsStripped(s)
    ensures CappedFrom(Lower(ReplaceFrom(s, 0, Replacement(n))), 0, n)
  {
    var rep := Replacement(n);
    ReplacementClause(n);
    assert Rewritten(s, 0, rep) == ReplaceFrom(s, 0, rep);
    RewriteVerdicts(s, 0, rep, n);
    forall j | 0 <= j && LimitAt(Lower(Rewritten(s, 0, rep)), j)
      ensures LimitValue(Lower(Rewritten(s, 0, rep)), j) == n
    {
      RewriteCapped(s, 0, rep, n, j);
    }
  }

  /** Clamping a text that passed the checks yields an accepted text. */
  lemma ClampAccepted(s: string, n: nat)
    requires IsStripped(s) && Admissible(s)
    ensures Accepted(Clamp(s, n), n)
  {
    var t := Lower(s);
    match FindLimit(t, 0)
    case Some(j) =>
      if LimitValue(t, j) > n {
        RewriteCapsAll(s, n);
        CappedWithin(ReplaceFrom(s, 0, Replacement(n)), n);
      }
    case None =>
  }

  /** A text whose every LIMIT clause has value n has its first one within n. */
  lemma CappedWithin(c: string, n: nat)
    requires CappedFrom(Lower(c), 0, n)
    ensures FirstLimitWithin(c, n)
  {
  }
}
