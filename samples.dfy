/**
 * Concrete inputs of `validate_sql` (main.py:175-203), worked out by the model.
 */
module Samples {
  import opened Text
  import opened Wrappers
  import opened Statements
  import opened Clauses
  import opened Limits
  import opened SqlGate

  /** Two statements, the second one a DROP: the banned word is found first. */
  const TwoWithDrop: string := "SELECT 1; DROP TABLE x"
  const TwoWithDropLowered: string := "select 1; drop table x"

  lemma TwoWithDropLower()
    ensures Lower(TwoWithDrop) == TwoWithDropLowered
  {
    assert |Lower(TwoWithDrop)| == |TwoWithDropLowered|;
    forall k | 0 <= k < |TwoWithDrop|
      ensures Lower(TwoWithDrop)[k] == TwoWithDropLowered[k]
    {
    }
  }

  lemma TwoWithDropWords()
    ensures ReadQuery(TwoWithDropLowered) && HasBannedWord(TwoWithDropLowered)
  {
    assert WordAt(TwoWithDropLowered, "select", 0);
    assert WordAt(TwoWithDropLowered, Banned[3], 10);
  }

  lemma TwoWithDropIsTwoStatements()
    ensures !SingleStatement(TwoWithDrop)
  {
    var p, q := "SELECT 1", " DROP TABLE x";
    assert Solid(p[0]) && Solid(q[1]);
    assert TwoWithDrop == p + ";" + q;
    TwoStatementsRejected(p, q);
  }

  /**
   * The text is both multi-statement and banned; the ban is checked first, so that is the
   * error reported.
   */
  lemma BannedBeforeMultiple()
    ensures !SingleStatement(TwoWithDrop)
    ensures ValidateSql(TwoWithDrop, 2000) == Failure(ForbiddenKeyword)
  {
    TwoWithDropIsTwoStatements();
    StrippedIsFixpoint(TwoWithDrop);
    TwoWithDropLower();
    TwoWithDropWords();
    BannedRejected(TwoWithDrop, TwoWithDropLowered, 2000);
  }

  /** A read query with a banned word is rejected for the word, whatever follows. */
  lemma BannedRejected(sql: string, t: string, n: nat)
    requires sql != [] && Strip(sql) == sql && Lower(sql) == t && ReadQuery(t) && HasBannedWord(t)
    ensures ValidateSql(sql, n) == Failure(ForbiddenKeyword)
  {
  }

  /** A query whose one LIMIT exceeds a cap of 2000 (the default `MAX_ROWS`, main.py:30). */
  const OverCap: string := "select 1 limit 100000"

  /** The text is already lower case, so the match positions are read off it directly. */
  lemma OverCapIsLower()
    ensures Lower(OverCap) == OverCap
  {
    assert |Lower(OverCap)| == |OverCap|;
    forall k | 0 <= k < |OverCap|
      ensures Lower(OverCap)[k] == OverCap[k]
    {
    }
  }

  /** `limit`, one space and six digits at position 9, running to the end of the text. */
  lemma OverCapRegex()
    ensures RegexMatch(OverCap, 9, 15, 21)
  {
    assert Boundary(OverCap, 9) && KeywordAt(OverCap, 9);
    assert forall o :: 15 <= o < 21 ==> IsDigit(OverCap[o]);
  }

  lemma HundredThousand()
    ensures DigitsValue("100000") == 100000
  {
    assert DigitsValue("1") == 1;
    assert "10"[..1] == "1";
    assert "100"[..2] == "10";
    assert "1000"[..3] == "100";
    assert "10000"[..4] == "1000";
    assert "100000"[..5] == "10000";
  }

  lemma OverCapMatch()
    ensures LimitAt(OverCap, 9) && MatchLen(OverCap, 9) == 12 && LimitValue(OverCap, 9) == 100000
  {
    OverCapRegex();
    RegexMatchValue(OverCap, 9, 15, 21);
    assert OverCap[15..21] == "100000";
    HundredThousand();
  }

  /** No match starts before position 9: "limit" is not spelled there. */
  lemma OverCapFirst()
    ensures forall j :: 0 <= j < 9 ==> !LimitAt(OverCap, j)
  {
    forall j | 0 <= j < 9
      ensures !KeywordAt(OverCap, j)
    {
    }
  }

  /** The search finds the clause at 9. */
  lemma OverCapFind()
    ensures FindLimit(OverCap, 0) == Some(9)
  {
    OverCapMatch();
    OverCapFirst();
  }

  lemma CapDigits()
    ensures Replacement(2000) == "LIMIT 2000"
  {
  }

  /** 100000 exceeds the cap, so the text is rewritten. */
  lemma OverCapClampRewrites()
    ensures Clamp(OverCap, 2000) == ReplaceFrom(OverCap, 0, "LIMIT 2000")
  {
    OverCapIsLower();
    OverCapFind();
    OverCapMatch();
    CapDigits();
  }

  lemma OverCapRewritten()
    ensures ReplaceFrom(OverCap, 0, "LIMIT 2000") == OverCap[..9] + "LIMIT 2000"
  {
    OverCapRewrittenAt(OverCap);
  }

  lemma PrefixText(s: string)
    requires s == OverCap
    ensures s[..9] + "LIMIT 2000" == "select 1 LIMIT 2000"
  {
  }

  lemma OverCapRewrittenAt(s: string)
    requires s == OverCap
    ensures ReplaceFrom(s, 0, "LIMIT 2000") == s[..9] + "LIMIT 2000"
  {
    OverCapIsLower();
    OverCapMatch();
    OverCapFirst();
    LastClauseRewritten(s, 9, "LIMIT 2000");
  }

  /** `LIMIT 100000` becomes `LIMIT 2000`, the rest of the text is kept. */
  lemma OverCapClamped()
    ensures Clamp(OverCap, 2000) == "select 1 LIMIT 2000"
  {
    OverCapClampRewrites();
    OverCapRewritten();
    PrefixText(OverCap);
  }
}
