/**
 * What `validate_sql` (main.py:175-203) promises across calls: the order of its checks,
 * the shape of what it returns, and that its output passes it again unchanged.
 */
module GateFacts {
  import opened Text
  import opened Wrappers
  import opened Statements
  import opened Clauses
  import opened Limits
  import opened SqlGate

  /**
   * The first failing check decides the error: each rejection happens exactly when every
   * earlier check passed and its own failed.
   */
  lemma FirstFailureWins(sql: string, n: nat)
    ensures var r, s := ValidateSql(sql, n), Strip(sql);
      && (r == Failure(NoSql) <==> sql == [])
      && (r == Failure(NotAReadQuery) <==> sql != [] && !ReadQuery(Lower(s)))
      && (r == Failure(ForbiddenKeyword) <==> sql != [] && ReadQuery(Lower(s)) && HasBannedWord(Lower(s)))
      && (r == Failure(MultipleStatements) <==>
            sql != [] && ReadQuery(Lower(s)) && !HasBannedWord(Lower(s)) && !SingleStatement(s))
      && (r == Failure(SchemaNotAllowed) <==>
            sql != [] && ReadQuery(Lower(s)) && !HasBannedWord(Lower(s)) && SingleStatement(s)
            && MentionsFrom(Lower(s)) && !Contains(Lower(s), "mart."))
      && (r == Failure(LimitRequired) <==>
            sql != [] && ReadQuery(Lower(s)) && !HasBannedWord(Lower(s)) && SingleStatement(s)
            && SchemaOk(Lower(s)) && !HasLimitWord(Lower(s)))
  {
  }

  /** The accepted text is the stripped input, or that text with its LIMIT clauses rewritten. */
  lemma AcceptedIsStrippedInput(sql: string, n: nat)
    ensures var r := ValidateSql(sql, n);
      && (r.Success? && FirstLimitWithin(Strip(sql), n) ==> r.value == Strip(sql))
      && (r.Success? && !FirstLimitWithin(Strip(sql), n) ==> r.value == ReplaceFrom(Strip(sql), 0, Replacement(n)))
  {
  }

  /** A text whose first LIMIT is within the cap is left as it is. */
  lemma ClampWithin(s: string, n: nat)
    requires FirstLimitWithin(s, n)
    ensures Clamp(s, n) == s
  {
  }

  /** A text that starts with `select` or `with` is not empty. */
  lemma ReadQueryNonEmpty(s: string)
    requires ReadQuery(Lower(s))
    ensures s != []
  {
    assert |Lower(s)| == |s|;
  }

  /** Running the gate on its own output returns that output unchanged. */
  lemma ValidateIdempotent(sql: string, n: nat)
    requires ValidateSql(sql, n).Success?
    ensures ValidateSql(ValidateSql(sql, n).value, n) == ValidateSql(sql, n)
  {
    var c := ValidateSql(sql, n).value;
    assert Accepted(c, n);
    StrippedIsFixpoint(c);
    ReadQueryNonEmpty(c);
    ClampWithin(c, n);
  }
}
