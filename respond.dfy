/**
 * The pure steps of the `/ask` endpoint (main.py:307-370): reading the SQL out of the first
 * model answer, and shaping the second model answer into the response fields. The model
 * answers, the database and `str()` of a non-string value come in as parameters.
 */
module Respond {
  import opened Text
  import opened Wrappers
  import opened SqlGate
  import opened Values
  import opened Summary

  /** A value `json.loads` can produce; an object by its fields (only looked up by key here). */
  datatype Json =
    | JNull
    | JBool(b: bool)
    | JInt(i: int)
    | JFloat(f: real)
    | JStr(s: string)
    | JList(items: seq<Json>)
    | JObject(fields: map<string, Json>)

  /** Python truthiness: `not v` is false. */
  predicate Truthy(v: Json) {
    match v
    case JNull => false
    case JBool(b) => b
    case JInt(i) => i != 0
    case JFloat(f) => f != 0.0
    case JStr(s) => s != []
    case JList(items) => items != []
    case JObject(fields) => fields != map[]
  }

  /** `obj.get(key, default)` on a parsed object. */
  function Get(fields: map<string, Json>, key: string, default: Json): (v: Json)
    ensures key in fields ==> v == fields[key]
    ensures key !in fields ==> v == default
  {
    if key in fields then fields[key] else default
  }

  /** The ways `/ask` fails. */
  datatype AskError =
    | NoSqlProduced          // HTTP 400 "Model SQL döndürmedi."
    | Rejected(e: SqlError)  // an HTTP 400 of `validate_sql`
    | QueryFailed(line: string) // HTTP 400, the last line of the database error
    | Internal               // HTTP 500, any other exception

  /** `validate_sql(sql)` inside the endpoint: its rejections become the endpoint's. */
  function Gate(sql: string, maxRows: nat): (r: Result<string, AskError>)
    ensures r.Success? <==> ValidateSql(sql, maxRows).Success?
    ensures r.Success? ==> r.value == ValidateSql(sql, maxRows).value
    ensures r.Failure? ==> r.error == Rejected(ValidateSql(sql, maxRows).error)
  {
    match ValidateSql(sql, maxRows)
    case Success(s) => Success(s)
    case Failure(e) => Failure(Rejected(e))
  }

  /**
   * main.py:320-324: `sql = sql_obj.get("sql")`, rejected when falsy, then `validate_sql(sql)`.
   * An answer that is not an object has no `.get`, which ends as an internal error; a value
   * that is not a string fails the gate's first check.
   */
  function SqlOf(sqlObj: Json, maxRows: nat): (r: Result<string, AskError>)
    ensures !sqlObj.JObject? ==> r == Failure(Internal)
    ensures sqlObj.JObject? && !Truthy(Get(sqlObj.fields, "sql", JNull)) ==> r == Failure(NoSqlProduced)
    ensures sqlObj.JObject? && Truthy(Get(sqlObj.fields, "sql", JNull)) && !Get(sqlObj.fields, "sql", JNull).JStr? ==>
      r == Failure(Rejected(NoSql))
    ensures sqlObj.JObject? && Truthy(Get(sqlObj.fields, "sql", JNull)) && Get(sqlObj.fields, "sql", JNull).JStr? ==>
      r == Gate(sqlObj.fields["sql"].s, maxRows)
  {
    if !sqlObj.JObject? then Failure(Internal)
    else
      var sql := Get(sqlObj.fields, "sql", JNull);
      if !Truthy(sql) then Failure(NoSqlProduced)
      else if !sql.JStr? then Failure(Rejected(NoSql))
      else Gate(sql.s, maxRows)
  }

  /** `str(v)`: a string is itself; anything else is rendered by `show`. */
  function PyStr(v: Json, show: Json -> string): (s: string)
    ensures v.JStr? ==> s == v.s
  {
    if v.JStr? then v.s else show(v)
  }

  /** `[str(x) for x in v]`, after a value that is not a list has become `[str(v)]`. */
  function Strings(v: Json, show: Json -> string): (ss: seq<string>)
    ensures v.JList? ==> |ss| == |v.items| && forall k :: 0 <= k < |v.items| ==> ss[k] == PyStr(v.items[k], show)
    ensures !v.JList? ==> ss == [PyStr(v, show)]
  {
    if v.JList? then seq(|v.items|, k requires 0 <= k < |v.items| => PyStr(v.items[k], show))
    else [PyStr(v, show)]
  }

  /** `xs[:n]`. */
  function Take<T>(xs: seq<T>, n: nat): (ys: seq<T>)
    ensures |ys| == if |xs| <= n then |xs| else n
    ensures ys == xs[..|ys|]
  {
    if |xs| <= n then xs else xs[..n]
  }

  const MaxFindings: nat := 8
  const MaxRecommendations: nat := 5

  /** The insight fields of an `AskResponse`. */
  datatype Insight = Insight(tldr: string, findings: seq<string>, recommendations: seq<string>)

  /**
   * main.py:357-368: `tldr` defaults to "", `findings` and `recommendations` to [], each list
   * is stringified and cut to 8 and 5 entries. An answer that is not an object has no `.get`.
   */
  function ShapeInsight(insightObj: Json, show: Json -> string): (r: Result<Insight, AskError>)
    ensures r.Failure? <==> !insightObj.JObject?
    ensures r.Failure? ==> r.error == Internal
    ensures r.Success? ==>
      var fs := insightObj.fields;
      && r.value.tldr == (if "tldr" in fs then PyStr(fs["tldr"], show) else "")
      && |r.value.findings| <= MaxFindings
      && |r.value.recommendations| <= MaxRecommendations
      && r.value.findings == Take(Strings(Get(fs, "findings", JList([])), show), MaxFindings)
      && r.value.recommendations == Take(Strings(Get(fs, "recommendations", JList([])), show), MaxRecommendations)
  {
    if !insightObj.JObject? then Failure(Internal)
    else
      var fs := insightObj.fields;
      var tldr := Get(fs, "tldr", JStr(""));
      var findings := Get(fs, "findings", JList([]));
      var recs := Get(fs, "recommendations", JList([]));
      Success(Insight(
        PyStr(tldr, show),
        Take(Strings(findings, show), MaxFindings),
        Take(Strings(recs, show), MaxRecommendations)))
  }

  /** The findings of a shaped answer are the first of its stringified findings, none added. */
  lemma FindingsArePrefix(insightObj: Json, show: Json -> string)
    requires insightObj.JObject?
    ensures ShapeInsight(insightObj, show).Success?
    ensures
      var fs := insightObj.fields;
      var all := Strings(Get(fs, "findings", JList([])), show);
      var shown := ShapeInsight(insightObj, show).value.findings;
      && shown == all[..|shown|]
      && |shown| == (if |all| <= MaxFindings then |all| else MaxFindings)
      && ("findings" !in fs ==> shown == [])
      && ("findings" in fs && !fs["findings"].JList? ==> shown == [PyStr(fs["findings"], show)])
  {
  }

  /** The same for the recommendations, with their own cap. */
  lemma RecommendationsArePrefix(insightObj: Json, show: Json -> string)
    requires insightObj.JObject?
    ensures ShapeInsight(insightObj, show).Success?
    ensures
      var fs := insightObj.fields;
      var all := Strings(Get(fs, "recommendations", JList([])), show);
      var shown := ShapeInsight(insightObj, show).value.recommendations;
      && shown == all[..|shown|]
      && |shown| == (if |all| <= MaxRecommendations then |all| else MaxRecommendations)
      && ("recommendations" !in fs ==> shown == [])
      && ("recommendations" in fs && !fs["recommendations"].JList? ==> shown == [PyStr(fs["recommendations"], show)])
  {
  }

  /** What the database returns for a query: the preview rows and the column names. */
  datatype Preview = Preview(rows: seq<Row>, columns: seq<string>)

  /** How `run_query` can fail: a `psycopg.Error` with its text `str(e)`, or any other exception. */
  datatype DbError = PsycopgError(message: string) | OtherError

  /** The characters `str.splitlines()` breaks at (`\r\n` counts as one break). */
  predicate IsLineBreak(c: char) {
    c == '\n' || c == '\r' || c == '\U{0B}' || c == '\U{0C}' || c == '\U{1C}' || c == '\U{1D}'
    || c == '\U{1E}' || c == '\U{85}' || c == '\U{2028}' || c == '\U{2029}'
  }

  predicate NoBreak(s: string) {
    forall k :: 0 <= k < |s| ==> !IsLineBreak(s[k])
  }

  /** `s.splitlines()`: the lines without their breaks; a final break opens no further line. */
  function SplitLines(s: string): (lines: seq<string>)
    ensures lines == [] <==> s == []
    ensures forall k :: 0 <= k < |lines| ==> NoBreak(lines[k])
    decreases |s|
  {
    if s == [] then []
    else if IsLineBreak(s[0]) then
      var next := if s[0] == '\r' && |s| > 1 && s[1] == '\n' then 2 else 1;
      [[]] + SplitLines(s[next..])
    else
      var rest := SplitLines(s[1..]);
      if rest == [] then [[s[0]]] else [[s[0]] + rest[0]] + rest[1..]
  }

  /** `s.splitlines()[-1]`, or None where that raises `IndexError`. */
  function LastLine(s: string): (r: Option<string>)
    ensures r.None? <==> s == []
    ensures r.Some? ==> NoBreak(r.value)
  {
    var lines := SplitLines(s);
    if lines == [] then None else Some(lines[|lines| - 1])
  }

  /** The last line of a text that ends in a break-free piece after a break is that piece. */
  lemma LastLineAfterBreak(p: string, c: string)
    requires c != [] && NoBreak(c)
    requires p == [] || IsLineBreak(p[|p| - 1])
    ensures LastLine(p + c) == Some(c)
  {
    NoBreakIsOneLine(c);
    LastPiece(p, c, c);
  }

  /** A final line break opens no new line: the piece before it is still the last line. */
  lemma LastLineTrailingBreak(p: string, c: string, b: string)
    requires c != [] && NoBreak(c)
    requires p == [] || IsLineBreak(p[|p| - 1])
    requires (|b| == 1 && IsLineBreak(b[0])) || b == "\r\n"
    ensures LastLine(p + c + b) == Some(c)
  {
    OneLineWithBreak(c, b);
    assert p + c + b == p + (c + b);
    LastPiece(p, c + b, c);
  }

  /** After a break, a text q that is the one line c stays the last line. */
  lemma {:induction false} LastPiece(p: string, q: string, c: string)
    requires q != [] && !IsLineBreak(q[0]) && SplitLines(q) == [c]
    requires p == [] || IsLineBreak(p[|p| - 1])
    ensures SplitLines(p + q) != [] && SplitLines(p + q)[|SplitLines(p + q)| - 1] == c
    ensures p != [] ==> |SplitLines(p + q)| >= 2
    decreases |p|
  {
    var s := p + q;
    if p == [] {
      assert s == q;
    } else if IsLineBreak(s[0]) {
      var next := if s[0] == '\r' && |s| > 1 && s[1] == '\n' then 2 else 1;
      if |p| == 1 {
        assert s[1] == q[0];
      }
      assert next <= |p|;
      var r := p[next..];
      assert s[next..] == r + q;
      LastPiece(r, q, c);
      assert SplitLines(s) == [[]] + SplitLines(r + q);
    } else {
      var r := p[1..];
      assert |p| >= 2 && r[|r| - 1] == p[|p| - 1];
      assert s[1..] == r + q;
      LastPiece(r, q, c);
      var lines := SplitLines(r + q);
      assert SplitLines(s) == [[s[0]] + lines[0]] + lines[1..];
    }
  }

  /** One line break on its own is one empty line. */
  lemma BreakIsEmptyLine(b: string)
    requires (|b| == 1 && IsLineBreak(b[0])) || b == "\r\n"
    ensures SplitLines(b) == [[]]
  {
    if b == "\r\n" {
      assert b[2..] == [];
    } else {
      assert b[1..] == [];
    }
  }

  /** A break-free piece followed by one break is one line. */
  lemma {:induction false} OneLineWithBreak(c: string, b: string)
    requires c != [] && NoBreak(c)
    requires (|b| == 1 && IsLineBreak(b[0])) || b == "\r\n"
    ensures SplitLines(c + b) == [c]
    decreases |c|
  {
    var s, rest := c + b, c[1..];
    assert s[0] == c[0] && !IsLineBreak(c[0]) && s[1..] == rest + b;
    var tail := SplitLines(rest + b);
    assert SplitLines(s) == [[c[0]] + tail[0]] + tail[1..];
    if rest == [] {
      assert rest + b == b;
      BreakIsEmptyLine(b);
      assert tail == [[]] && tail[1..] == [];
      assert [c[0]] + tail[0] == c;
    } else {
      assert forall k :: 0 <= k < |rest| ==> rest[k] == c[k + 1];
      OneLineWithBreak(rest, b);
      assert c == [c[0]] + rest;
    }
  }

  /** A break-free text is one line. */
  lemma {:induction false} NoBreakIsOneLine(c: string)
    requires c != [] && NoBreak(c)
    ensures SplitLines(c) == [c]
    decreases |c|
  {
    var rest := c[1..];
    assert !IsLineBreak(c[0]) && c == [c[0]] + rest;
    if rest == [] {
      assert SplitLines(c[1..]) == [];
      assert SplitLines(c) == [[c[0]]] && [c[0]] == c;
    } else {
      assert forall k :: 0 <= k < |rest| ==> rest[k] == c[k + 1];
      NoBreakIsOneLine(rest);
    }
  }

  /** How a failed query ends: the last line of a database error, or an internal error. */
  function QueryError(e: DbError): (a: AskError)
    ensures a == Internal <==> e.OtherError? || e.message == []
    ensures e.PsycopgError? && e.message != [] ==>
      a == QueryFailed(LastLine(e.message).value) && NoBreak(a.line)
  {
    match e
    case OtherError => Internal
    case PsycopgError(message) =>
      match LastLine(message)
      case Some(line) => QueryFailed(line)
      case None => Internal
  }

  /** `AskResponse`. */
  datatype Response = Response(
    sql: string, tldr: string, findings: seq<string>, recommendations: seq<string>,
    rowCount: nat, columns: seq<string>)

  /**
   * The `/ask` pipeline (main.py:307-370) around its two model calls and its query: `sqlObj`
   * is the first answer, `runQuery` the database, `insightObj` the second answer.
   */
  method Ask(sqlObj: Json, maxRows: nat, runQuery: string -> Result<Preview, DbError>, insightObj: Json,
             show: Json -> string)
    returns (r: Result<Response, AskError>)
    ensures r.Success? ==> SqlOf(sqlObj, maxRows).Success? && r.value.sql == SqlOf(sqlObj, maxRows).value
    ensures r.Success? ==> Accepted(r.value.sql, maxRows)
    ensures r.Success? ==>
      && runQuery(r.value.sql).Success?
      && r.value.rowCount == |runQuery(r.value.sql).value.rows|
      && r.value.columns == runQuery(r.value.sql).value.columns
    ensures r.Success? ==>
      && ShapeInsight(insightObj, show).Success?
      && r.value.tldr == ShapeInsight(insightObj, show).value.tldr
      && r.value.findings == ShapeInsight(insightObj, show).value.findings
      && r.value.recommendations == ShapeInsight(insightObj, show).value.recommendations
    ensures SqlOf(sqlObj, maxRows).Failure? ==> r == Failure(SqlOf(sqlObj, maxRows).error)
    ensures SqlOf(sqlObj, maxRows).Success? && runQuery(SqlOf(sqlObj, maxRows).value).Failure? ==>
      r == Failure(QueryError(runQuery(SqlOf(sqlObj, maxRows).value).error))
    ensures SqlOf(sqlObj, maxRows).Success? && runQuery(SqlOf(sqlObj, maxRows).value).Success? ==>
      (r.Success? <==> insightObj.JObject?)
    ensures SqlOf(sqlObj, maxRows).Success? && runQuery(SqlOf(sqlObj, maxRows).value).Success? ==>
      (!insightObj.JObject? ==> r == Failure(Internal))
  {
    var sql := SqlOf(sqlObj, maxRows);
    if sql.Failure? {
      return Failure(sql.error);
    }
    var preview := runQuery(sql.value);
    if preview.Failure? {
      return Failure(QueryError(preview.error));
    }
    var stats := SummarizeRows(preview.value.rows);
    var insight := ShapeInsight(insightObj, show);
    if insight.Failure? {
      return Failure(insight.error);
    }
    var i := insight.value;
    r := Success(Response(sql.value, i.tldr, i.findings, i.recommendations, stats.previewRowCount,
                          preview.value.columns));
  }
}
