# Text-to-SQL gate, in Dafny

This project models the core of a small text-to-SQL web service (`main.py`). A language
model turns a question into SQL, and the service runs it read-only against PostgreSQL. A
second model call then turns the preview rows into a short insight. The model covers the
parts of that pipeline that are plain computation:

- the safety gate `validate_sql` with `BANNED` and `_single_statement`. It makes six
  rejecting checks in a fixed order, then clamps an oversized `LIMIT n` to `MAX_ROWS`;
- `_extract_json`, which picks the JSON object out of a model answer;
- `summarize_rows`, which counts the rows without a value in each column. It is a method
  with a nested loop over an immutable sequence of rows;
- the structural recursion of `to_jsonable`;
- the response shaping of the `/ask` endpoint. That is the defaulting and stringifying of
  the model's fields, the cut to 8 findings and 5 recommendations, and the order in which
  errors surface.

The regular expressions are written out as predicates over strings:

- `\b` is a change between a word character `[A-Za-z0-9_]` and anything else;
- `\s` is ASCII whitespace (codes 9-13, 28-31 and 32);
- `\d` is `[0-9]`;
- `re.IGNORECASE` means matching on the ASCII-lowered text, which keeps every position.

`limit\s+(\d+)\b` is read as maximal runs. `Clauses.RegexMatchIsMaximal` shows that
backtracking finds no other split.

The main theorem is about what `validate_sql` accepts:

- the accepted text is stripped and passes every check;
- its first `limit <digits>` clause is within the cap;
- the text is the stripped input, or that text with every LIMIT clause replaced by
  `LIMIT <MAX_ROWS>`;
- run on its own output, the gate returns that output unchanged (`GateFacts.ValidateIdempotent`).

The rewrite step needs a splice argument. Replacing a clause `x` inside `a + x + b` changes
no check's verdict, because every check sees `x` only through `a` and `b` (modules `Splice`
and `SqlGate`).

The outcomes are datatypes: `SqlGate.SqlError` has one constructor per HTTP 400 of
`validate_sql` (main.py:176-195); `Respond.AskError` adds the endpoint's own HTTP 400s and
the HTTP 500 of main.py:374-379; `Respond.DbError` is a database error (main.py:329) or any
other exception.

Files and modules: `wrappers.dfy` (`Wrappers`), `text.dfy` (`Text`), `statements.dfy`
(`Statements`), `clauses.dfy` (`Clauses`), `limits.dfy` (`Limits`), `splice.dfy`
(`Splice`), `sqlgate.dfy` (`SqlGate`), `gatefacts.dfy` (`GateFacts`), `samples.dfy`
(`Samples`), `extract.dfy` (`Extract`), `values.dfy` (`Values`), `summary.dfy`
(`Summary`), `respond.dfy` (`Respond`).

Behaviour of main.py worth knowing:

- `re.sub` at main.py:201 has no count, so every `limit <digits>` clause is rewritten, not
  only the first.
- The banned-word check at main.py:184 runs before the statement count at main.py:187.
  So `SELECT 1; DROP TABLE x` is rejected as a forbidden keyword, not as multiple
  statements (`Samples.BannedBeforeMultiple`).
- The schema rule at main.py:191 looks for the three substrings `" from "`, `"\nfrom "` and
  `"\tfrom "`. A `from` at the very start, after a carriage return, or not followed by a
  space does not count.
- Only the first `limit <digits>` clause is compared with the cap (main.py:197-200). A
  later, larger clause passes unchanged when the first one is within the cap.
- A bare whole word `limit` with no digits after it (`LIMIT ALL`) passes the LIMIT check
  and is never clamped.
- The statistics keys are `preview_row_count` and `nulls`, as in main.py:277 and 285.

## Model

| member | source | states |
|---|---|---|
| Text.Strip | main.py:179 | `str.strip()`: the result has no whitespace at either end and is no longer than the input |
| Text.IsSpace | main.py:179 | definition of the whitespace class of `\s` and `str.strip()` (codes 9-13, 28-31 and 32); Text.StripSlice and Text.LowerChar state how it is used |
| Text.StripSlice | main.py:179 | stripping removes exactly an all-whitespace prefix and an all-whitespace suffix |
| Text.StripEmptyIffBlank | main.py:171 | a segment strips to "" exactly when it is all whitespace |
| Text.StripIdempotent | main.py:179 | stripping twice is stripping once |
| Text.LowerChar | main.py:190 | `lower()` on one character keeps its class (word character, letter, digit, whitespace), never yields an upper-case ASCII letter, and leaves digits, whitespace and ';' unchanged |
| Text.Lower | main.py:190 | definition of `s.lower()`, character by character; its properties are in Text.LowerChar |
| Text.IsWordChar | main.py:165 | definition of the `\w` class `[A-Za-z0-9_]` that `\b` tests; Text.LowerChar states lowering keeps it |
| Text.Boundary | main.py:197 | definition of `\b` at a position: a word character on exactly one side; Splice.LimitAfter and Clauses.MoveLimit state what it depends on |
| Text.Contains | main.py:191 | definition of the substring test `n in t`; Splice.ContainsSplice states it around a clause |
| Text.ContainsWord | main.py:194 | definition of `re.search(r"\bw\b")` for a word w, as in main.py:184 and 194; Splice.ContainsWordSplice states it around a clause |
| Text.NatToDigits | main.py:201 | `str(MAX_ROWS)` is a non-empty run of digits with no leading zero |
| Text.DigitsRoundTrip | main.py:199-201 | `int(str(n)) == n`, so the replacement clause carries the cap itself |
| Text.DigitsValue | main.py:199 | definition of `int()` on a digit run; Text.DigitsRoundTrip states it inverts `str(n)` |
| Statements.Split | main.py:171 | `split(";")` yields at least one segment, none containing ';' |
| Statements.JoinSplit | main.py:171 | joining the segments with ';' gives back the text |
| Statements.SingleStatement | main.py:170-172 | definition of `_single_statement`; its behaviour is stated by the Statements lemmas in the rows below |
| Statements.StripKeepsCount | main.py:171 | the outer `sql.strip()` never changes the number of non-blank segments |
| Statements.TrailingSeparatorAllowed | main.py:170-172 | a trailing ';' keeps a single statement single |
| Statements.NoStatementIffNoSolid | main.py:170-172 | no segment survives exactly when the text holds only whitespace and ';' |
| Statements.OneSegmentIsSingle | main.py:170-172 | a ';'-free text with content is one statement |
| Statements.TwoStatementsRejected | main.py:170-172 | two parts with content around a ';' are not one statement |
| Statements.SimilarSplice | main.py:170-172 | replacing a ';'-free non-blank piece by another keeps the blank/non-blank shape of every segment |
| Clauses.RunFacts | main.py:197 | the greedy `\s+`/`\d+` run is all of its class and stops before a character outside it |
| Clauses.Run | main.py:197 | the length of the greedy `\s+` or `\d+` run from a position, which stays within the text; Clauses.RunFacts states it is all of its class and stops at the first character outside it, Clauses.RunUnique that nothing else has those properties |
| Clauses.RegexMatch | main.py:197 | definition of the backtracking reading of `\blimit\s+(\d+)\b` with split points k and e; Clauses.RegexMatchIsMaximal relates it to the maximal-run reading |
| Clauses.RunUnique | main.py:197 | a run with those properties is the greedy run |
| Clauses.KeywordAtOccurs | main.py:197 | "limit" spelled at position i is an occurrence of the word there |
| Clauses.ClauseLen | main.py:197 | definition of the length of `limit\s+\d+` at a position (0 when absent); Clauses.RegexMatchIsMaximal ties it to the regex |
| Clauses.LimitAt | main.py:197 | definition of a match of `\blimit\s+(\d+)\b` at a position; Clauses.RegexMatchIsMaximal and Clauses.MoveLimit state its properties |
| Clauses.LimitValue | main.py:197-199 | definition of `int(m.group(1))` at a match; Clauses.MatchIsClause and Samples.OverCapMatch state it |
| Clauses.RegexMatchIsMaximal | main.py:197 | the pattern matches at i with split points k, e exactly when the maximal-run reading matches with those ends |
| Clauses.MoveLimit | main.py:197-201 | a match depends only on its own characters and a `\b` at each end: moved, it keeps its length and value |
| Clauses.MatchIsClause | main.py:197-201 | the matched text, cut out, is a clause on its own with the same value |
| Limits.FindLimit | main.py:197 | `re.search` gives the leftmost match, or none when nothing matches from i on |
| Limits.Replacement | main.py:201 | definition of `f"LIMIT {MAX_ROWS}"`; Splice.ReplacementClause states it is one clause with value MAX_ROWS |
| Limits.ReplaceFrom | main.py:201 | definition of the `re.sub` scan from a position; Limits.ReplaceSkipsGap, Limits.LastClauseRewritten and SqlGate.RewriteCapsAll state what it does |
| Limits.Clamp | main.py:197-201 | definition of the LIMIT step; SqlGate.ClampAccepted, GateFacts.AcceptedIsStrippedInput and Samples.OverCapClamped state what it does |
| Limits.ReplaceSkipsGap | main.py:201 | a stretch without matches is copied unchanged |
| Limits.LastClauseRewritten | main.py:201 | a text whose only clause ends it becomes its prefix followed by the replacement |
| Splice.ReplacementClause | main.py:201 | `LIMIT <n>`, lowered, is exactly one clause with value n |
| Splice.ContainsWordSplice | main.py:184 | around a clause in context, a whole word other than "limit" occurs exactly when it occurs on one side |
| Splice.WordAtStartSplice | main.py:181 | the select/with prefix test sees only the text before a clause |
| Splice.ContainsSplice | main.py:191 | the schema needles occur around a clause exactly when they occur on one side |
| Splice.LimitAfter | main.py:197 | matches after a clause are those of the text after it, with the same values |
| Splice.LimitBeforeClause | main.py:197 | matches before a clause are those of the text before it |
| Splice.LimitNotInside | main.py:197 | no match starts inside a clause after its first character |
| Splice.LimitAtClause | main.py:197-201 | the clause in context is itself the match there, with its own value |
| SqlGate.ValidateSql | main.py:175-203 | accepts exactly the non-empty texts whose stripped form passes every check; every accepted text is stripped, passes every check and has its first LIMIT within the cap |
| SqlGate.Admissible | main.py:179-195 | definition of "every rejecting check passes" on the stripped text; SqlGate.ValidateSql and SqlGate.RewriteCapsAll state its role |
| SqlGate.ReadQuery | main.py:181 | definition of the select-or-with start test on lowered text; Splice.WordAtStartSplice and GateFacts.FirstFailureWins use it |
| SqlGate.HasBannedWord | main.py:164-167 | definition of `BANNED.search` on lowered text; SqlGate.BannedWordsShape, Splice.ContainsWordSplice and Samples.BannedBeforeMultiple state its properties |
| SqlGate.MentionsFrom | main.py:191 | definition of the three FROM needles; Splice.ContainsSplice states how they behave around a clause |
| SqlGate.SchemaOk | main.py:191-192 | definition of the schema rule; SqlGate.ChecksSplice states it around a clause |
| SqlGate.HasLimitWord | main.py:194 | definition of the `\blimit\b` test; SqlGate.ChecksSplice states it around a clause |
| SqlGate.BannedWordsShape | main.py:164-167 | the 11 banned alternatives are non-empty words of letters, none of them "limit" |
| SqlGate.ChecksSplice | main.py:181-195 | on lowered text, each check sees a clause in context only through the text around it |
| SqlGate.StatementSwap | main.py:187-188 | swapping one clause for another keeps the single-statement verdict |
| SqlGate.StrippedSwap | main.py:179 | swapping one clause for another keeps the text stripped or not |
| SqlGate.RewriteVerdicts | main.py:201 | `re.sub` with a clause as replacement keeps the verdict of every check and keeps the text stripped |
| SqlGate.RewriteCapped | main.py:201 | after the rewrite every match carries the cap |
| SqlGate.RewriteCapsAll | main.py:197-201 | the full rewrite keeps every verdict and leaves every LIMIT clause equal to the cap |
| SqlGate.ClampAccepted | main.py:197-203 | clamping a stripped text that passed the checks gives an accepted text |
| GateFacts.FirstFailureWins | main.py:176-195 | each rejection happens exactly when every earlier check passed and its own failed |
| GateFacts.AcceptedIsStrippedInput | main.py:179-203 | the accepted text is the stripped input when its first LIMIT is within the cap, and otherwise that text with every clause rewritten |
| GateFacts.ValidateIdempotent | main.py:175-203 | run on its own output, the gate returns that output unchanged |
| Samples.TwoWithDropIsTwoStatements | main.py:170-172 | `SELECT 1; DROP TABLE x` is two statements |
| Samples.BannedBeforeMultiple | main.py:184-188 | `SELECT 1; DROP TABLE x` is rejected as a forbidden keyword, not as multiple statements |
| Samples.OverCapFind | main.py:197 | in `select 1 limit 100000` the search finds the clause at position 9 |
| Samples.OverCapMatch | main.py:197-199 | that match is 12 characters long and reads 100000 |
| Samples.OverCapClamped | main.py:197-201 | with a cap of 2000, `select 1 limit 100000` becomes `select 1 LIMIT 2000` |
| Extract.FirstFrom | main.py:225 | the first '{' at or after i, or none |
| Extract.LastBefore | main.py:225 | the last '}' before n, or none |
| Extract.SearchSpan | main.py:225 | definition of the `\{.*\}` search; Extract.SearchSpanIsLeftmostLongest characterises it |
| Extract.LooksLikeObject | main.py:223 | definition of the startswith/endswith test; Extract.ExtractJson and Extract.ObjectIsStripped use it |
| Extract.SearchSpanIsLeftmostLongest | main.py:225 | the span found is the leftmost-longest match of `\{.*\}` with DOTALL, and there is none exactly when no '{' precedes a '}' |
| Extract.ExtractJson | main.py:221-226 | text already shaped `{...}` after stripping is returned as is; otherwise the span from the first '{' to the last '}', itself shaped `{...}`, or the stripped text when there is none |
| Extract.ExtractIsSlice | main.py:221-226 | the result is always a slice of the stripped text |
| Extract.ObjectIsStripped | main.py:222-224 | text shaped `{...}` is already stripped |
| Extract.ExtractIdempotent | main.py:221-226 | extracting from an extracted candidate changes nothing |
| Values.ToJsonable | main.py:206-218 | the result holds no Decimal, date or tuple anywhere; dicts keep their keys in order; lists and tuples become lists of the same length; other values are returned as they are |
| Values.Converted | main.py:206-218 | definition of a value `to_jsonable` leaves alone; Values.ToJsonable and Values.ConvertedIsFixpoint state it |
| Values.ConvertItems | main.py:215-217 | the list comprehension converts item by item and keeps the length |
| Values.ConvertEntries | main.py:213 | the dict comprehension keeps each key and converts its value |
| Values.ConvertedIsFixpoint | main.py:206-218 | a value that is already converted comes back unchanged |
| Values.ToJsonableIdempotent | main.py:206-218 | converting twice is converting once |
| Summary.NullCount | main.py:281-284 | the null count of a column is at most the number of rows |
| Summary.NullCountIsSize | main.py:281-284 | the count is the number of row positions whose value is missing or NULL |
| Summary.NullCountExtremes | main.py:281-284 | the count is 0 exactly when every row has a value, and the number of rows exactly when none has |
| Summary.NullCountStep | main.py:281-284 | one more row adds one to the count exactly when it lacks the value |
| Summary.IsNull | main.py:283 | definition of `r.get(c) is None`; Summary.NullCount and Summary.SummarizeRows count it |
| Summary.SummarizeRows | main.py:275-285 | empty input gives `(0, {})`; otherwise the row count, the first row's columns as keys, and for each column the number of rows lacking a value |
| Respond.Get | main.py:357-359 | `dict.get(key, default)` |
| Respond.Truthy | main.py:321 | definition of `not sql` being false; Respond.SqlOf states its role |
| Respond.Gate | main.py:324 | the gate's verdict, with its rejections carried over |
| Respond.SqlOf | main.py:320-324 | a non-object answer is an internal error; a falsy or missing `sql` fails before the gate; a non-string `sql` fails the gate's first check; otherwise the gate decides |
| Respond.PyStr | main.py:362 | `str()` of a string is the string itself |
| Respond.Strings | main.py:361-370 | a list is stringified item by item; any other value becomes a one-element list of its string form |
| Respond.Take | main.py:369-370 | `xs[:n]` is the prefix of length min(n, len(xs)) |
| Respond.ShapeInsight | main.py:357-370 | a non-object answer is an internal error; otherwise `tldr` defaults to "", at most 8 findings and 5 recommendations, each the prefix of the stringified field |
| Respond.FindingsArePrefix | main.py:358-369 | the findings shown are a prefix of the stringified findings, cut at 8; missing gives none; a non-list gives its one string |
| Respond.RecommendationsArePrefix | main.py:359-370 | the same for the recommendations, cut at 5 |
| Respond.IsLineBreak | main.py:330 | definition of the characters `str.splitlines()` breaks at; Respond.SplitLines and Respond.LastLineTrailingBreak use it |
| Respond.SplitLines | main.py:330 | `str.splitlines()`: no lines exactly for the empty text, and no line holds a line break |
| Respond.LastLine | main.py:330 | `splitlines()[-1]`: there is none (the `IndexError`) exactly for the empty text, and the last line holds no break |
| Respond.LastLineAfterBreak | main.py:330 | a text ending in a non-empty break-free piece after a break (or made of that piece alone) has that piece as its last line (`splitlines()[-1]`) |
| Respond.LastLineTrailingBreak | main.py:330 | a final line break (one break character or `\r\n`) opens no new line: the piece before it is the last line, so `"x\n".splitlines()[-1] == "x"` |
| Respond.QueryError | main.py:327-330 | a `psycopg.Error` with a non-empty text becomes HTTP 400 with its last line; any other exception, or an empty error text, becomes HTTP 500 (main.py:376-379) |
| Respond.Ask | main.py:307-379 | a response carries SQL the gate accepted, the query's row count and columns, and the shaped insight; a failed SQL step gives its own error; a failed query gives Respond.QueryError of the database error; when the SQL and the query succeed, the call succeeds exactly when the insight answer is an object, and is an internal error otherwise (the serialization of the insight payload is not modelled, see Left out) |

## Left out

- `ollama_json` and the two model calls (main.py:229-248): network I/O and `json.loads`. The
  parsed answers are inputs of `Respond.Ask`; only the `_extract_json` step is modelled.
- `pg_conn` and `run_query` (main.py:251-272): database I/O, the read-only session and
  `fetchmany(50)`. The query is a function parameter of `Respond.Ask`, so the 50-row
  preview bound is not modelled.
- The insight payload and its `json.dumps` (main.py:335-353), with its HTTP 500 on failure.
  It is serialization of data already in hand.
- FastAPI setup, routes, templates and the pydantic models (main.py:135-158, 291-304): web
  plumbing. The `min_length=3` rule on the question is not modelled.
- Prompt texts and environment reads (main.py:20-130). `MAX_ROWS` is a `nat` parameter, so a
  negative value from the environment is not modelled.
- Error messages and the traceback text of the HTTP 500 wrapper (main.py:374-379). Errors
  are datatype constructors.
- Non-ASCII text. Python's `re` and `str.lower()` follow Unicode, but the model treats every
  non-ASCII character as neither whitespace, digit nor word character and leaves it
  unchanged when lowering. Unicode case folding can change lengths, which would break the
  position-for-position match between `s` and `lowered` at main.py:197-201.
- `(text or "")` at main.py:222: `Extract.ExtractJson` takes a string, so a `None` answer
  is not modelled.
- SqlGate.ValidateSql: reads a digit run of any length as a number. CPython's `int()` at
  main.py:199 refuses a string of more than 4300 digits by default and raises `ValueError`,
  which `ask` turns into HTTP 500 (main.py:376-379). For such an input, for instance
  `select 1 limit ` followed by 4301 nines, the model accepts and clamps the text instead.
  The conversion limit is an interpreter setting, not part of the program.
- Limits.Clamp: compares the value of a first LIMIT clause of any length with the cap, where
  `int()` at main.py:199 raises on more than 4300 digits and the request ends in HTTP 500.
- Text.DigitsValue: gives the value of a digit run of any length; CPython's `int()` raises
  `ValueError` on more than 4300 digits.
- Values.ToJsonable: `float(Decimal)` and `isoformat()` are parameters. Dict keys are
  strings and dict values are kept as an ordered list of entries.
- Summary.SummarizeRows: rows are maps, so the column order of `rows[0].keys()` is not
  kept in `nulls`. The counts do not depend on that order.
- Respond.Strings: `str()` of a value that is not a string is a parameter `show`.
- Respond.QueryError: the text `str(e)` of a database error is an input (the `message` of
  `PsycopgError`); which exceptions the driver raises is not modelled.
- Respond.Ask: it does not state the `stats` that are sent to the second model call, since
  that call is an input. It does not model `json.dumps` of the payload (main.py:348-350),
  which fails with HTTP 500 for preview values that `to_jsonable` passes through unconverted,
  such as `time`, `UUID` or `bytes` columns. Its success clause holds only when that payload
  serializes.
