/**
 * `summarize_rows` (main.py:275-285): the statistics sent along with the preview rows, the
 * number of rows and, for each column of the first row, how many rows have no value there.
 */
module Summary {
  import opened Values

  /** A row as `dict_row` returns it: column name to value. */
  type Row = map<string, Value>

  /** `r.get(c) is None`: the column is missing from the row or holds NULL. */
  predicate IsNull(r: Row, c: string) {
    c !in r || r[c] == Null
  }

  /** The number of rows without a value in column c. */
  function NullCount(rows: seq<Row>, c: string): (n: nat)
    ensures n <= |rows|
  {
    if rows == [] then 0
    else NullCount(rows[..|rows| - 1], c) + (if IsNull(rows[|rows| - 1], c) then 1 else 0)
  }

  /** The positions of the rows without a value in column c. */
  function NullRows(rows: seq<Row>, c: string): set<nat> {
    set k: nat | k < |rows| && IsNull(rows[k], c)
  }

  /** The count is the number of rows, counted one by one, that lack the value. */
  lemma {:induction false} NullCountIsSize(rows: seq<Row>, c: string)
    ensures NullCount(rows, c) == |NullRows(rows, c)|
  {
    if rows != [] {
      var init := rows[..|rows| - 1];
      NullCountIsSize(init, c);
      var last := |rows| - 1;
      if IsNull(rows[last], c) {
        assert NullRows(rows, c) == NullRows(init, c) + {last};
      } else {
        assert NullRows(rows, c) == NullRows(init, c);
      }
    }
  }

  /** A count is zero exactly when every row has the value, and |rows| when none has. */
  lemma {:induction false} NullCountExtremes(rows: seq<Row>, c: string)
    ensures (forall k :: 0 <= k < |rows| ==> !IsNull(rows[k], c)) <==> NullCount(rows, c) == 0
    ensures (forall k :: 0 <= k < |rows| ==> IsNull(rows[k], c)) <==> NullCount(rows, c) == |rows|
  {
    if rows != [] {
      var init := rows[..|rows| - 1];
      NullCountExtremes(init, c);
      assert forall k :: 0 <= k < |init| ==> init[k] == rows[k];
    }
  }

  /** Counting one more row adds one when that row lacks the value. */
  lemma NullCountStep(rows: seq<Row>, i: nat, c: string)
    requires i < |rows|
    ensures NullCount(rows[..i + 1], c) == NullCount(rows[..i], c) + (if IsNull(rows[i], c) then 1 else 0)
  {
    assert rows[..i + 1][..i] == rows[..i];
  }

  /** The result of `summarize_rows`: `preview_row_count` and `nulls`. */
  datatype Stats = Stats(previewRowCount: nat, nulls: map<string, nat>)

  /**
   * `summarize_rows(rows)`. The counters start at zero for the first row's columns and the
   * nested loop adds one for each row and column that lacks a value.
   */
  method SummarizeRows(rows: seq<Row>) returns (stats: Stats)
    ensures rows == [] ==> stats == Stats(0, map[])
    ensures rows != [] ==> stats.previewRowCount == |rows| && stats.nulls.Keys == rows[0].Keys
    ensures forall c :: c in stats.nulls ==> stats.nulls[c] == NullCount(rows, c)
  {
    if rows == [] {
      return Stats(0, map[]);
    }
    var cols := rows[0].Keys;
    var nulls: map<string, nat> := map c | c in cols :: 0;
    var i := 0;
    while i < |rows|
      invariant 0 <= i <= |rows|
      invariant nulls.Keys == cols
      invariant forall c :: c in nulls ==> nulls[c] == NullCount(rows[..i], c)
    {
      var r := rows[i];
      var todo := cols;
      while todo != {}
        invariant todo <= cols && nulls.Keys == cols
        invariant forall c :: c in nulls ==>
          nulls[c] == NullCount(rows[..i], c) + (if c !in todo && IsNull(r, c) then 1 else 0)
        decreases |todo|
      {
        var c :| c in todo;
        if IsNull(r, c) {
          nulls := nulls[c := nulls[c] + 1];
        }
        todo := todo - {c};
      }
      forall c | c in nulls
        ensures nulls[c] == NullCount(rows[..i + 1], c)
      {
        NullCountStep(rows, i, c);
      }
      i := i + 1;
    }
    assert rows[..i] == rows;
    return Stats(|rows|, nulls);
  }
}
