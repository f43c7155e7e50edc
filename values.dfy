/**
 * `to_jsonable` (main.py:206-218): the values a database row can hold, and their conversion
 * to values the JSON encoder accepts. Only the structure is modelled; turning a Decimal into
 * a float and a date into its ISO text are library conversions, passed in as parameters.
 */
module Values {

  /** A value as psycopg hands it over, or as it is after conversion. */
  datatype Value =
    | Null                                  // None
    | Bool(b: bool)
    | Int(i: int)
    | Float(f: real)                        // a float, by the value it stands for
    | Str(s: string)
    | Decimal(d: real)                      // decimal.Decimal
    | Date(stamp: string)                   // datetime or date, by an opaque representation
    | Other(tag: string)                    // anything else the encoder may or may not accept
    | List(items: seq<Value>)
    | Tuple(items: seq<Value>)
    | Dict(entries: seq<Entry>)           // a dict, its entries in insertion order

  /** One key and its value in a dict. */
  datatype Entry = Entry(key: string, value: Value)

  /** No Decimal, date or tuple anywhere inside v: nothing `to_jsonable` would still change. */
  predicate Converted(v: Value) {
    match v
    case Decimal(_) => false
    case Date(_) => false
    case Tuple(_) => false
    case List(items) => forall k :: 0 <= k < |items| ==> Converted(items[k])
    case Dict(entries) => forall k :: 0 <= k < |entries| ==> Converted(entries[k].value)
    case _ => true
  }

  /** The keys of a dict's entries, in order. */
  function Keys(entries: seq<Entry>): (ks: seq<string>)
    ensures |ks| == |entries|
    ensures forall k :: 0 <= k < |entries| ==> ks[k] == entries[k].key
  {
    if entries == [] then [] else [entries[0].key] + Keys(entries[1..])
  }

  /**
   * `to_jsonable(x)`. `toFloat` is `float(Decimal)` and `isoformat` is `x.isoformat()`.
   * Lists and tuples both become lists of converted items; a dict keeps its keys, in order,
   * and converts its values; every other value is returned as it is.
   */
  function ToJsonable(x: Value, toFloat: real -> real, isoformat: string -> string): (r: Value)
    ensures Converted(r)
    ensures x.Decimal? ==> r == Float(toFloat(x.d))
    ensures x.Date? ==> r == Str(isoformat(x.stamp))
    ensures (x.List? || x.Tuple?) ==> r.List? && |r.items| == |x.items|
    ensures x.Dict? ==> r.Dict? && Keys(r.entries) == Keys(x.entries)
    ensures !(x.Decimal? || x.Date? || x.List? || x.Tuple? || x.Dict?) ==> r == x
    decreases x
  {
    match x
    case Decimal(d) => Float(toFloat(d))
    case Date(stamp) => Str(isoformat(stamp))
    case Dict(entries) => Dict(ConvertEntries(entries, toFloat, isoformat))
    case List(items) => List(ConvertItems(items, toFloat, isoformat))
    case Tuple(items) => List(ConvertItems(items, toFloat, isoformat))
    case _ => x
  }

  /** `[to_jsonable(v) for v in x]`. */
  function ConvertItems(items: seq<Value>, toFloat: real -> real, isoformat: string -> string): (rs: seq<Value>)
    ensures |rs| == |items|
    ensures forall k :: 0 <= k < |items| ==> rs[k] == ToJsonable(items[k], toFloat, isoformat)
    decreases items
  {
    if items == [] then []
    else [ToJsonable(items[0], toFloat, isoformat)] + ConvertItems(items[1..], toFloat, isoformat)
  }

  /** `{k: to_jsonable(v) for k, v in x.items()}`. */
  function ConvertEntries(entries: seq<Entry>, toFloat: real -> real, isoformat: string -> string)
    : (rs: seq<Entry>)
    ensures |rs| == |entries|
    ensures forall k :: 0 <= k < |entries| ==>
      rs[k] == Entry(entries[k].key, ToJsonable(entries[k].value, toFloat, isoformat))
    decreases entries
  {
    if entries == [] then []
    else
      [Entry(entries[0].key, ToJsonable(entries[0].value, toFloat, isoformat))]
        + ConvertEntries(entries[1..], toFloat, isoformat)
  }

  /** A value that is already converted comes back unchanged. */
  lemma {:induction false} ConvertedIsFixpoint(x: Value, toFloat: real -> real, isoformat: string -> string)
    requires Converted(x)
    ensures ToJsonable(x, toFloat, isoformat) == x
    decreases x
  {
    match x
    case List(items) =>
      var rs := ConvertItems(items, toFloat, isoformat);
      forall k | 0 <= k < |items|
        ensures rs[k] == items[k]
      {
        ConvertedIsFixpoint(items[k], toFloat, isoformat);
      }
      assert rs == items;
    case Dict(entries) =>
      var rs := ConvertEntries(entries, toFloat, isoformat);
      forall k | 0 <= k < |entries|
        ensures rs[k] == entries[k]
      {
        ConvertedIsFixpoint(entries[k].value, toFloat, isoformat);
      }
      assert rs == entries;
    case _ =>
  }

  /** Converting twice is converting once. */
  lemma ToJsonableIdempotent(x: Value, toFloat: real -> real, isoformat: string -> string)
    ensures ToJsonable(ToJsonable(x, toFloat, isoformat), toFloat, isoformat) == ToJsonable(x, toFloat, isoformat)
  {
    ConvertedIsFixpoint(ToJsonable(x, toFloat, isoformat), toFloat, isoformat);
  }

  /** A tuple and the list of the same items convert to the same list. */
  lemma TupleAsList(items: seq<Value>, toFloat: real -> real, isoformat: string -> string)
    ensures ToJsonable(Tuple(items), toFloat, isoformat) == ToJsonable(List(items), toFloat, isoformat)
  {
  }
}
