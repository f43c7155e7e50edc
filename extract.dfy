/**
 * `_extract_json` (main.py:221-226): the candidate JSON text taken out of a language-model
 * answer. The stripped answer is kept as it is when it already looks like one object;
 * otherwise `re.search(r"\{.*\}", text, flags=re.DOTALL)` picks the span from the first '{'
 * to the last '}' after it, and without such a span the stripped answer is kept.
 */
module Extract {
  import opened Text
  import opened Wrappers

  /** The first position at or after i holding c. */
  function FirstFrom(t: string, c: char, i: nat): (r: Option<nat>)
    ensures r.Some? ==> i <= r.value < |t| && t[r.value] == c
    ensures r.Some? ==> forall k :: i <= k < r.value ==> t[k] != c
    ensures r.None? ==> forall k :: i <= k < |t| ==> t[k] != c
    decreases |t| - i
  {
    if i >= |t| then None
    else if t[i] == c then Some(i)
    else FirstFrom(t, c, i + 1)
  }

  /** The last position before n holding c. */
  function LastBefore(t: string, c: char, n: nat): (r: Option<nat>)
    requires n <= |t|
    ensures r.Some? ==> r.value < n && t[r.value] == c
    ensures r.Some? ==> forall k :: r.value < k < n ==> t[k] != c
    ensures r.None? ==> forall k :: 0 <= k < n ==> t[k] != c
  {
    if n == 0 then None
    else if t[n - 1] == c then Some(n - 1)
    else LastBefore(t, c, n - 1)
  }

  /** What `\{.*\}` can match: a '{' at i and a later '}' at j, anything (newlines too) between. */
  predicate BraceSpan(t: string, i: int, j: int) {
    0 <= i < j < |t| && t[i] == '{' && t[j] == '}'
  }

  /** The match of `re.search(r"\{.*\}", t, flags=re.DOTALL)`, as its first and last positions. */
  function SearchSpan(t: string): Option<(nat, nat)> {
    match FirstFrom(t, '{', 0)
    case None => None
    case Some(i) =>
      match LastBefore(t, '}', |t|)
      case None => None
      case Some(j) => if i < j then Some((i, j)) else None
  }

  /**
   * The span the search returns is the regular expression's match: the leftmost start that
   * can match at all, and from there the longest match (the greedy `.*`).
   */
  lemma SearchSpanIsLeftmostLongest(t: string)
    ensures SearchSpan(t).None? <==> forall i, j :: !BraceSpan(t, i, j)
    ensures SearchSpan(t).Some? ==>
      var (i, j) := SearchSpan(t).value;
      && BraceSpan(t, i, j)
      && (forall i', j' :: BraceSpan(t, i', j') ==> i <= i')
      && (forall j' :: BraceSpan(t, i, j') ==> j' <= j)
  {
    forall i, j | BraceSpan(t, i, j)
      ensures SearchSpan(t).Some? && SearchSpan(t).value.0 <= i && j <= SearchSpan(t).value.1
    {
      var first, last := FirstFrom(t, '{', 0), LastBefore(t, '}', |t|);
      assert first.Some? && first.value <= i;
      assert last.Some? && j <= last.value;
    }
    if SearchSpan(t).Some? {
      var (i, j) := SearchSpan(t).value;
      assert BraceSpan(t, i, j);
    }
  }

  /** `text.startswith("{") and text.endswith("}")`. */
  predicate LooksLikeObject(t: string) {
    |t| > 0 && t[0] == '{' && t[|t| - 1] == '}'
  }

  /** `_extract_json(text)` for a string argument (`text or ""` leaves a string unchanged). */
  function ExtractJson(text: string): (r: string)
    ensures LooksLikeObject(Strip(text)) ==> r == Strip(text)
    ensures !LooksLikeObject(Strip(text)) && SearchSpan(Strip(text)).None? ==> r == Strip(text)
    ensures !LooksLikeObject(Strip(text)) && SearchSpan(Strip(text)).Some? ==>
      var (i, j) := SearchSpan(Strip(text)).value;
      r == Strip(text)[i..j + 1] && LooksLikeObject(r)
  {
    var t := Strip(text);
    if LooksLikeObject(t) then t
    else
      match SearchSpan(t)
      case Some((i, j)) => t[i..j + 1]
      case None => t
  }

  /** The result is always a piece of the stripped text. */
  lemma ExtractIsSlice(text: string) returns (i: nat, j: nat)
    ensures i <= j <= |Strip(text)| && ExtractJson(text) == Strip(text)[i..j]
  {
    var t := Strip(text);
    if LooksLikeObject(t) || SearchSpan(t).None? {
      i, j := 0, |t|;
      assert t[0..|t|] == t;
    } else {
      var span := SearchSpan(t).value;
      i, j := span.0, span.1 + 1;
    }
  }

  /** Text that looks like one object is already stripped: its ends are braces. */
  lemma ObjectIsStripped(r: string)
    requires LooksLikeObject(r)
    ensures Strip(r) == r
  {
    StrippedIsFixpoint(r);
  }

  /** Extracting again from an extracted candidate changes nothing. */
  lemma ExtractIdempotent(text: string)
    ensures ExtractJson(ExtractJson(text)) == ExtractJson(text)
  {
    var t := Strip(text);
    var r := ExtractJson(text);
    if LooksLikeObject(r) {
      ObjectIsStripped(r);
    } else {
      assert r == t;
      StripIdempotent(text);
    }
  }
}
