/**
 * Character classes and string primitives behind the regular expressions of main.py,
 * restricted to ASCII:
 *   - `\s` and `str.strip()` whitespace: the ASCII characters for which `str.isspace()`
 *     holds (tab, line feed, vertical tab, form feed, carriage return, the four
 *     information separators 0x1C..0x1F, and the space);
 *   - `\w`: letters, digits and the underscore;  `\d`: the ten decimal digits;
 *   - `str.lower()` and `re.IGNORECASE`: ASCII case folding, every other character unchanged.
 */
module Text {

  predicate IsSpace(c: char) {
    var n := c as int;
    n == 32 || 9 <= n <= 13 || 28 <= n <= 31
  }

  predicate IsDigit(c: char) {
    '0' <= c <= '9'
  }

  predicate IsLetter(c: char) {
    'a' <= c <= 'z' || 'A' <= c <= 'Z'
  }

  /** The class of `\w`. */
  predicate IsWordChar(c: char) {
    IsLetter(c) || IsDigit(c) || c == '_'
  }

  /** ASCII lower-casing of one character; it keeps every class the regular expressions test. */
  function LowerChar(c: char): (r: char)
    ensures IsWordChar(r) == IsWordChar(c)
    ensures IsLetter(r) == IsLetter(c)
    ensures IsSpace(r) == IsSpace(c)
    ensures IsDigit(r) == IsDigit(c)
    ensures IsDigit(c) || IsSpace(c) || c == ';' ==> r == c
    ensures !('A' <= r <= 'Z')
  {
    if 'A' <= c <= 'Z' then (c as int + 32) as char else c
  }

  /** `str.lower()` on ASCII text: same length, lowered character by character. */
  function Lower(s: string): string {
    seq(|s|, i requires 0 <= i < |s| => LowerChar(s[i]))
  }

  lemma LowerAppend(a: string, b: string)
    ensures Lower(a + b) == Lower(a) + Lower(b)
  {
    assert forall i :: 0 <= i < |a + b| ==> Lower(a + b)[i] == (Lower(a) + Lower(b))[i];
  }

  lemma LowerSlice(s: string, i: int, j: int)
    requires 0 <= i <= j <= |s|
    ensures Lower(s[i..j]) == Lower(s)[i..j]
  {
  }

  /** Every character is whitespace: the text `str.strip()` turns into "". */
  predicate IsBlank(s: string) {
    forall k :: 0 <= k < |s| ==> IsSpace(s[k])
  }

  function CountLeadingSpace(s: string): (n: nat)
    ensures n <= |s|
    ensures forall k :: 0 <= k < n ==> IsSpace(s[k])
    ensures n < |s| ==> !IsSpace(s[n])
  {
    if |s| > 0 && IsSpace(s[0]) then 1 + CountLeadingSpace(s[1..]) else 0
  }

  function CountTrailingSpace(s: string): (n: nat)
    ensures n <= |s|
    ensures forall k :: |s| - n <= k < |s| ==> IsSpace(s[k])
    ensures n < |s| ==> !IsSpace(s[|s| - 1 - n])
  {
    if |s| > 0 && IsSpace(s[|s| - 1]) then 1 + CountTrailingSpace(s[..|s| - 1]) else 0
  }

  /** Neither end is whitespace: what `str.strip()` returns. */
  predicate IsStripped(s: string) {
    s == [] || (!IsSpace(s[0]) && !IsSpace(s[|s| - 1]))
  }

  /** `str.strip()` with no argument. */
  function Strip(s: string): (r: string)
    ensures IsStripped(r)
    ensures |r| <= |s|
  {
    var i := CountLeadingSpace(s);
    if i == |s| then [] else s[i..|s| - CountTrailingSpace(s)]
  }

  /** Strip removes exactly a whitespace prefix and a whitespace suffix. */
  lemma StripSlice(s: string) returns (i: nat, j: nat)
    ensures i <= j <= |s| && Strip(s) == s[i..j]
    ensures IsBlank(s[..i]) && IsBlank(s[j..])
  {
    i := CountLeadingSpace(s);
    if i == |s| {
      j := i;
    } else {
      j := |s| - CountTrailingSpace(s);
      assert !IsSpace(s[i]);
    }
  }

  /** `s.strip()` is "" exactly when s is all whitespace. */
  lemma StripEmptyIffBlank(s: string)
    ensures Strip(s) == [] <==> IsBlank(s)
  {
    var i, j := StripSlice(s);
    if IsBlank(s) && i < |s| {
      assert IsSpace(s[i]);
    }
  }

  lemma StrippedIsFixpoint(s: string)
    requires IsStripped(s)
    ensures Strip(s) == s
  {
  }

  lemma StripIdempotent(s: string)
    ensures Strip(Strip(s)) == Strip(s)
  {
    StrippedIsFixpoint(Strip(s));
  }

  /** `n` occurs in `t` at position `i`. */
  predicate OccursAt(t: string, n: string, i: int) {
    0 <= i && i + |n| <= |t| && t[i..i + |n|] == n
  }

  /** Python's `n in t`. */
  predicate Contains(t: string, n: string) {
    exists i :: 0 <= i <= |t| && OccursAt(t, n, i)
  }

  /** `\b` at position i: exactly one of the neighbouring characters is a word character. */
  predicate Boundary(t: string, i: int)
    requires 0 <= i <= |t|
  {
    (i > 0 && IsWordChar(t[i - 1])) != (i < |t| && IsWordChar(t[i]))
  }

  /** `\bw\b` matches at position i. */
  predicate WordAt(t: string, w: string, i: int) {
    OccursAt(t, w, i) && Boundary(t, i) && Boundary(t, i + |w|)
  }

  /** `re.search(r"\bw\b", t)` finds a match. */
  predicate ContainsWord(t: string, w: string) {
    exists i :: 0 <= i <= |t| && WordAt(t, w, i)
  }

  predicate AllDigits(d: string) {
    forall k :: 0 <= k < |d| ==> IsDigit(d[k])
  }

  function DigitChar(k: nat): (c: char)
    requires k < 10
    ensures IsDigit(c)
  {
    ('0' as int + k) as char
  }

  /** The value of one decimal digit. */
  function DigitOf(c: char): nat {
    if IsDigit(c) then c as int - '0' as int else 0
  }

  /** Python's `int(d)` when d is a string of decimal digits. */
  function DigitsValue(d: string): nat {
    if d == [] then 0 else DigitsValue(d[..|d| - 1]) * 10 + DigitOf(d[|d| - 1])
  }

  /** Python's `str(n)` for a natural number: shortest decimal digits. */
  function NatToDigits(n: nat): (r: string)
    ensures |r| >= 1 && AllDigits(r)
    ensures r[0] == '0' ==> n == 0
  {
    if n < 10 then [DigitChar(n)] else NatToDigits(n / 10) + [DigitChar(n % 10)]
  }

  /** `int(str(n)) == n`. */
  lemma {:induction false} DigitsRoundTrip(n: nat)
    ensures DigitsValue(NatToDigits(n)) == n
  {
    if n >= 10 {
      var d := NatToDigits(n);
      assert d[..|d| - 1] == NatToDigits(n / 10);
      DigitsRoundTrip(n / 10);
    }
  }
}
