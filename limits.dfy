/**
 * The LIMIT clamp of main.py:197-201: the pattern is searched with `re.search` on the
 * lowered text and, when the first match exceeds the cap, rewritten everywhere with `re.sub`.
 */
module Limits {
  import opened Text
  import opened Wrappers
  import opened Clauses

  /** `re.search(r"\blimit\s+(\d+)\b", t)` started at position i: the leftmost match. */
  function FindLimit(t: string, i: nat): (r: Option<nat>)
    ensures r.Some? ==> i <= r.value < |t| && LimitAt(t, r.value)
    ensures r.Some? ==> forall j :: i <= j < r.value ==> !LimitAt(t, j)
    ensures r.None? ==> forall j :: i <= j < |t| ==> !LimitAt(t, j)
    decreases |t| - i
  {
    if i >= |t| then None
    else if LimitAt(t, i) then Some(i)
    else FindLimit(t, i + 1)
  }

  /** `f"LIMIT {MAX_ROWS}"`. */
  function Replacement(maxRows: nat): string {
    "LIMIT " + NatToDigits(maxRows)
  }

  /**
   * `re.sub(r"(?i)\blimit\s+\d+\b", rep, s)` from position i on: scanning left to right,
   * every match is replaced and scanning resumes after it; other characters are copied.
   */
  function ReplaceFrom(s: string, i: nat, rep: string): string
    decreases |s| - i
  {
    if i >= |s| then []
    else if LimitAt(Lower(s), i) then rep + ReplaceFrom(s, i + MatchLen(Lower(s), i), rep)
    else [s[i]] + ReplaceFrom(s, i + 1, rep)
  }

  /** main.py:197-201: rewrite every LIMIT clause when the first one exceeds the cap. */
  function Clamp(s: string, maxRows: nat): string {
    var t := Lower(s);
    match FindLimit(t, 0)
    case Some(j) => if LimitValue(t, j) > maxRows then ReplaceFrom(s, 0, Replacement(maxRows)) else s
    case None => s
  }

  /** At a match the scan emits the replacement and resumes after the match. */
  lemma ReplaceAtMatch(s: string, i: nat, rep: string)
    requires i < |s| && LimitAt(Lower(s), i)
    ensures ReplaceFrom(s, i, rep) == rep + ReplaceFrom(s, i + MatchLen(Lower(s), i), rep)
  {
  }

  /** The text after `re.sub` has rewritten the matches from position i on. */
  function Rewritten(s: string, i: nat, rep: string): string
    requires i <= |s|
  {
    s[..i] + ReplaceFrom(s, i, rep)
  }

  /** Where the scan resumes after position i: past the match there, or past one character. */
  function Resume(s: string, i: nat): (k: nat)
    requires i < |s|
    ensures i < k <= |s|
  {
    if LimitAt(Lower(s), i) then i + MatchLen(Lower(s), i) else i + 1
  }

  /** Once the scan has reached the end, the text is as it was. */
  lemma RewrittenAtEnd(s: string, rep: string)
    ensures Rewritten(s, |s|, rep) == s
  {
    assert s[..|s|] == s;
  }

  /** Where nothing matches, the scan copies one character and moves on. */
  lemma ReplaceAtMiss(s: string, i: nat, rep: string)
    requires i < |s| && !LimitAt(Lower(s), i)
    ensures ReplaceFrom(s, i, rep) == [s[i]] + ReplaceFrom(s, i + 1, rep)
  {
  }

  lemma ConsSlice(s: string, k: nat, i: nat, r: string)
    requires k < i <= |s|
    ensures [s[k]] + (s[k + 1..i] + r) == s[k..i] + r
  {
    assert s[k..i] == [s[k]] + s[k + 1..i];
  }

  lemma SnocSlice(s: string, i: nat, r: string)
    requires i < |s|
    ensures s[..i] + ([s[i]] + r) == s[..i + 1] + r
  {
    assert s[..i + 1] == s[..i] + [s[i]];
  }

  /** Past a match the scan resumes right after it. */
  lemma ResumeAtMatch(s: string, i: nat)
    requires i < |s| && LimitAt(Lower(s), i)
    ensures Resume(s, i) == i + MatchLen(Lower(s), i)
  {
  }

  /** Where nothing matches, the scan copies one character and resumes at the next one. */
  lemma MissStep(s: string, i: nat, rep: string)
    requires i < |s| && !LimitAt(Lower(s), i)
    ensures Resume(s, i) == i + 1
    ensures Rewritten(s, i, rep) == Rewritten(s, Resume(s, i), rep)
  {
    ReplaceAtMiss(s, i, rep);
    SnocSlice(s, i, ReplaceFrom(s, i + 1, rep));
  }

  /** The gap before position i is the first thing the scan reaches: nothing in it matches. */
  lemma {:induction false} ReplaceSkipsGap(s: string, k: nat, i: nat, rep: string)
    requires k <= i <= |s|
    requires forall j :: k <= j < i ==> !LimitAt(Lower(s), j)
    ensures ReplaceFrom(s, k, rep) == s[k..i] + ReplaceFrom(s, i, rep)
    decreases i - k
  {
    if k < i {
      ReplaceAtMiss(s, k, rep);
      ReplaceSkipsGap(s, k + 1, i, rep);
      ConsSlice(s, k, i, ReplaceFrom(s, i, rep));
    }
  }

  /** A text whose only LIMIT clause ends it is rewritten to its prefix and the replacement. */
  lemma LastClauseRewritten(s: string, i: nat, rep: string)
    requires i < |s| && LimitAt(Lower(s), i) && i + MatchLen(Lower(s), i) == |s|
    requires forall j :: 0 <= j < i ==> !LimitAt(Lower(s), j)
    ensures ReplaceFrom(s, 0, rep) == s[..i] + rep
  {
    ReplaceSkipsGap(s, 0, i, rep);
    ReplaceAtMatch(s, i, rep);
    assert ReplaceFrom(s, |s|, rep) == [];
  }
}
