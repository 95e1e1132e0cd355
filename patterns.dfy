/**
 * The two fixed regular expressions of deinde, hand-coded as scanners that
 * return the leftmost match, longest at its start. Go's regexp is
 * leftmost-first; for these patterns the two agree, since each digit run
 * before a dot ends where its digits end, and the greedy last run and letter
 * run take every character of their class.
 * The patterns are `[a-zA-Z]+`, which extracts the keyword token of a
 * commit subject, and `\d+\.\d+\.\d+`, which extracts a version from a tag
 * name. Both classes are ASCII only, as in the regexp package (`\d` is
 * [0-9]).
 */
module Patterns {
  import opened Wrappers
  import opened Text

  predicate IsLetter(c: char) { 'a' <= c <= 'z' || 'A' <= c <= 'Z' }

  predicate IsDigit(c: char) { '0' <= c <= '9' }

  // ---------------------------------------------------------------------
  // [a-zA-Z]+
  // ---------------------------------------------------------------------

  /**
   * s[p..e] is what FindString returns for `[a-zA-Z]+`: no letter before p,
   * only letters in [p, e), no letter right after, and an empty span only
   * when s has no letter at all.
   */
  ghost predicate LetterMatch(s: string, p: nat, e: nat)
  {
    && p <= e <= |s|
    && (forall k :: 0 <= k < p ==> !IsLetter(s[k]))
    && (forall k :: p <= k < e ==> IsLetter(s[k]))
    && (e == |s| || !IsLetter(s[e]))
    && (p < e || p == |s|)
  }

  /** FindString of the compiled `[a-zA-Z]+` on s: the first maximal run of letters, or "". */
  function FindLetters(s: string): (r: string)
    ensures exists p: nat, e: nat :: LetterMatch(s, p, e) && r == s[p..e]
  {
    var p := Seek(s, 0, IsLetter);
    var e := RunEnd(s, p, IsLetter);
    assert LetterMatch(s, p, e);
    s[p..e]
  }

  /** The match is unique: any span meeting the description is the one returned. */
  lemma FindLettersIs(s: string, p: nat, e: nat)
    requires LetterMatch(s, p, e)
    ensures FindLetters(s) == s[p..e]
  {
    SeekUnique(s, 0, p, IsLetter);
    RunEndUnique(s, p, e, IsLetter);
  }

  // ---------------------------------------------------------------------
  // \d+\.\d+\.\d+
  // ---------------------------------------------------------------------

  /**
   * s[p..e] has the shape digits '.' digits '.' digits, with the dots at
   * d1 and d2 and at least one digit in each of the three runs.
   */
  ghost predicate TripleAt(s: string, p: nat, d1: nat, d2: nat, e: nat)
  {
    && p < d1 && d1 + 1 < d2 && d2 + 1 < e <= |s|
    && s[d1] == '.' && s[d2] == '.'
    && (forall k :: p <= k < e && k != d1 && k != d2 ==> IsDigit(s[k]))
  }

  /** The pattern `\d+\.\d+\.\d+` matches s[p..e]. */
  ghost predicate MatchesAt(s: string, p: nat, e: nat)
  {
    exists d1: nat, d2: nat :: TripleAt(s, p, d1, d2, e)
  }

  /** Where a match lies: its start, its two dots and its end. */
  datatype Span = Span(start: nat, dot1: nat, dot2: nat, end: nat)

  /** The greedy match of the pattern that starts exactly at `p`, if any. */
  function MatchAt(s: string, p: nat): (m: Option<Span>)
    requires p <= |s|
    ensures m.Some? ==> m.value.start == p
    ensures m.Some? ==> TripleAt(s, p, m.value.dot1, m.value.dot2, m.value.end)
    ensures m.Some? ==> m.value.end == |s| || !IsDigit(s[m.value.end])
  {
    var e1 := RunEnd(s, p, IsDigit);
    if e1 == p || e1 == |s| || s[e1] != '.' then None
    else
      var e2 := RunEnd(s, e1 + 1, IsDigit);
      if e2 == e1 + 1 || e2 == |s| || s[e2] != '.' then None
      else
        var e3 := RunEnd(s, e2 + 1, IsDigit);
        if e3 == e2 + 1 then None else Some(Span(p, e1, e2, e3))
  }

  /**
   * Every match starting at `p` lies within the one MatchAt finds: MatchAt
   * misses no match, and its match is the longest.
   */
  lemma MatchAtLongest(s: string, p: nat, e: nat)
    requires p <= |s|
    requires MatchesAt(s, p, e)
    ensures MatchAt(s, p).Some? && e <= MatchAt(s, p).value.end
  {
    var d1: nat, d2: nat :| TripleAt(s, p, d1, d2, e);
    RunEndUnique(s, p, d1, IsDigit);
    RunEndUnique(s, d1 + 1, d2, IsDigit);
  }

  /**
   * The leftmost match at or after position `p`: the first position where
   * MatchAt succeeds, and MatchAt fails everywhere before it.
   */
  function FindFrom(s: string, p: nat): (r: Option<Span>)
    requires p <= |s|
    ensures r.Some? ==> p <= r.value.start < |s| && MatchAt(s, r.value.start) == r
    ensures forall q :: p <= q < |s| && (r.None? || q < r.value.start) ==> MatchAt(s, q).None?
    decreases |s| - p
  {
    if p == |s| then None
    else match MatchAt(s, p)
      case Some(m) => Some(m)
      case None => FindFrom(s, p + 1)
  }

  /** FindString of the compiled `\\d+\\.\\d+\\.\\d+`, as a span: the leftmost match in s. */
  function FindTriple(s: string): (r: Option<Span>)
    ensures r.Some? ==> r.value.start < |s| && MatchAt(s, r.value.start) == r
    ensures forall q :: 0 <= q < |s| && (r.None? || q < r.value.start) ==> MatchAt(s, q).None?
  {
    FindFrom(s, 0)
  }

  /** A position where MatchAt fails starts no match at all. */
  lemma NoMatchAt(s: string, q: nat, e: nat)
    requires q <= |s|
    requires MatchAt(s, q).None?
    ensures !MatchesAt(s, q, e)
  {
    if MatchesAt(s, q, e) {
      MatchAtLongest(s, q, e);
    }
  }

  /** FindTriple is the leftmost match of the pattern, and the longest at its start. */
  lemma FindTripleLeftmost(s: string)
    ensures FindTriple(s).None? ==> forall q: nat, e: nat :: !MatchesAt(s, q, e)
    ensures FindTriple(s).Some? ==>
      var m := FindTriple(s).value;
      && TripleAt(s, m.start, m.dot1, m.dot2, m.end)
      && (forall q: nat, e: nat :: q < m.start ==> !MatchesAt(s, q, e))
      && (forall e: nat :: MatchesAt(s, m.start, e) ==> e <= m.end)
  {
    var r := FindTriple(s);
    forall q: nat, e: nat | (r.None? || q < r.value.start) && q <= |s|
      ensures !MatchesAt(s, q, e)
    {
      if q < |s| {
        NoMatchAt(s, q, e);
      }
    }
    if r.Some? {
      forall e: nat | MatchesAt(s, r.value.start, e) ensures e <= r.value.end {
        MatchAtLongest(s, r.value.start, e);
      }
    }
  }

  /** The text FindString returns for the pattern: the match, or "" when there is none. */
  function FindTripleString(s: string): (t: string)
    ensures t == "" <==> FindTriple(s).None?
    ensures FindTriple(s).Some? ==> t == s[FindTriple(s).value.start..FindTriple(s).value.end]
  {
    match FindTriple(s)
    case None => ""
    case Some(m) => s[m.start..m.end]
  }

  /** A string with no digit at all holds no match. */
  lemma {:induction false} NoDigitNoMatch(s: string, p: nat)
    requires p <= |s|
    requires forall k :: 0 <= k < |s| ==> !IsDigit(s[k])
    ensures FindFrom(s, p).None?
    decreases |s| - p
  {
    if p < |s| {
      NoDigitNoMatch(s, p + 1);
    }
  }
}
