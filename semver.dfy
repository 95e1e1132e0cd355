/**
 * The part of Semantic Versioning 2.0.0 that deinde uses: versions as
 * (major, minor, patch) triples of naturals, precedence (section 11 of the
 * specification, restricted to release versions), the three bumps (sections
 * 6 to 8), the decimal dotted rendering, and the parse of a dotted triple of
 * digit runs back into a version.
 */
module Semver {
  import opened Wrappers
  import opened Text
  import opened Patterns

  datatype Version = Version(major: nat, minor: nat, patch: nat)

  /** Precedence: major, then minor, then patch, compared numerically. */
  predicate Less(v: Version, w: Version)
  {
    || v.major < w.major
    || (v.major == w.major && v.minor < w.minor)
    || (v.major == w.major && v.minor == w.minor && v.patch < w.patch)
  }

  /** Precedence is a strict total order on versions. */
  lemma LessTotal(u: Version, v: Version, w: Version)
    ensures !Less(v, v)
    ensures Less(u, v) && Less(v, w) ==> Less(u, w)
    ensures v == w || Less(v, w) || Less(w, v)
  {
  }

  /** A patch release: the next version in precedence order, with nothing between. */
  function BumpPatch(v: Version): (r: Version)
    ensures Less(v, r)
    ensures forall w :: Less(v, w) ==> !Less(w, r)
  {
    Version(v.major, v.minor, v.patch + 1)
  }

  /**
   * A minor release: the least version above v whose (major, minor) pair
   * differs from v's; so the minor number grows and the patch is reset to 0.
   */
  function BumpMinor(v: Version): (r: Version)
    ensures Less(v, r) && (r.major, r.minor) != (v.major, v.minor)
    ensures forall w :: Less(v, w) && (w.major, w.minor) != (v.major, v.minor) ==> !Less(w, r)
  {
    Version(v.major, v.minor + 1, 0)
  }

  /** A major release: the least version above v with another major number. */
  function BumpMajor(v: Version): (r: Version)
    ensures Less(v, r) && r.major != v.major
    ensures forall w :: Less(v, w) && w.major != v.major ==> !Less(w, r)
  {
    Version(v.major + 1, 0, 0)
  }

  // ---------------------------------------------------------------------
  // Decimal digits
  // ---------------------------------------------------------------------

  predicate AllDigits(s: string)
  {
    forall k :: 0 <= k < |s| ==> IsDigit(s[k])
  }

  function DigitChar(d: nat): (c: char)
    requires d < 10
    ensures IsDigit(c)
  {
    ('0' as int + d) as char
  }

  /** The value of a run of decimal digits (leading zeros allowed). */
  function Value(s: string): nat
    requires AllDigits(s)
  {
    if s == [] then 0
    else Value(s[..|s| - 1]) * 10 + (s[|s| - 1] as int - '0' as int)
  }

  /** The decimal rendering of n, as %d prints it: digits only, never empty, no leading zero. */
  function Decimal(n: nat): (s: string)
    ensures |s| >= 1 && AllDigits(s)
    ensures |s| == 1 || s[0] != '0'
  {
    if n < 10 then [DigitChar(n)] else Decimal(n / 10) + [DigitChar(n % 10)]
  }

  /** Reading back a rendered number gives the number. */
  lemma {:induction false} ValueOfDecimal(n: nat)
    ensures Value(Decimal(n)) == n
  {
    var s := Decimal(n);
    if n >= 10 {
      ValueOfDecimal(n / 10);
      assert s[..|s| - 1] == Decimal(n / 10);
    }
  }

  /** A run of zeros and only zeros reads as zero. */
  lemma {:induction false} ZeroValue(s: string)
    requires AllDigits(s) && Value(s) == 0
    ensures forall k :: 0 <= k < |s| ==> s[k] == '0'
  {
    if s != [] {
      ZeroValue(s[..|s| - 1]);
      assert forall k :: 0 <= k < |s| - 1 ==> s[k] == s[..|s| - 1][k];
    }
  }

  /**
   * The decimal rendering is the only digit run without a leading zero that
   * reads as its number: %d has exactly one output per number.
   */
  lemma {:induction false} DecimalUnique(s: string)
    requires |s| >= 1 && AllDigits(s)
    requires |s| == 1 || s[0] != '0'
    ensures s == Decimal(Value(s))
  {
    var front := s[..|s| - 1];
    if |s| == 1 {
      assert front == [];
    } else {
      assert front[0] == s[0];
      DecimalUnique(front);
      if Value(front) == 0 {
        ZeroValue(front);
        assert false;
      }
      var n := Value(s);
      assert n / 10 == Value(front) && n % 10 == s[|s| - 1] as int - '0' as int;
      assert s == front + [s[|s| - 1]];
    }
  }

  // ---------------------------------------------------------------------
  // Rendering and parsing the dotted triple
  // ---------------------------------------------------------------------

  /** The String form of a release version: major.minor.patch in decimal, so digits and dots only. */
  function VersionString(v: Version): (r: string)
    ensures |r| >= 5
    ensures forall k :: 0 <= k < |r| ==> IsDigit(r[k]) || r[k] == '.'
  {
    Decimal(v.major) + "." + Decimal(v.minor) + "." + Decimal(v.patch)
  }

  /**
   * The parse of a tag the version pattern matched: a whole-string match of
   * `\d+\.\d+\.\d+`, its three digit runs read as numbers.
   */
  function ParseTriple(t: string): (r: Option<Version>)
    ensures r.Some? ==> MatchesAt(t, 0, |t|)
  {
    match MatchAt(t, 0)
    case None => None
    case Some(m) =>
      if m.end != |t| then None
      else
        assert AllDigits(t[..m.dot1]);
        assert AllDigits(t[m.dot1 + 1..m.dot2]);
        assert AllDigits(t[m.dot2 + 1..]);
        Some(Version(Value(t[..m.dot1]), Value(t[m.dot1 + 1..m.dot2]), Value(t[m.dot2 + 1..])))
  }

  /** ParseTriple succeeds exactly on the strings the pattern matches in full. */
  lemma ParseTripleDefined(t: string)
    ensures ParseTriple(t).Some? <==> MatchesAt(t, 0, |t|)
  {
    if MatchesAt(t, 0, |t|) {
      MatchAtLongest(t, 0, |t|);
    }
  }

  /** A run of digits placed at `i` and followed by a non-digit (or by nothing) is a maximal run. */
  lemma DigitRunAt(s: string, i: nat, x: string)
    requires i + |x| <= |s| && s[i..i + |x|] == x && AllDigits(x)
    requires i + |x| == |s| || !IsDigit(s[i + |x|])
    ensures RunEnd(s, i, IsDigit) == i + |x|
  {
    forall k | i <= k < i + |x| ensures IsDigit(s[k]) {
      assert s[k] == x[k - i];
    }
    RunEndUnique(s, i, i + |x|, IsDigit);
  }

  /** MatchAt follows the three digit runs and the two dots between them. */
  lemma MatchAtRuns(s: string, p: nat, d1: nat, d2: nat, e: nat)
    requires p < d1 && d1 + 1 < d2 && d2 + 1 < e <= |s|
    requires RunEnd(s, p, IsDigit) == d1 && s[d1] == '.'
    requires RunEnd(s, d1 + 1, IsDigit) == d2 && s[d2] == '.'
    requires RunEnd(s, d2 + 1, IsDigit) == e
    ensures MatchAt(s, p) == Some(Span(p, d1, d2, e))
  {
  }

  /** Three digit runs at known places, each followed by a non-digit or by nothing, are maximal runs. */
  lemma ThreeRuns(s: string, p: nat, a: string, b: string, c: string, post: string)
    requires |a| >= 1 && |b| >= 1 && |c| >= 1
    requires AllDigits(a) && AllDigits(b) && AllDigits(c)
    requires post == [] || !IsDigit(post[0])
    requires Placed(s, p, a, b, c, post, '.')
    ensures
      var d1 := p + |a|;
      var d2 := d1 + 1 + |b|;
      var e := d2 + 1 + |c|;
      && RunEnd(s, p, IsDigit) == d1
      && RunEnd(s, d1 + 1, IsDigit) == d2
      && RunEnd(s, d2 + 1, IsDigit) == e
  {
    var d1 := p + |a|;
    var d2 := d1 + 1 + |b|;
    var e := d2 + 1 + |c|;
    DigitRunAt(s, p, a);
    DigitRunAt(s, d1 + 1, b);
    assert e < |s| ==> s[e] == post[0];
    DigitRunAt(s, d2 + 1, c);
  }

  /** Three digit runs at known places, joined by dots and followed by a non-digit or nothing, are the match. */
  lemma RunsMatch(s: string, p: nat, a: string, b: string, c: string, post: string)
    requires |a| >= 1 && |b| >= 1 && |c| >= 1
    requires AllDigits(a) && AllDigits(b) && AllDigits(c)
    requires post == [] || !IsDigit(post[0])
    requires Placed(s, p, a, b, c, post, '.')
    ensures MatchAt(s, p) == Some(Span(p, p + |a|, p + |a| + 1 + |b|, p + |a| + 1 + |b| + 1 + |c|))
  {
    var d1 := p + |a|;
    var d2 := d1 + 1 + |b|;
    ThreeRuns(s, p, a, b, c, post);
    MatchAtRuns(s, p, d1, d2, d2 + 1 + |c|);
  }

  /**
   * In any text, three digit runs joined by dots and followed by a non-digit
   * (or by nothing) are matched by the pattern exactly, dots and end included.
   */
  lemma DottedMatch(pre: string, a: string, b: string, c: string, post: string)
    requires |a| >= 1 && |b| >= 1 && |c| >= 1
    requires AllDigits(a) && AllDigits(b) && AllDigits(c)
    requires post == [] || !IsDigit(post[0])
    ensures
      var p := |pre|;
      MatchAt(pre + a + ['.'] + b + ['.'] + c + post, p)
        == Some(Span(p, p + |a|, p + |a| + 1 + |b|, p + |a| + 1 + |b| + 1 + |c|))
  {
    DottedSlices(pre, a, b, c, post, '.');
    RunsMatch(pre + a + ['.'] + b + ['.'] + c + post, |pre|, a, b, c, post);
  }

  /** A rendered version, in any text and followed by a non-digit or nothing, is matched exactly. */
  lemma RenderedMatch(pre: string, v: Version, post: string)
    requires post == [] || !IsDigit(post[0])
    ensures
      var a, b, c := Decimal(v.major), Decimal(v.minor), Decimal(v.patch);
      var p := |pre|;
      MatchAt(pre + VersionString(v) + post, p)
        == Some(Span(p, p + |a|, p + |a| + 1 + |b|, p + |a| + 1 + |b| + 1 + |c|))
  {
    var a, b, c := Decimal(v.major), Decimal(v.minor), Decimal(v.patch);
    assert pre + VersionString(v) + post == pre + a + ['.'] + b + ['.'] + c + post;
    DottedMatch(pre, a, b, c, post);
  }

  /** ParseTriple reads the three runs that a whole-string match delimits. */
  lemma ParseTripleOf(t: string, d1: nat, d2: nat)
    requires MatchAt(t, 0) == Some(Span(0, d1, d2, |t|))
    ensures AllDigits(t[..d1]) && AllDigits(t[d1 + 1..d2]) && AllDigits(t[d2 + 1..])
    ensures ParseTriple(t) == Some(Version(Value(t[..d1]), Value(t[d1 + 1..d2]), Value(t[d2 + 1..])))
  {
  }

  /** Slices equal to digit runs have the runs' values. */
  lemma SliceValues(t: string, a: string, b: string, c: string)
    requires AllDigits(a) && AllDigits(b) && AllDigits(c)
    requires |t| == |a| + 1 + |b| + 1 + |c|
    requires t[..|a|] == a && t[|a| + 1..|a| + 1 + |b|] == b && t[|a| + 1 + |b| + 1..] == c
    ensures
      var d1, d2 := |a|, |a| + 1 + |b|;
      && AllDigits(t[..d1]) && AllDigits(t[d1 + 1..d2]) && AllDigits(t[d2 + 1..])
      && Version(Value(t[..d1]), Value(t[d1 + 1..d2]), Value(t[d2 + 1..])) == Version(Value(a), Value(b), Value(c))
  {
  }

  /** Three digit runs joined by dots are matched in full from position 0. */
  lemma DottedWhole(a: string, b: string, c: string)
    requires |a| >= 1 && |b| >= 1 && |c| >= 1
    requires AllDigits(a) && AllDigits(b) && AllDigits(c)
    ensures
      var t := a + ['.'] + b + ['.'] + c;
      MatchAt(t, 0) == Some(Span(0, |a|, |a| + 1 + |b|, |t|))
  {
    var t := a + ['.'] + b + ['.'] + c;
    DottedMatch([], a, b, c, []);
    assert [] + a == a;
    assert t + [] == t;
  }

  /** ParseTriple reads the runs of three digit runs joined by dots. */
  lemma ParseWhole(a: string, b: string, c: string)
    requires |a| >= 1 && |b| >= 1 && |c| >= 1
    requires AllDigits(a) && AllDigits(b) && AllDigits(c)
    ensures
      var t := a + ['.'] + b + ['.'] + c;
      var d1, d2 := |a|, |a| + 1 + |b|;
      && AllDigits(t[..d1]) && AllDigits(t[d1 + 1..d2]) && AllDigits(t[d2 + 1..])
      && ParseTriple(t) == Some(Version(Value(t[..d1]), Value(t[d1 + 1..d2]), Value(t[d2 + 1..])))
  {
    DottedWhole(a, b, c);
    ParseTripleOf(a + ['.'] + b + ['.'] + c, |a|, |a| + 1 + |b|);
  }

  /** Parsing the three digit runs joined by dots reads each run's value. */
  lemma ParseDotted(a: string, b: string, c: string)
    requires |a| >= 1 && |b| >= 1 && |c| >= 1
    requires AllDigits(a) && AllDigits(b) && AllDigits(c)
    ensures ParseTriple(a + ['.'] + b + ['.'] + c) == Some(Version(Value(a), Value(b), Value(c)))
  {
    var t := a + ['.'] + b + ['.'] + c;
    ParseWhole(a, b, c);
    ThreeSlices(a, b, c, '.');
    SliceValues(t, a, b, c);
  }

  /**
   * The String form is the only `%d.%d.%d` text of a version: three digit
   * runs without leading zeros, read as the version's numbers, joined by dots.
   */
  lemma VersionStringUnique(v: Version, a: string, b: string, c: string)
    requires |a| >= 1 && AllDigits(a) && (|a| == 1 || a[0] != '0') && Value(a) == v.major
    requires |b| >= 1 && AllDigits(b) && (|b| == 1 || b[0] != '0') && Value(b) == v.minor
    requires |c| >= 1 && AllDigits(c) && (|c| == 1 || c[0] != '0') && Value(c) == v.patch
    ensures a + "." + b + "." + c == VersionString(v)
  {
    DecimalUnique(a);
    DecimalUnique(b);
    DecimalUnique(c);
  }

  /** The version a match names: its three digit runs, read as numbers. */
  function SpanVersion(s: string, m: Span): (v: Version)
    requires TripleAt(s, m.start, m.dot1, m.dot2, m.end)
  {
    Version(Value(s[m.start..m.dot1]), Value(s[m.dot1 + 1..m.dot2]), Value(s[m.dot2 + 1..m.end]))
  }

  /** The text of a match parses, as the numbers of its three digit runs. */
  lemma MatchTextParses(s: string, m: Span)
    requires TripleAt(s, m.start, m.dot1, m.dot2, m.end)
    ensures ParseTriple(s[m.start..m.end]) == Some(SpanVersion(s, m))
  {
    MatchTextAlone(s, m);
    ParseText(s, m);
  }

  /** Once the text of a match is matched in full on its own, it parses as the match's runs. */
  lemma ParseText(s: string, m: Span)
    requires m.start < m.dot1 < m.dot2 < m.end <= |s|
    requires MatchAt(s[m.start..m.end], 0) == Some(Span(0, m.dot1 - m.start, m.dot2 - m.start, m.end - m.start))
    ensures AllDigits(s[m.start..m.dot1]) && AllDigits(s[m.dot1 + 1..m.dot2]) && AllDigits(s[m.dot2 + 1..m.end])
    ensures ParseTriple(s[m.start..m.end])
      == Some(Version(Value(s[m.start..m.dot1]), Value(s[m.dot1 + 1..m.dot2]), Value(s[m.dot2 + 1..m.end])))
  {
    var t := s[m.start..m.end];
    TextRuns(s, m);
    ParseRuns(t, m.dot1 - m.start, m.dot2 - m.start, s[m.start..m.dot1], s[m.dot1 + 1..m.dot2], s[m.dot2 + 1..m.end]);
  }

  /** The runs of a match's own text are the runs of the match. */
  lemma TextRuns(s: string, m: Span)
    requires m.start < m.dot1 < m.dot2 < m.end <= |s|
    ensures
      var t, d1, d2 := s[m.start..m.end], m.dot1 - m.start, m.dot2 - m.start;
      && t[..d1] == s[m.start..m.dot1]
      && t[d1 + 1..d2] == s[m.dot1 + 1..m.dot2]
      && t[d2 + 1..|t|] == s[m.dot2 + 1..m.end]
  {
    var t, d1, d2 := s[m.start..m.end], m.dot1 - m.start, m.dot2 - m.start;
    SliceOfSlice(s, m.start, m.end, 0, d1);
    SliceOfSlice(s, m.start, m.end, d1 + 1, d2);
    SliceOfSlice(s, m.start, m.end, d2 + 1, |t|);
  }

  /** A text matched in full parses as the numbers of its runs, whatever those runs are called. */
  lemma ParseRuns(t: string, d1: nat, d2: nat, a: string, b: string, c: string)
    requires MatchAt(t, 0) == Some(Span(0, d1, d2, |t|))
    requires t[..d1] == a && t[d1 + 1..d2] == b && t[d2 + 1..|t|] == c
    ensures AllDigits(a) && AllDigits(b) && AllDigits(c)
    ensures ParseTriple(t) == Some(Version(Value(a), Value(b), Value(c)))
  {
    assert t[d2 + 1..] == t[d2 + 1..|t|];
    ParseTripleOf(t, d1, d2);
  }

  /** The text of a match, taken on its own, is matched in full from its start. */
  lemma MatchTextAlone(s: string, m: Span)
    requires TripleAt(s, m.start, m.dot1, m.dot2, m.end)
    ensures MatchAt(s[m.start..m.end], 0) == Some(Span(0, m.dot1 - m.start, m.dot2 - m.start, m.end - m.start))
  {
    var t := s[m.start..m.end];
    var d1, d2 := m.dot1 - m.start, m.dot2 - m.start;
    SliceTriple(s, m.start, m.dot1, m.dot2, m.end);
    MatchAtLongest(t, 0, |t|);
    var n := MatchAt(t, 0).value;
    DotsUnique(t, 0, d1, d2, n.dot1, n.dot2, |t|);
  }

  /** A match read out of its text keeps its shape, shifted to position 0. */
  lemma SliceTriple(s: string, p: nat, d1: nat, d2: nat, e: nat)
    requires TripleAt(s, p, d1, d2, e)
    ensures TripleAt(s[p..e], 0, d1 - p, d2 - p, e - p)
  {
    var t := s[p..e];
    assert forall k :: 0 <= k < |t| ==> t[k] == s[p + k];
  }

  /** The two dots of a match are where its non-digits are, so they are determined. */
  lemma DotsUnique(s: string, p: nat, d1: nat, d2: nat, f1: nat, f2: nat, e: nat)
    requires TripleAt(s, p, d1, d2, e) && TripleAt(s, p, f1, f2, e)
    ensures d1 == f1 && d2 == f2
  {
    assert !IsDigit(s[d1]) && !IsDigit(s[d2]) && !IsDigit(s[f1]) && !IsDigit(s[f2]);
  }

  /** Parsing a rendered version gives it back. */
  lemma ParseVersionString(v: Version)
    ensures ParseTriple(VersionString(v)) == Some(v)
  {
    var a, b, c := Decimal(v.major), Decimal(v.minor), Decimal(v.patch);
    assert VersionString(v) == a + ['.'] + b + ['.'] + c;
    ParseDotted(a, b, c);
    ValueOfDecimal(v.major);
    ValueOfDecimal(v.minor);
    ValueOfDecimal(v.patch);
  }
}
