/**
 * The tag processing of getLastVersion: every line of `git tag --merged
 * <branch>` is searched for its leftmost `\d+\.\d+\.\d+`; lines without one
 * are skipped, the matches are parsed as versions (a version the parser
 * rejects is skipped too), and the version that sorts last is the result.
 */
module Tags {
  import opened Wrappers
  import opened Text
  import opened Patterns
  import opened Semver

  /**
   * The version a tag line names: the parse of the leftmost match, if there
   * is one. A line names a version exactly when it holds a match, and the
   * version is the three numbers of its leftmost match.
   */
  function TagVersion(line: string): (r: Option<Version>)
    ensures r.Some? <==> FindTriple(line).Some?
    ensures FindTriple(line).Some? ==> r == Some(SpanVersion(line, FindTriple(line).value))
  {
    var tag := FindTripleString(line);
    if tag == "" then None
    else
      MatchTextParses(line, FindTriple(line).value);
      ParseTriple(tag)
  }

  /**
   * The versions that `read` finds in the lines and `accept` lets through,
   * in order.
   */
  function Collect(lines: seq<string>, read: string -> Option<Version>, accept: Version -> bool): (r: seq<Version>)
    ensures |r| <= |lines|
    ensures forall k :: 0 <= k < |r| ==> accept(r[k])
  {
    if lines == [] then []
    else
      var found := read(lines[|lines| - 1]);
      Collect(lines[..|lines| - 1], read, accept) +
        if found.Some? && accept(found.value) then [found.value] else []
  }

  /**
   * The versions collected from the tag lines, in order. `accept` stands for
   * the semver parser's own verdict on a match (it rejects, for one, numbers
   * that overflow its integers).
   */
  function Candidates(lines: seq<string>, accept: Version -> bool): (r: seq<Version>)
    ensures |r| <= |lines|
    ensures forall k :: 0 <= k < |r| ==> accept(r[k])
  {
    Collect(lines, TagVersion, accept)
  }

  /**
   * The last element after sorting by precedence: a member that no member
   * exceeds.
   */
  function Greatest(vs: seq<Version>): (g: Version)
    requires vs != []
    ensures g in vs
    ensures forall w :: w in vs ==> !Less(g, w)
  {
    if |vs| == 1 then vs[0]
    else
      var front := vs[..|vs| - 1];
      var rest := Greatest(front);
      assert vs == front + [vs[|vs| - 1]];
      if Less(rest, vs[|vs| - 1]) then vs[|vs| - 1] else rest
  }

  /**
   * getLastVersion, after the git call: the greatest version among the tag
   * lines, or None when no line names one (where the source indexes an empty
   * slice).
   */
  method GetLastVersion(output: string, accept: Version -> bool) returns (last: Option<Version>)
    ensures last.None? <==> Candidates(Split(output, '\n'), accept) == []
    ensures last.Some? ==> last.value == Greatest(Candidates(Split(output, '\n'), accept))
  {
    var lines := Split(output, '\n');
    var versions := CollectTags(lines, TagVersion, accept);
    if versions == [] {
      return None;
    }
    last := Some(Greatest(versions));
  }

  /**
   * The loop over the tag lines: the accepted versions they name, in order.
   * `read` is what the loop body does with one line (TagVersion, when called
   * from GetLastVersion).
   */
  method CollectTags(lines: seq<string>, read: string -> Option<Version>, accept: Version -> bool)
    returns (versions: seq<Version>)
    ensures versions == Collect(lines, read, accept)
  {
    versions := [];
    var i := 0;
    assert lines[..0] == [];
    while i < |lines|
      invariant 0 <= i <= |lines|
      invariant versions == Collect(lines[..i], read, accept)
    {
      var found := read(lines[i]);
      if found.Some? && accept(found.value) {
        versions := versions + [found.value];
      }
      CollectStep(lines, i, read, accept);
      i := i + 1;
    }
    assert lines[..|lines|] == lines;
  }

  /** One more line adds what `read` finds in it, if `accept` lets it through. */
  lemma CollectStep(lines: seq<string>, i: nat, read: string -> Option<Version>, accept: Version -> bool)
    requires i < |lines|
    ensures
      var found := read(lines[i]);
      Collect(lines[..i + 1], read, accept) ==
        Collect(lines[..i], read, accept) + if found.Some? && accept(found.value) then [found.value] else []
  {
    assert lines[..i + 1][..i] == lines[..i];
  }

  // ---------------------------------------------------------------------
  // What the selection means
  // ---------------------------------------------------------------------

  /** A version is collected exactly when `read` finds it on some line and `accept` lets it through. */
  lemma {:induction false} CollectMembers(lines: seq<string>, read: string -> Option<Version>,
                                          accept: Version -> bool, v: Version)
    ensures v in Collect(lines, read, accept) <==>
      exists j :: 0 <= j < |lines| && read(lines[j]) == Some(v) && accept(v)
  {
    if lines != [] {
      var n := |lines| - 1;
      var front := lines[..n];
      CollectMembers(front, read, accept, v);
      CollectStep(lines, n, read, accept);
      assert lines[..n + 1] == lines;
      if v in Collect(front, read, accept) {
        var j :| 0 <= j < |front| && read(front[j]) == Some(v) && accept(v);
        assert lines[j] == front[j];
      } else if !(read(lines[n]) == Some(v) && accept(v)) {
        forall j | 0 <= j < |lines| ensures !(read(lines[j]) == Some(v) && accept(v)) {
          if j < n {
            assert lines[j] == front[j];
          }
        }
      }
    }
  }

  /** A version is a candidate exactly when some tag line names it and the parser accepts it. */
  lemma CandidatesMembers(lines: seq<string>, accept: Version -> bool, v: Version)
    ensures v in Candidates(lines, accept) <==>
      exists j :: 0 <= j < |lines| && TagVersion(lines[j]) == Some(v) && accept(v)
  {
    CollectMembers(lines, TagVersion, accept, v);
  }

  /** Lines are read independently and in order. */
  lemma {:induction false} CollectAppend(x: seq<string>, y: seq<string>, read: string -> Option<Version>,
                                         accept: Version -> bool)
    ensures Collect(x + y, read, accept) == Collect(x, read, accept) + Collect(y, read, accept)
    decreases |y|
  {
    if y == [] {
      assert x + y == x;
    } else {
      var n := |y| - 1;
      var found := read(y[n]);
      var tail := if found.Some? && accept(found.value) then [found.value] else [];
      CollectAppend(x, y[..n], read, accept);
      DropLastOfAppend(x, y);
      assert Collect(x + y, read, accept) == Collect(x + y[..n], read, accept) + tail;
      assert Collect(y, read, accept) == Collect(y[..n], read, accept) + tail;
    }
  }

  /** A single line contributes what `read` finds in it, if `accept` lets it through. */
  lemma CollectOne(line: string, read: string -> Option<Version>, accept: Version -> bool)
    ensures
      var found := read(line);
      Collect([line], read, accept) == if found.Some? && accept(found.value) then [found.value] else []
  {
    assert [line][..0] == [];
  }

  /** Only one version is exceeded by none: the greatest is well defined whatever the sort does. */
  lemma GreatestUnique(vs: seq<Version>, g: Version)
    requires g in vs && forall w :: w in vs ==> !Less(g, w)
    ensures vs != [] && g == Greatest(vs)
  {
    LessTotal(g, g, Greatest(vs));
  }

  /**
   * The chosen version is named by some tag line, and no tag line names an
   * accepted version of higher precedence.
   */
  lemma LastVersionIsGreatestTag(lines: seq<string>, accept: Version -> bool)
    requires Candidates(lines, accept) != []
    ensures exists j ::
      0 <= j < |lines| && TagVersion(lines[j]) == Some(Greatest(Candidates(lines, accept)))
    ensures forall j, w :: 0 <= j < |lines| && TagVersion(lines[j]) == Some(w) && accept(w) ==>
      !Less(Greatest(Candidates(lines, accept)), w)
  {
    var g := Greatest(Candidates(lines, accept));
    CandidatesMembers(lines, accept, g);
    forall j, w | 0 <= j < |lines| && TagVersion(lines[j]) == Some(w) && accept(w)
      ensures !Less(g, w)
    {
      CandidatesMembers(lines, accept, w);
    }
  }

  // ---------------------------------------------------------------------
  // Reading one tag line
  // ---------------------------------------------------------------------

  /**
   * A rendered version in a tag is found when nothing before it is a digit
   * and no digit follows it.
   */
  lemma TagOfRendered(pre: string, v: Version, post: string)
    requires forall k :: 0 <= k < |pre| ==> !IsDigit(pre[k])
    requires post == [] || !IsDigit(post[0])
    ensures TagVersion(pre + VersionString(v) + post) == Some(v)
  {
    var s := pre + VersionString(v) + post;
    var t := VersionString(v);
    RenderedMatch(pre, v, post);
    var m := MatchAt(s, |pre|).value;
    assert m.start == |pre| && m.end == |pre| + |t|;
    forall q | 0 <= q < |pre| ensures MatchAt(s, q).None? {
      assert s[q] == pre[q];
      RunEndUnique(s, q, q, IsDigit);
    }
    assert FindTriple(s) == Some(m);
    assert s[|pre|..|pre| + |t|] == t;
    ParseVersionString(v);
  }

  /** A line without a digit names no version. */
  lemma NoDigitNoTag(line: string)
    requires forall k :: 0 <= k < |line| ==> !IsDigit(line[k])
    ensures TagVersion(line) == None
  {
    NoDigitNoMatch(line, 0);
  }

  /** With no tag output at all there is no candidate, so there is no last release. */
  lemma NoTagsNoRelease(accept: Version -> bool)
    ensures Candidates(Split("", '\n'), accept) == []
  {
    NoDigitNoTag("");
    CollectOne("", TagVersion, accept);
  }

  /** A pre-release suffix is ignored: "v1.2.3-rc1" names 1.2.3. */
  lemma PreReleaseIgnored(v: Version)
    ensures TagVersion("v" + VersionString(v) + "-rc1") == Some(v)
  {
    TagOfRendered("v", v, "-rc1");
  }

  /** The match stops after three numbers: "1.2.3.4" names 1.2.3. */
  lemma FourthNumberIgnored(v: Version)
    ensures TagVersion(VersionString(v) + ".4") == Some(v)
  {
    var t := VersionString(v) + ".4";
    assert t == [] + VersionString(v) + ".4";
    TagOfRendered([], v, ".4");
  }

  /**
   * Tags such as v1.0.0, v1.2.0, not-a-version and v1.1.5 resolve to 1.2.0:
   * the greatest, not the last listed, and the line without a version is
   * skipped.
   */
  lemma ResolverExample(a: Version, b: Version, junk: string, c: Version, accept: Version -> bool)
    requires Less(a, b) && Less(c, b)
    requires forall k :: 0 <= k < |junk| ==> !IsDigit(junk[k])
    requires accept(a) && accept(b) && accept(c)
    ensures
      var lines := ["v" + VersionString(a), "v" + VersionString(b), junk, "v" + VersionString(c)];
      Candidates(lines, accept) == [a, b, c] && Greatest(Candidates(lines, accept)) == b
  {
    ResolverCandidates(a, b, junk, c, accept);
    assert !Less(b, a) by { LessTotal(a, b, a); }
    assert !Less(b, c) by { LessTotal(c, b, c); }
    assert !Less(b, b) by { LessTotal(b, b, b); }
    GreatestUnique([a, b, c], b);
  }

  lemma ResolverCandidates(a: Version, b: Version, junk: string, c: Version, accept: Version -> bool)
    requires forall k :: 0 <= k < |junk| ==> !IsDigit(junk[k])
    requires accept(a) && accept(b) && accept(c)
    ensures Candidates(["v" + VersionString(a), "v" + VersionString(b), junk, "v" + VersionString(c)], accept) == [a, b, c]
  {
    VTagReads(a);
    VTagReads(b);
    NoDigitNoTag(junk);
    VTagReads(c);
    FourLines("v" + VersionString(a), "v" + VersionString(b), junk, "v" + VersionString(c), a, b, c, TagVersion, accept);
  }

  /** The usual tag "v1.2.3" names 1.2.3. */
  lemma VTagReads(v: Version)
    ensures TagVersion("v" + VersionString(v)) == Some(v)
  {
    TagOfRendered("v", v, "");
    assert "v" + VersionString(v) + "" == "v" + VersionString(v);
  }

  /** Four lines of which the third names nothing collect the other three versions. */
  lemma FourLines(l0: string, l1: string, l2: string, l3: string, a: Version, b: Version, c: Version,
                  read: string -> Option<Version>, accept: Version -> bool)
    requires read(l0) == Some(a) && read(l1) == Some(b) && read(l2) == None && read(l3) == Some(c)
    requires accept(a) && accept(b) && accept(c)
    ensures Collect([l0, l1, l2, l3], read, accept) == [a, b, c]
  {
    CollectOne(l0, read, accept);
    assert [l0, l1][..1] == [l0];
    assert Collect([l0, l1], read, accept) == [a, b];
    assert [l0, l1, l2][..2] == [l0, l1];
    assert Collect([l0, l1, l2], read, accept) == [a, b];
    assert [l0, l1, l2, l3][..3] == [l0, l1, l2];
  }
}
