/**
 * The command itself: read the last release from the tags, collect the
 * commits since it, classify their messages, and either stay silent or print
 * the next release tag. The git calls are inputs: the tag listing as text,
 * the cherry listing as a function of the ref it is asked about, and each
 * commit's message as a function of its hash.
 */
module Deinde {
  import opened Wrappers
  import opened Text
  import opened Patterns
  import opened Semver
  import opened Bump
  import opened Commits
  import opened Tags

  /** How a run ends: the last release cannot be found, nothing to release, or a new tag printed. */
  datatype Exit = NoReleaseFound | Silent | Printed(text: string)

  /** The version after a bump of the given level; none for NOTHING. */
  function Bumped(v: Version, level: Level): (r: Option<Version>)
    ensures r.None? <==> level == Nothing
    ensures r.Some? ==> Less(v, r.value)
    ensures level == Patch ==> r == Some(BumpPatch(v))
    ensures level == Minor ==> r == Some(BumpMinor(v))
    ensures level == Major ==> r == Some(BumpMajor(v))
  {
    match level
    case Nothing => None
    case Patch => Some(BumpPatch(v))
    case Minor => Some(BumpMinor(v))
    case Major => Some(BumpMajor(v))
  }

  /**
   * The line printed for a release: "v", the dotted version, a line break,
   * so the tag that a later run passes to git cherry. Read back through the
   * tag pattern it names the version it renders.
   */
  function TagLine(v: Version): (line: string)
    ensures |line| >= 1 && line[|line| - 1] == '\n'
    ensures line == LastRef(v) + "\n"
    ensures TagVersion(line) == Some(v)
  {
    TagOfRendered("v", v, "\n");
    "v" + VersionString(v) + "\n"
  }

  /**
   * The bump switch of main: bump the last version and render it; NOTHING
   * ends the run with no output. In the source `version` aliases the
   * `*semver.Version` that getLastVersion returned and the bump mutates that
   * object; it is not read again afterwards, so updating a value gives the
   * same output.
   */
  method Release(last: Version, bump: Level) returns (out: Option<string>)
    ensures out.None? <==> bump == Nothing
    ensures out.Some? ==> out.value == TagLine(Bumped(last, bump).value)
  {
    var version := last;
    match bump {
      case Patch =>
        version := BumpPatch(version);
      case Minor =>
        version := BumpMinor(version);
      case Major =>
        version := BumpMajor(version);
      case Nothing =>
        return None;
    }
    out := Some(TagLine(version));
  }

  /** The messages of the commits, in order. */
  function Fetch(commits: seq<Hash>, messageOf: Hash -> string): (messages: seq<string>)
    ensures |messages| == |commits|
    ensures forall i :: 0 <= i < |commits| ==> messages[i] == messageOf(commits[i])
  {
    seq(|commits|, i requires 0 <= i < |commits| => messageOf(commits[i]))
  }

  /** getMessages without its git call: one message per commit, in commit order. */
  method GetMessages(commits: seq<Hash>, messageOf: Hash -> string) returns (messages: seq<string>)
    ensures messages == Fetch(commits, messageOf)
  {
    messages := [];
    var i := 0;
    while i < |commits|
      invariant 0 <= i <= |commits|
      invariant messages == Fetch(commits[..i], messageOf)
    {
      messages := messages + [messageOf(commits[i])];
      i := i + 1;
    }
    assert commits[..|commits|] == commits;
  }

  /** The ref the commits are listed against: the last release with a "v" in front, a tag that names it. */
  function LastRef(v: Version): (ref: string)
    ensures |ref| >= 1 && ref[0] == 'v' && ref[1..] == VersionString(v)
    ensures TagVersion(ref) == Some(v)
  {
    VTagReads(v);
    "v" + VersionString(v)
  }

  /** What a run does, given what git answers. */
  function Outcome(tagOutput: string, cherryOf: string -> string, messageOf: Hash -> string,
                   accept: Version -> bool): (r: Exit)
    ensures r == NoReleaseFound <==> Candidates(Split(tagOutput, '\n'), accept) == []
  {
    var candidates := Candidates(Split(tagOutput, '\n'), accept);
    if candidates == [] then NoReleaseFound
    else
      var last := Greatest(candidates);
      var messages := Fetch(CherryHashes(cherryOf(LastRef(last))), messageOf);
      match Bumped(last, Classify(Keywords, messages))
      case None => Silent
      case Some(next) => Printed(TagLine(next))
  }

  /** main, from the last release to the printed tag. */
  method Run(tagOutput: string, cherryOf: string -> string, messageOf: Hash -> string,
             accept: Version -> bool) returns (exit: Exit)
    ensures exit == Outcome(tagOutput, cherryOf, messageOf, accept)
  {
    var lastVersion := GetLastVersion(tagOutput, accept);
    if lastVersion.None? {
      return NoReleaseFound;
    }
    var commits := GetCommits(cherryOf(LastRef(lastVersion.value)));
    var messages := GetMessages(commits, messageOf);
    var bump := GetBump(Keywords, messages);
    var out := Release(lastVersion.value, bump);
    if out.None? {
      exit := Silent;
    } else {
      exit := Printed(out.value);
    }
  }

  // ---------------------------------------------------------------------
  // What a run means
  // ---------------------------------------------------------------------

  /** Without any version tag there is no last release. */
  lemma NoTagsIsNoRelease(cherryOf: string -> string, messageOf: Hash -> string, accept: Version -> bool)
    ensures Outcome("", cherryOf, messageOf, accept) == NoReleaseFound
  {
    NoTagsNoRelease(accept);
  }

  /** Without commits since the last release nothing is printed. */
  lemma NoCommitsIsSilent(tagOutput: string, cherryOf: string -> string, messageOf: Hash -> string,
                          accept: Version -> bool)
    requires Candidates(Split(tagOutput, '\n'), accept) != []
    requires CherryHashes(cherryOf(LastRef(Greatest(Candidates(Split(tagOutput, '\n'), accept))))) == []
    ensures Outcome(tagOutput, cherryOf, messageOf, accept) == Silent
  {
  }

  /**
   * A printed tag names a version above every accepted version among the
   * tags, and reading it back gives exactly the bumped last release.
   */
  lemma PrintedIsNewer(tagOutput: string, cherryOf: string -> string, messageOf: Hash -> string,
                       accept: Version -> bool)
    requires Outcome(tagOutput, cherryOf, messageOf, accept).Printed?
    ensures
      var lines := Split(tagOutput, '\n');
      var text := Outcome(tagOutput, cherryOf, messageOf, accept).text;
      && TagVersion(text).Some?
      && forall j, w :: 0 <= j < |lines| && TagVersion(lines[j]) == Some(w) && accept(w) ==>
           Less(w, TagVersion(text).value)
  {
    var lines := Split(tagOutput, '\n');
    var last := Greatest(Candidates(lines, accept));
    var messages := Fetch(CherryHashes(cherryOf(LastRef(last))), messageOf);
    var next := Bumped(last, Classify(Keywords, messages)).value;
    assert Outcome(tagOutput, cherryOf, messageOf, accept).text == TagLine(next);
    LastVersionIsGreatestTag(lines, accept);
    forall j, w | 0 <= j < |lines| && TagVersion(lines[j]) == Some(w) && accept(w)
      ensures Less(w, next)
    {
      assert !Less(last, w);
      assert Less(last, next);
      LessTotal(w, w, last);
      LessTotal(w, last, next);
    }
  }

  /** The three bumps of 1.2.3 are 1.2.4, 1.3.0 and 2.0.0. */
  lemma BumpExamples()
    ensures Bumped(Version(1, 2, 3), Patch) == Some(Version(1, 2, 4))
    ensures Bumped(Version(1, 2, 3), Minor) == Some(Version(1, 3, 0))
    ensures Bumped(Version(1, 2, 3), Major) == Some(Version(2, 0, 0))
    ensures Bumped(Version(1, 2, 3), Nothing) == None
  {
  }

  /**
   * From 1.0.0, a "feat" commit followed by a "fix" commit releases 1.0.1,
   * not 1.1.0: the later PATCH overwrites the earlier MINOR.
   */
  lemma FeatThenFixIsPatch(a: string, b: string)
    requires '\n' !in a && (a == [] || !IsLetter(a[0]))
    requires '\n' !in b && (b == [] || !IsLetter(b[0]))
    ensures Bumped(Version(1, 0, 0), Classify(Keywords, ["feat" + a, "fix" + b])) == Some(Version(1, 0, 1))
  {
    NotMaximum(a, b);
  }
}
