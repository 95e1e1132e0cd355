/**
 * The line processing of getCommits: the output of `git cherry <last> <head>`
 * is split into lines, empty lines are dropped, and every other line yields
 * one commit hash with its leading run of '+' and ' ' characters removed.
 * Lines that git marks with '-' are NOT filtered out; they keep their '-'.
 */
module Commits {
  import opened Text

  /** A commit identifier as git prints it. */
  type Hash = string

  /** The cut set given to strings.TrimLeft. */
  const Marks := "+ "

  /** The hashes the lines yield, in order: at most one per line. */
  function Hashes(lines: seq<string>): (r: seq<Hash>)
    ensures |r| <= |lines|
  {
    if lines == [] then []
    else
      var last := lines[|lines| - 1];
      Hashes(lines[..|lines| - 1]) + if last == "" then [] else [TrimLeft(last, Marks)]
  }

  /** The hashes in a whole cherry output: none holds a line break. */
  function CherryHashes(output: string): (r: seq<Hash>)
    ensures forall k :: 0 <= k < |r| ==> '\n' !in r[k]
  {
    var lines := Split(output, '\n');
    HashesAvoid(lines, '\n');
    Hashes(lines)
  }

  /** getCommits, after the git call: the hashes of the cherry output. */
  method GetCommits(output: string) returns (commits: seq<Hash>)
    ensures commits == CherryHashes(output)
  {
    var lines := Split(output, '\n');
    commits := HashLines(lines);
  }

  /** The loop of getCommits over the lines: skip empty ones, trim the others. */
  method HashLines(lines: seq<string>) returns (commits: seq<Hash>)
    ensures commits == Hashes(lines)
  {
    commits := [];
    var i := 0;
    while i < |lines|
      invariant 0 <= i <= |lines|
      invariant commits == Hashes(lines[..i])
    {
      var h := lines[i];
      if h != "" {
        var hash := TrimLeft(h, Marks);
        commits := commits + [hash];
      }
      assert lines[..i + 1][..i] == lines[..i];
      i := i + 1;
    }
    assert lines[..|lines|] == lines;
  }

  // ---------------------------------------------------------------------
  // What the parse means
  // ---------------------------------------------------------------------

  /** Lines are processed independently and in order. */
  lemma {:induction false} HashesAppend(a: seq<string>, b: seq<string>)
    ensures Hashes(a + b) == Hashes(a) + Hashes(b)
    decreases |b|
  {
    if b == [] {
      assert a + b == a;
    } else {
      HashesAppend(a, b[..|b| - 1]);
      DropLastOfAppend(a, b);
    }
  }

  /** A character that no line holds is in no hash. */
  lemma {:induction false} HashesAvoid(lines: seq<string>, c: char)
    requires forall k :: 0 <= k < |lines| ==> c !in lines[k]
    ensures forall k :: 0 <= k < |Hashes(lines)| ==> c !in Hashes(lines)[k]
  {
    if lines != [] {
      var front := lines[..|lines| - 1];
      assert forall k :: 0 <= k < |front| ==> front[k] == lines[k];
      HashesAvoid(front, c);
    }
  }

  /** A single line yields nothing when it is empty and its trimmed self otherwise. */
  lemma CherryOneLine(line: string)
    requires '\n' !in line
    ensures CherryHashes(line) == if line == "" then [] else [TrimLeft(line, Marks)]
  {
    SplitNoSeparator(line, '\n');
    assert [line][..0] == [];
  }

  /** The hashes of two outputs separated by a line break are those of each, in order. */
  lemma CherryLines(a: string, b: string)
    ensures CherryHashes(a + "\n" + b) == CherryHashes(a) + CherryHashes(b)
  {
    SplitAround(a, b, '\n');
    HashesAppend(Split(a, '\n'), Split(b, '\n'));
  }

  /** The empty segment after a final line break yields nothing. */
  lemma TrailingNewline(a: string)
    ensures CherryHashes(a + "\n") == CherryHashes(a)
  {
    CherryLines(a, "");
    CherryOneLine("");
    assert a + "\n" + "" == a + "\n";
  }

  /** No hash starts with '+' or ' '. */
  lemma {:induction false} HashesUnmarked(lines: seq<string>)
    ensures forall k :: 0 <= k < |Hashes(lines)| ==> Hashes(lines)[k] == "" || Hashes(lines)[k][0] !in Marks
  {
    if lines != [] {
      HashesUnmarked(lines[..|lines| - 1]);
    }
  }

  /**
   * As many hashes as non-empty lines, and each non-empty line yields the
   * hash at the position given by the non-empty lines before it.
   */
  lemma {:induction false} HashesCount(lines: seq<string>)
    ensures |Hashes(lines)| == |NonEmpty(lines)|
    ensures forall k :: 0 <= k < |Hashes(lines)| ==> Hashes(lines)[k] == TrimLeft(NonEmpty(lines)[k], Marks)
  {
    if lines != [] {
      HashesCount(lines[..|lines| - 1]);
    }
  }

  /** The non-empty lines, in order: each is a non-empty line, and every non-empty line is among them. */
  function NonEmpty(lines: seq<string>): (r: seq<string>)
    ensures forall k :: 0 <= k < |r| ==> r[k] != "" && r[k] in lines
    ensures forall l :: l in lines && l != "" ==> l in r
  {
    if lines == [] then []
    else
      var last := lines[|lines| - 1];
      var front := lines[..|lines| - 1];
      assert lines == front + [last];
      NonEmpty(front) + if last == "" then [] else [last]
  }

  /** The non-empty lines of two runs of lines are those of each, in order. */
  lemma {:induction false} NonEmptyAppend(a: seq<string>, b: seq<string>)
    ensures NonEmpty(a + b) == NonEmpty(a) + NonEmpty(b)
    decreases |b|
  {
    if b == [] {
      assert a + b == a;
    } else {
      NonEmptyAppend(a, b[..|b| - 1]);
      DropLastOfAppend(a, b);
    }
  }

  /** One line is kept exactly when it is not empty. */
  lemma NonEmptyOne(line: string)
    ensures NonEmpty([line]) == if line == "" then [] else [line]
  {
    assert [line][..0] == [];
  }

  /** A line git marks with '-' is kept whole. */
  lemma MinusLineKept(line: string)
    requires line != "" && line[0] == '-'
    ensures TrimLeft(line, Marks) == line
  {
    assert line[0] !in Marks;
  }

  /** A line of marks alone yields an empty hash. */
  lemma MarksOnly()
    ensures CherryHashes("+ ") == [""]
  {
    CherryOneLine("+ ");
    assert TrimLeft("+ ", Marks) == TrimLeft("", Marks);
  }
}
