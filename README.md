# deinde, modelled in Dafny

deinde is a small command-line tool. It works out the next semantic version
of a git repository from its commit messages:

1. It finds the last release. This is the greatest `major.minor.patch` found
   in the tags merged into the release branch.
2. It lists the commits since that release with `git cherry`.
3. It classifies each commit message by keyword. A `fix` subject means PATCH,
   a `feat` subject means MINOR, and `BREAKING CHANGE` in the body means MAJOR.
4. It combines those classifications into one bump level.
5. It prints the bumped version as `v<major>.<minor>.<patch>`, or nothing when
   no commit asks for a release.

The model covers all of that decision logic in `deinde.go`. The git calls are
replaced by their answers, given as inputs.

Modules, one per file, in dependency order:

- `Wrappers`: `Option`.
- `Text`: the Go `strings` functions the tool uses, with Go's semantics:
  `Split`, `Join`, `Contains`, `TrimLeft`, plus `Replace` as a reference
  definition.
- `Patterns`: the two fixed regular expressions, hand-coded as scanners
  over ASCII classes. Each scanner returns the leftmost match that is
  longest at its start. Go's regexp is leftmost-first, but for these
  patterns the two agree. The first two digit runs must end where a dot
  follows, which is where their digits end. The last run, and the letter
  run, are greedy and so also take every character of the class.
  - `[a-zA-Z]+` is `FindLetters`.
  - `\d+\.\d+\.\d+` is `MatchAt`, `FindFrom`, `FindTriple` and
    `FindTripleString`.
- `Semver`: release versions as natural triples. It holds the precedence
  order of section 11 of Semantic Versioning 2.0.0, the three bumps of
  sections 6 to 8, the decimal rendering, and the parse of a dotted triple.
- `Bump`: `getBump`, as the method `GetBump` against the specification
  function `Classify`.
- `Commits`: the line processing of `getCommits`, as the method `GetCommits`
  against `CherryHashes`.
- `Tags`: the tag processing of `getLastVersion`, as the method
  `GetLastVersion` against `Candidates` and `Greatest`.
- `Deinde`: the bump switch of `main` (`Release`), the fetch loop of
  `getMessages` (`GetMessages`), and the whole run (`Run` against `Outcome`).

### How the inputs stand in for git

- `git tag --merged <branch>`: its output, the string `tagOutput`.
- `git cherry <last> <head>`: a function `cherryOf` from the ref it is asked
  about to its output. The ref is `"v"` followed by the last version, as
  `main` builds it.
- `git show --pretty=format:%B <hash>`: a function `messageOf` from hash to
  the text the command returns. That text is not only the commit message:
  without `-s` git also prints the commit's diff, and `CombinedOutput` adds
  whatever git writes to stderr. So the note that is searched for
  `BREAKING CHANGE` can include patch text. `messageOf` is unconstrained, so
  every such output is covered.
- `semver.NewVersion` can reject a matched triple, for example when a number
  overflows. That verdict is a predicate `accept`, which filters the
  candidates.

### Behaviour worth knowing

- **The bump is not a maximum over the messages.** A later PATCH overrides an
  earlier MINOR, so the order of the commits matters.
  - `getBump` assigns `action` on every hit (`deinde.go:89`, `96`, `103`,
    `110`).
  - So the last message that hits anything decides. Within one message, the
    note check, which runs last, wins.
  - `Bump.NotMaximum` proves this: `["feat: a", "fix: b"]` gives PATCH, and
    the reverse order gives MINOR.
  - `Deinde.FeatThenFixIsPatch` proves, as a consequence, that from 1.0.0
    these commits release 1.0.1, not 1.1.0.
- **Lines that `git cherry` marks with `-` are kept.** Such lines name commits
  that already have an equivalent upstream. The code only trims leading `+`
  and space characters, so a `-` line survives with its mark
  (`Commits.MinusLineKept`).
  - The hash then reaches `git show` as `"- <sha>"`. git is likely to reject
    that argument, and `getMessages` would then return its error
    (`deinde.go:127-128`) and the run would exit with status 1.
  - The model does not see that failure: `messageOf` answers for every hash
    (see "## Left out").
- **No release tag.** With no version tag, the code indexes an empty slice
  (`deinde.go:184`) and panics.
  - The model gives an explicit error in place of that index panic:
    `GetLastVersion` returns `None`, and `Run` ends with
    `Exit.NoReleaseFound`.
- **The bump mutates the last version.** `getLastVersion` returns a
  `*semver.Version` (`deinde.go:158`), so `version := lastVersion`
  (`deinde.go:57`) copies the pointer, and `BumpPatch`, `BumpMinor` and
  `BumpMajor` (`deinde.go:61-65`) change the object `lastVersion` points to.
  The object is last read through `lastVersion` at `deinde.go:39`, when the
  cherry ref is built; line 57 only copies the pointer, before the bump. So
  the model's update of a value gives the same output.

## Model

| member | source | states |
|---|---|---|
| Text.Join | deinde.go:85 | strings.Join: the first part is a prefix of the result; SplitJoin and JoinSplit relate it to Split |
| Text.Split | deinde.go:83 | strings.Split on one character: at least one piece, no piece contains the separator, and joining the pieces with it gives the input back |
| Text.SplitAround | deinde.go:146 | splitting a + sep + b is splitting a, then splitting b |
| Text.SplitJoin | deinde.go:83 | splitting pieces joined by the separator gives the pieces back |
| Text.JoinSplit | deinde.go:83-85 | joining the lines of a message with a space is replacing each line break by a space |
| Text.JoinedAcrossBreak | deinde.go:83-85 | two words on consecutive lines appear, joined by one space, in the lines joined with spaces |
| Text.Contains | deinde.go:109 | strings.Contains: true exactly when the keyword occurs at some position |
| Text.TrimLeft | deinde.go:150 | TrimLeft with a cut set: the result is a suffix, everything removed is in the set, and the result does not start with a character of the set |
| Patterns.FindLetters | deinde.go:74 | the token is a first maximal run of ASCII letters: no letter before it, no letter right after it, and empty only when there is no letter |
| Patterns.FindLettersIs | deinde.go:88 | the token is the only span that meets that description |
| Patterns.MatchAt | deinde.go:168-171 | a match at a position has three non-empty digit runs with dots between them, and is not followed by a digit |
| Patterns.MatchAtLongest | deinde.go:168-171 | no match starting at a position is missed, and the match found is the longest |
| Patterns.FindFrom | deinde.go:171 | the first position at or after p where a match starts; none starts before it |
| Patterns.FindTriple | deinde.go:171 | the span found is a match at its start, and no match starts before it (none anywhere when there is no span) |
| Patterns.FindTripleLeftmost | deinde.go:171 | FindString of `\d+\.\d+\.\d+`: none means no match anywhere; otherwise it is the leftmost match and the longest at its start |
| Patterns.FindTripleString | deinde.go:171-173 | FindString: the text of the leftmost match, and empty exactly when there is no match |
| Patterns.NoDigitNoMatch | deinde.go:171-173 | a line without digits has no match |
| Semver.Less | deinde.go:182 | the precedence Sort orders by: major, then minor, then patch, numerically; LessTotal proves it a strict total order |
| Semver.LessTotal | deinde.go:182 | version precedence is irreflexive, transitive and total |
| Semver.BumpPatch | deinde.go:61 | the patch bump is the next version, with no version in between |
| Semver.BumpMinor | deinde.go:63 | the minor bump is the least greater version with another major.minor |
| Semver.BumpMajor | deinde.go:65 | the major bump is the least greater version with another major |
| Semver.Decimal | deinde.go:70 | the `%d` of a version number: a non-empty run of digits with no leading zero |
| Semver.DecimalUnique | deinde.go:70 | the decimal rendering is the only digit run without a leading zero that reads as its number |
| Semver.ValueOfDecimal | deinde.go:70 | the decimal rendering of a number reads back as that number |
| Semver.VersionString | deinde.go:70 | the `%s` form of a version, at least five characters, all digits or dots; ParseVersionString reads it back, and VersionStringUnique shows it is the canonical `%d.%d.%d` text |
| Semver.VersionStringUnique | deinde.go:70 | three digit runs without leading zeros that read as a version's numbers, joined by dots, are that version's String form |
| Semver.MatchTextParses | deinde.go:171-174 | the text of any match parses, as the numbers of its three digit runs |
| Semver.ParseTriple | deinde.go:174 | NewVersion on a found tag: a parse succeeds only on a whole-string match of the pattern |
| Semver.ParseTripleDefined | deinde.go:174 | a found tag parses exactly when the pattern matches it in full |
| Semver.DottedMatch | deinde.go:168-171 | three digit runs joined by dots, inside any text and followed by a non-digit or nothing, are matched exactly, dots and end included |
| Semver.RenderedMatch | deinde.go:70 | a rendered version inside any text, followed by a non-digit, is matched exactly, with its dots and end in place |
| Semver.ParseDotted | deinde.go:174 | parsing three digit runs joined by dots reads each run's value |
| Semver.ParseVersionString | deinde.go:70 | parsing a rendered version gives the version back |
| Bump.Subject | deinde.go:84 | the subject is a prefix of the message with no line break in it |
| Bump.Note | deinde.go:85 | the note holds no line break |
| Bump.NoteOf | deinde.go:83-85 | for a first line, a break and a body, the subject is that line and the note is the body with each break read as a space |
| Bump.SubjectLevel | deinde.go:87-106 | the three subject loops: a PATCH keyword gives PATCH, a MINOR keyword (and no PATCH one) gives MINOR, a MAJOR keyword alone gives MAJOR, and no level exactly when the token is in no table |
| Bump.Verdict | deinde.go:87-113 | the level one message assigns: a note hit gives MAJOR whatever the subject; otherwise the subject token's level under SubjectLevel; no level exactly when nothing hits, never NOTHING |
| Bump.Classify | deinde.go:80-116 | the level of a message list, processed in order from NOTHING; it has no contract of its own, and ClassifyAssigned, NoHitIsNothing, LastHitDecides and AppendMessage state what it means |
| Bump.ClassifyAssigned | deinde.go:80-116 | the result is NOTHING or the level some message assigns |
| Bump.Listed | deinde.go:87-106 | one subject keyword loop: a hit exactly when the token equals a keyword |
| Bump.AnyContained | deinde.go:108-113 | the note keyword loop: a hit exactly when some keyword occurs in the note |
| Bump.GetBump | deinde.go:73-117 | the loop with its four checks in source order computes Classify of the messages |
| Bump.NoHitIsNothing | deinde.go:80-82 | with no message that hits anything, and so with no message at all, the result is NOTHING |
| Bump.LastHitDecides | deinde.go:82-114 | the last message that hits anything decides the result |
| Bump.SkipSilent | deinde.go:82-114 | a last message that hits nothing leaves the level of the messages before it |
| Bump.AppendMessage | deinde.go:82-114 | a message that hits nothing leaves the level unchanged; any other overwrites it with its own level |
| Bump.BreakingNoteWins | deinde.go:83-113 | a note keyword anywhere in the body, with line breaks read as spaces, makes the message MAJOR whatever its subject says |
| Bump.KeywordAcrossLines | deinde.go:83-113 | a two-word note keyword whose words sit on consecutive body lines still makes the message MAJOR |
| Bump.BreakingAcrossLines | deinde.go:25 | "BREAKING" and "CHANGE" on two body lines make the message MAJOR |
| Bump.SubjectNeverMajor | deinde.go:24 | with the tables as shipped, a subject alone never gives MAJOR |
| Bump.OneLine | deinde.go:83-106 | a one-line message has itself as subject and an empty note, so only the subject tables apply |
| Bump.FixIsPatch | deinde.go:22 | a one-line message of "fix" followed by nothing or a non-letter (such as "fix: y") is PATCH |
| Bump.FeatIsMinor | deinde.go:23 | a one-line message of "feat" followed by nothing or a non-letter (such as "feat: x") is MINOR |
| Bump.FixWithBody | deinde.go:83-106 | a "fix" subject with any body that holds no breaking-change keyword is PATCH |
| Bump.FeatWithBody | deinde.go:83-106 | a "feat" subject with any body that holds no breaking-change keyword is MINOR |
| Bump.FixesMatchesNothing | deinde.go:101-106 | a one-line message starting with the word "fixes" hits no keyword, because matching is by equality |
| Bump.SecondDecides | deinde.go:82-114 | of two messages that both hit, the second decides |
| Bump.NotMaximum | deinde.go:89-110 | for any such feat and fix messages, feat then fix gives PATCH and fix then feat gives MINOR: not a maximum, and the order matters |
| Commits.Hashes | deinde.go:148-153 | the hashes the lines yield, at most one per line |
| Commits.CherryHashes | deinde.go:146-153 | the hashes of a cherry output; none holds a line break |
| Commits.GetCommits | deinde.go:146-153 | the loop yields the hashes of the cherry output as CherryHashes defines them |
| Commits.HashLines | deinde.go:148-153 | the loop over the lines skips empty ones and trims the others, yielding Hashes of the lines |
| Commits.HashesAppend | deinde.go:148-153 | lines are processed independently and in order |
| Commits.CherryOneLine | deinde.go:149-150 | one line yields nothing when it is empty and its trimmed self otherwise |
| Commits.CherryLines | deinde.go:146-153 | the hashes of two outputs joined by a line break are those of each, in order |
| Commits.TrailingNewline | deinde.go:149 | the empty segment after a final line break yields nothing |
| Commits.HashesUnmarked | deinde.go:150 | no hash starts with '+' or a space |
| Commits.HashesCount | deinde.go:148-153 | one hash per non-empty line, in input order, each the trimmed line |
| Commits.NonEmpty | deinde.go:149 | every line it keeps is a non-empty input line, and every non-empty input line is kept |
| Commits.NonEmptyAppend | deinde.go:148-149 | the non-empty lines of two runs of lines are those of each, in order |
| Commits.NonEmptyOne | deinde.go:149 | one line is kept exactly when it is not empty |
| Commits.MinusLineKept | deinde.go:150 | a line git marks with '-' is kept whole |
| Commits.MarksOnly | deinde.go:150 | a line of "+ " alone yields an empty hash |
| Tags.TagVersion | deinde.go:171-174 | a line names a version exactly when it holds a match, wherever the match lies, and the version is the three numbers of its leftmost match |
| Tags.Collect | deinde.go:170-180 | the versions a per-line reader finds and the parser accepts, in line order: at most one per line, each accepted |
| Tags.Candidates | deinde.go:170-180 | the versions collected from the tag lines: at most one per line, each accepted by the parser |
| Tags.Greatest | deinde.go:182-184 | the last version after sorting: a member that no member exceeds |
| Tags.GetLastVersion | deinde.go:160-184 | the loop collects the candidates; the result is none for no candidate, otherwise the greatest |
| Tags.CollectTags | deinde.go:170-180 | the loop over the tag lines, with the per-line read as a parameter, collects exactly what Collect does, in line order |
| Tags.CollectMembers | deinde.go:170-180 | a version is collected exactly when some line yields it and it is accepted |
| Tags.CandidatesMembers | deinde.go:170-180 | a version is a candidate exactly when some tag line names it and the parser accepts it |
| Tags.CollectAppend | deinde.go:170-180 | lines are read independently and in order |
| Tags.CollectOne | deinde.go:171-178 | one line adds its version, if it has one and it is accepted |
| Tags.GreatestUnique | deinde.go:182-184 | only one candidate is exceeded by none, so the choice does not depend on the sort |
| Tags.LastVersionIsGreatestTag | deinde.go:170-184 | the chosen version is named by a tag line, and no tag line names a greater accepted version |
| Tags.TagOfRendered | deinde.go:171-174 | a rendered version with no digit before it and a non-digit after it is found and parsed back |
| Tags.NoDigitNoTag | deinde.go:173 | a line without digits is skipped |
| Tags.NoTagsNoRelease | deinde.go:160-184 | with an empty tag output there is no candidate |
| Tags.PreReleaseIgnored | deinde.go:171 | "v1.2.3-rc1" names 1.2.3: the suffix is ignored |
| Tags.FourthNumberIgnored | deinde.go:171 | "1.2.3.4" names 1.2.3: the match stops after three numbers |
| Tags.VTagReads | deinde.go:171-174 | a tag "v" followed by a rendered version names that version |
| Tags.ResolverExample | deinde.go:170-184 | tags v<a>, v<b>, a line without digits and v<c>, with b above a and c, give the candidates a, b, c in order and resolve to b |
| Deinde.Bumped | deinde.go:59-68 | NOTHING gives no version; PATCH, MINOR and MAJOR give the patch, minor and major bump of the last version, each above it |
| Deinde.Release | deinde.go:57-70 | the switch bumps the last version; no output exactly for NOTHING, otherwise the tag line of the bumped version |
| Deinde.TagLine | deinde.go:70 | the printed line is the cherry ref of the version followed by a line break, and read back through the tag pattern it names the version it renders |
| Deinde.Fetch | deinde.go:119-133 | one message per commit, in commit order |
| Deinde.GetMessages | deinde.go:120-132 | the fetch loop yields the messages of the commits in order |
| Deinde.LastRef | deinde.go:39 | the ref given to git cherry is "v" followed by the String form of the last version, and is a tag naming it |
| Deinde.Outcome | deinde.go:33-70 | a run ends with the no-release error exactly when no tag line names an accepted version |
| Deinde.Run | deinde.go:33-70 | the run composes the stages as Outcome describes it |
| Deinde.NoTagsIsNoRelease | deinde.go:160-184 | with no tags, the run ends with the no-release error |
| Deinde.NoCommitsIsSilent | deinde.go:39-68 | with no commits since the last release, the run prints nothing |
| Deinde.PrintedIsNewer | deinde.go:33-70 | a printed tag names a version above every accepted version among the tags |
| Deinde.BumpExamples | deinde.go:59-68 | 1.2.3 bumps to 1.2.4, 1.3.0 and 2.0.0, and NOTHING gives no version |
| Deinde.FeatThenFixIsPatch | deinde.go:57-70 | from 1.0.0, feat then fix releases 1.0.1, not 1.1.0 |

## Left out

- The `exec.Command` calls to git, and their error paths (`deinde.go:123`,
  `138-142`, `159-164`). Process I/O is replaced by its textual output. The
  failure of a git call is not modelled.
- The error return of `getMessages` (`deinde.go:127-128`). A message fetch
  never fails in the model, although a kept `-` line (see above) would likely
  make `git show` fail and the run exit with status 1.
- Flag parsing, `fmt.Printf` and `os.Exit`. `Run` returns an `Exit` value in
  their place:
  - `Silent` for the exit with status 0;
  - `Printed(text)` for the printed line;
  - `NoReleaseFound` for the case where the code panics.
- The integer constants NOTHING to MAJOR (`deinde.go:14-19`) are the four
  constructors of `Bump.Level`. `getBump` returns the level and an error that
  is always nil; the model returns the level alone, and `main`'s switch on the
  integer is a match on the level.
- The regex compile errors. `getBump` checks the error of its
  `regexp.Compile` (`deinde.go:74-78`) and returns it, and `main` handles it
  (`deinde.go:51-55`). `getLastVersion` ignores the error of its compile
  (`deinde.go:168`). Both patterns are constants that compile, so neither
  error path is modelled.
- The internals of the go-semver library:
  - `NewVersion` is the model's `ParseTriple`, plus the `accept` predicate
    for its other rejections.
  - `Sort` followed by taking the last element is `Greatest`. The in-place
    sort of the slice is not modelled, only which element ends up last.
- Semver.BumpPatch, Semver.BumpMinor, Semver.BumpMajor: versions are
  unbounded naturals. The library's `int64` fields and their overflow at the
  bump are not modelled.
- The regexp package reads UTF-8. The model works on characters and treats
  only ASCII letters and digits as members of the classes, as the regexp
  package does.
