/**
 * getBump: classifies a list of commit messages into a single bump level.
 *
 * Each message is split into its subject (first line) and its note (the other
 * lines joined with single spaces). The subject's first run of ASCII letters
 * is compared for equality with the MAJOR, MINOR and PATCH keyword tables, in
 * that order, and the note is searched for the breaking-change keywords. Each
 * hit ASSIGNS the level; nothing takes a maximum. So, within a message, the
 * last check that hits decides, and across messages the last message with
 * any hit decides.
 */
module Bump {
  import opened Wrappers
  import opened Text
  import opened Patterns

  /** The bump levels, the constants NOTHING, PATCH, MINOR and MAJOR. */
  datatype Level = Nothing | Patch | Minor | Major

  /** The four keyword tables. */
  datatype Tables = Tables(major: seq<string>, minor: seq<string>, patch: seq<string>, note: seq<string>)

  /** The tables deinde is built with; no subject keyword means MAJOR. */
  const Keywords := Tables([], ["feat"], ["fix"], ["BREAKING CHANGE", "BREAKING CHANGES"])

  /** The first line of a message: a prefix of it that holds no line break. */
  function Subject(message: string): (s: string)
    ensures '\n' !in s && s <= message
  {
    Split(message, '\n')[0]
  }

  /** The remaining lines of a message, joined with single spaces: one line without breaks. */
  function Note(message: string): (n: string)
    ensures '\n' !in n
  {
    var lines := Split(message, '\n');
    JoinAvoids(lines[1..], " ", '\n');
    Join(lines[1..], " ")
  }

  /** Of a subject line, a break and a body, the subject is that line and the note is the body with breaks read as spaces. */
  lemma NoteOf(subject: string, body: string)
    requires '\n' !in subject
    ensures Subject(subject + "\n" + body) == subject
    ensures Note(subject + "\n" + body) == Replace(body, '\n', ' ')
  {
    var m := subject + "\n" + body;
    SplitAround(subject, body, '\n');
    SplitNoSeparator(subject, '\n');
    assert Split(m, '\n') == [subject] + Split(body, '\n');
    assert Split(m, '\n')[1..] == Split(body, '\n');
    JoinSplit(body, '\n', ' ');
  }

  /** Some note keyword occurs in the note. */
  predicate NoteHit(keywords: seq<string>, note: string)
  {
    exists k :: 0 <= k < |keywords| && Contains(note, keywords[k])
  }

  /**
   * The level the three subject checks assign to a token, if any: they run
   * MAJOR, MINOR, PATCH and each hit overwrites, so PATCH wins over MINOR and
   * MINOR over MAJOR.
   */
  function SubjectLevel(t: Tables, token: string): (r: Option<Level>)
    ensures token in t.patch ==> r == Some(Patch)
    ensures token !in t.patch && token in t.minor ==> r == Some(Minor)
    ensures token !in t.patch + t.minor && token in t.major ==> r == Some(Major)
    ensures r.None? <==> token !in t.patch + t.minor + t.major
  {
    if token in t.patch then Some(Patch)
    else if token in t.minor then Some(Minor)
    else if token in t.major then Some(Major)
    else None
  }

  /**
   * The level one message assigns, if any: the note check runs last, so a
   * note hit gives MAJOR whatever the subject; otherwise the subject decides.
   */
  function Verdict(t: Tables, message: string): (r: Option<Level>)
    ensures NoteHit(t.note, Note(message)) ==> r == Some(Major)
    ensures !NoteHit(t.note, Note(message)) ==> r == SubjectLevel(t, FindLetters(Subject(message)))
    ensures r.None? <==>
      && !NoteHit(t.note, Note(message))
      && FindLetters(Subject(message)) !in t.patch + t.minor + t.major
    ensures r != Some(Nothing)
  {
    if NoteHit(t.note, Note(message)) then Some(Major)
    else SubjectLevel(t, FindLetters(Subject(message)))
  }

  /** The level after the messages are processed in order, starting from NOTHING. */
  function Classify(t: Tables, messages: seq<string>): Level
  {
    if messages == [] then Nothing
    else match Verdict(t, messages[|messages| - 1])
      case Some(l) => l
      case None => Classify(t, messages[..|messages| - 1])
  }

  /** One keyword loop over the subject tables: the token equals some keyword. */
  method Listed(token: string, keywords: seq<string>) returns (found: bool)
    ensures found <==> token in keywords
  {
    found := false;
    var k := 0;
    while k < |keywords|
      invariant 0 <= k <= |keywords|
      invariant token !in keywords[..k]
    {
      if token == keywords[k] {
        found := true;
        break;
      }
      k := k + 1;
    }
    assert keywords[..|keywords|] == keywords;
  }

  /** The keyword loop over the note table: some keyword is a substring of the note. */
  method AnyContained(note: string, keywords: seq<string>) returns (found: bool)
    ensures found <==> NoteHit(keywords, note)
  {
    found := false;
    var k := 0;
    while k < |keywords|
      invariant 0 <= k <= |keywords|
      invariant forall j :: 0 <= j < k ==> !Contains(note, keywords[j])
    {
      if Contains(note, keywords[k]) {
        found := true;
        break;
      }
      k := k + 1;
    }
  }

  /** getBump: the level the messages assign, as Classify describes it. */
  method GetBump(t: Tables, messages: seq<string>) returns (action: Level)
    ensures action == Classify(t, messages)
  {
    action := Nothing;
    var i := 0;
    while i < |messages|
      invariant 0 <= i <= |messages|
      invariant action == Classify(t, messages[..i])
    {
      var message := messages[i];
      var lines := Split(message, '\n');
      var subject := lines[0];
      var note := Join(lines[1..], " ");
      var hit := Listed(FindLetters(subject), t.major);
      if hit {
        action := Major;
      }
      hit := Listed(FindLetters(subject), t.minor);
      if hit {
        action := Minor;
      }
      hit := Listed(FindLetters(subject), t.patch);
      if hit {
        action := Patch;
      }
      hit := AnyContained(note, t.note);
      if hit {
        action := Major;
      }
      assert messages[..i + 1][..i] == messages[..i];
      i := i + 1;
    }
    assert messages[..|messages|] == messages;
  }

  // ---------------------------------------------------------------------
  // What the classification means
  // ---------------------------------------------------------------------

  /** With no message that hits anything (in particular with no message), the result is NOTHING. */
  lemma {:induction false} NoHitIsNothing(t: Tables, messages: seq<string>)
    requires forall i :: 0 <= i < |messages| ==> Verdict(t, messages[i]).None?
    ensures Classify(t, messages) == Nothing
  {
    if messages != [] {
      var front := messages[..|messages| - 1];
      assert forall i :: 0 <= i < |front| ==> front[i] == messages[i];
      NoHitIsNothing(t, front);
    }
  }

  /** The last message that hits anything decides the result. */
  lemma {:induction false} LastHitDecides(t: Tables, messages: seq<string>, i: nat)
    requires i < |messages| && Verdict(t, messages[i]).Some?
    requires forall j :: i < j < |messages| ==> Verdict(t, messages[j]).None?
    ensures Classify(t, messages) == Verdict(t, messages[i]).value
  {
    var n := |messages|;
    var front := messages[..n - 1];
    if i == n - 1 {
      AppendMessage(t, front, messages[i]);
      assert front + [messages[i]] == messages;
    } else {
      SkipSilent(t, messages);
      assert forall j :: i < j < |front| ==> front[j] == messages[j];
      LastHitDecides(t, front, i);
    }
  }

  /** A last message that hits nothing is skipped. */
  lemma SkipSilent(t: Tables, messages: seq<string>)
    requires messages != [] && Verdict(t, messages[|messages| - 1]).None?
    ensures Classify(t, messages) == Classify(t, messages[..|messages| - 1])
  {
  }

  /** The result is NOTHING or the level that some message assigns. */
  lemma {:induction false} ClassifyAssigned(t: Tables, messages: seq<string>)
    ensures Classify(t, messages) == Nothing ||
      exists i :: 0 <= i < |messages| && Verdict(t, messages[i]) == Some(Classify(t, messages))
  {
    if messages != [] && Verdict(t, messages[|messages| - 1]).None? {
      var front := messages[..|messages| - 1];
      ClassifyAssigned(t, front);
      if Classify(t, front) != Nothing {
        var i :| 0 <= i < |front| && Verdict(t, front[i]) == Some(Classify(t, front));
        assert front[i] == messages[i];
      }
    }
  }

  /** A message that hits nothing leaves the level as it was; any other one overwrites it. */
  lemma AppendMessage(t: Tables, messages: seq<string>, m: string)
    ensures Verdict(t, m).None? ==> Classify(t, messages + [m]) == Classify(t, messages)
    ensures Verdict(t, m).Some? ==> Classify(t, messages + [m]) == Verdict(t, m).value
  {
    assert (messages + [m])[..|messages|] == messages;
  }

  /**
   * A breaking-change keyword anywhere in the body, also one that a line
   * break splits, makes the message MAJOR whatever its subject says.
   */
  lemma BreakingNoteWins(t: Tables, subject: string, body: string, k: nat)
    requires '\n' !in subject
    requires k < |t.note| && Contains(Replace(body, '\n', ' '), t.note[k])
    ensures Verdict(t, subject + "\n" + body) == Some(Major)
  {
    NoteOf(subject, body);
  }

  /**
   * A two-word note keyword whose words sit on two consecutive body lines
   * still makes the message MAJOR: the line break is joined as a space.
   */
  lemma KeywordAcrossLines(t: Tables, subject: string, before: string, x: string, y: string, after: string, k: nat)
    requires '\n' !in subject && '\n' !in x && '\n' !in y
    requires k < |t.note| && t.note[k] == x + " " + y
    ensures Verdict(t, subject + "\n" + before + (x + "\n" + y) + after) == Some(Major)
  {
    var body := before + (x + "\n" + y) + after;
    JoinedAcrossBreak(before, x, y, after);
    RegroupBreak(subject, before, x, y, after, "\n");
    BreakingNoteWins(t, subject, body, k);
  }

  /** "BREAKING" and "CHANGE" on two body lines still make a commit MAJOR, whatever its subject. */
  lemma BreakingAcrossLines(subject: string, before: string, after: string)
    requires '\n' !in subject
    ensures Verdict(Keywords, subject + "\n" + before + "BREAKING\nCHANGE" + after) == Some(Major)
  {
    var x, y := "BREAKING", "CHANGE";
    assert Keywords.note[0] == x + " " + y;
    assert x + "\n" + y == "BREAKING\nCHANGE";
    KeywordAcrossLines(Keywords, subject, before, x, y, after, 0);
  }

  /** With the built-in tables the subject alone never yields MAJOR: only a note does. */
  lemma SubjectNeverMajor(m: string)
    requires !NoteHit(Keywords.note, Note(m))
    ensures Verdict(Keywords, m) != Some(Major)
  {
  }

  /** A one-line message: its subject is the whole message and its note is empty. */
  lemma OneLine(t: Tables, m: string)
    requires '\n' !in m
    requires forall k :: 0 <= k < |t.note| ==> t.note[k] != ""
    ensures Subject(m) == m && Note(m) == ""
    ensures Verdict(t, m) ==
      var token := FindLetters(m);
      if token in t.patch then Some(Patch)
      else if token in t.minor then Some(Minor)
      else if token in t.major then Some(Major)
      else None
  {
    SplitNoSeparator(m, '\n');
    forall k | 0 <= k < |t.note| ensures !Contains("", t.note[k]) {
      assert forall i: nat :: !OccursAt("", t.note[k], i);
    }
  }

  /** A one-line subject whose first word is "fix", such as "fix: y", is PATCH. */
  lemma FixIsPatch(rest: string)
    requires '\n' !in rest
    requires rest == [] || !IsLetter(rest[0])
    ensures Verdict(Keywords, "fix" + rest) == Some(Patch)
  {
    var m := "fix" + rest;
    OneLine(Keywords, m);
    FindLettersIs(m, 0, 3);
    assert m[0..3] == "fix";
  }

  /** A one-line subject whose first word is "feat", such as "feat: x", is MINOR. */
  lemma FeatIsMinor(rest: string)
    requires '\n' !in rest
    requires rest == [] || !IsLetter(rest[0])
    ensures Verdict(Keywords, "feat" + rest) == Some(Minor)
  {
    var m := "feat" + rest;
    OneLine(Keywords, m);
    FindLettersIs(m, 0, 4);
    assert m[0..4] == "feat";
  }

  /** A subject such as "fixes a bug" matches no keyword: its token is "fixes", and matching is by equality. */
  lemma FixesMatchesNothing(rest: string)
    requires '\n' !in rest
    requires rest == [] || !IsLetter(rest[0])
    ensures Verdict(Keywords, "fixes" + rest) == None
  {
    var m := "fixes" + rest;
    OneLine(Keywords, m);
    FindLettersIs(m, 0, 5);
    assert m[0..5] == "fixes";
  }

  /** A commit "fix…" with a body and no breaking-change note, the usual shape, is PATCH. */
  lemma FixWithBody(rest: string, body: string)
    requires '\n' !in rest
    requires rest == [] || !IsLetter(rest[0])
    requires !NoteHit(Keywords.note, Replace(body, '\n', ' '))
    ensures Verdict(Keywords, "fix" + rest + "\n" + body) == Some(Patch)
  {
    var subject := "fix" + rest;
    NoteOf(subject, body);
    FindLettersIs(subject, 0, 3);
    assert subject[0..3] == "fix";
  }

  /** A commit "feat…" with a body and no breaking-change note is MINOR. */
  lemma FeatWithBody(rest: string, body: string)
    requires '\n' !in rest
    requires rest == [] || !IsLetter(rest[0])
    requires !NoteHit(Keywords.note, Replace(body, '\n', ' '))
    ensures Verdict(Keywords, "feat" + rest + "\n" + body) == Some(Minor)
  {
    var subject := "feat" + rest;
    NoteOf(subject, body);
    FindLettersIs(subject, 0, 4);
    assert subject[0..4] == "feat";
  }

  /**
   * The result is not the maximum over the messages: after "feat: a" (MINOR),
   * "fix: b" (PATCH) brings the level down to PATCH, and in the other order
   * the result is MINOR, so the order of the messages matters.
   */
  lemma NotMaximum(a: string, b: string)
    requires '\n' !in a && (a == [] || !IsLetter(a[0]))
    requires '\n' !in b && (b == [] || !IsLetter(b[0]))
    ensures Classify(Keywords, ["feat" + a, "fix" + b]) == Patch
    ensures Classify(Keywords, ["fix" + b, "feat" + a]) == Minor
  {
    FeatIsMinor(a);
    FixIsPatch(b);
    SecondDecides(Keywords, "feat" + a, "fix" + b);
    SecondDecides(Keywords, "fix" + b, "feat" + a);
  }

  /** Of two messages that both hit, the second decides. */
  lemma SecondDecides(t: Tables, first: string, second: string)
    requires Verdict(t, first).Some? && Verdict(t, second).Some?
    ensures Classify(t, [first, second]) == Verdict(t, second).value
  {
    AppendMessage(t, [first], second);
    assert [first] + [second] == [first, second];
  }
}
