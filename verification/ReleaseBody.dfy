/**
 What the section `renderRelease` of `changelog.ts` writes shows: the summary and the notes, the
 commits under their titles, and in each line the commit itself.
 */
module ReleaseBody {
  import opened Prelude
  import opened Text
  import opened ReleaseNotes

  // ---------------------------------------------------------------------------
  // Every group under its heading, in order
  // ---------------------------------------------------------------------------

  const TITLES: seq<string> := [
    "Breaking changes", "Features", "Fixes", "Performance", "Refactors", "Documentation", "Other changes"]

  /** Which of the titles a commit is written under. */
  function PlaceOf(commit: Commit): (place: nat)
    ensures place < |TITLES|
  {
    if commit.breaking || commit.kind == Some("breaking") then 0
    else if commit.kind == Some("feat") then 1
    else if commit.kind == Some("fix") then 2
    else if commit.kind == Some("perf") then 3
    else if commit.kind == Some("refactor") then 4
    else if commit.kind == Some("docs") then 5
    else 6
  }

  lemma GroupsAreTitled()
    ensures |GROUPS| == |TITLES| && forall k | 0 <= k < |TITLES| :: GROUPS[k].heading == TITLES[k]
  {
  }

  lemma PlaceIsGroup(commit: Commit)
    ensures GROUPS[PlaceOf(commit)].key == GroupOf(commit)
  {
    assert GROUPS[0].key == BREAKING && GROUPS[1].key == "feat" && GROUPS[2].key == "fix" && GROUPS[3].key == "perf";
    assert GROUPS[4].key == "refactor" && GROUPS[5].key == "docs" && GROUPS[6].key == OTHER;
  }

  /** `at` are the ordinary commits that belong under title `place`, in the order of the range. */
  ghost predicate AreUnder(commits: seq<Commit>, place: nat, at: seq<nat>) {
    && Rising(at, |commits|)
    && forall i: nat | i < |commits| :: i in at <==> Ordinary(commits[i]) && PlaceOf(commits[i]) == place
  }

  lemma PlaceIffGroup(commit: Commit, place: nat)
    requires place < |TITLES|
    ensures GroupOf(commit) == GROUPS[place].key <==> PlaceOf(commit) == place
  {
    PlaceIsGroup(commit);
    GroupKeysAreDistinct();
    if PlaceOf(commit) < place || place < PlaceOf(commit) {
      assert GROUPS[place].key != GROUPS[PlaceOf(commit)].key;
    }
  }

  /** These are the entries of the commits at `at`. */
  ghost predicate AreEntriesAt(entries: seq<Entry>, commits: seq<Commit>, at: seq<nat>) {
    && |entries| == |at|
    && forall k | 0 <= k < |at| :: at[k] < |commits| && EntryOf(commits[at[k]]) == Some(entries[k])
  }

  function AndFirst(later: seq<nat>, first: bool): seq<nat> {
    if first then [0] + Shifted(later) else Shifted(later)
  }

  lemma UnderCons(commits: seq<Commit>, place: nat, later: seq<nat>)
    requires commits != [] && AreUnder(commits[1..], place, later)
    ensures AreUnder(commits, place, AndFirst(later, Ordinary(commits[0]) && PlaceOf(commits[0]) == place))
  {
    RisingShifts(later, |commits| - 1);
    forall i: nat | 0 < i < |commits|
      ensures i - 1 in later <==> Ordinary(commits[i]) && PlaceOf(commits[i]) == place
    {
      assert commits[1..][i - 1] == commits[i];
    }
  }

  lemma EntriesCons(entries: seq<Entry>, commits: seq<Commit>, later: seq<nat>)
    requires commits != [] && AreEntriesAt(entries, commits[1..], later)
    ensures AreEntriesAt(entries, commits, Shifted(later))
    ensures Ordinary(commits[0]) ==>
              AreEntriesAt([EntryOf(commits[0]).value] + entries, commits, [0] + Shifted(later))
  {
    assert forall k | 0 <= k < |later| :: commits[1..][later[k]] == commits[Shifted(later)[k]];
  }

  lemma {:induction false} InGroupAt(commits: seq<Commit>, place: nat) returns (at: seq<nat>)
    requires place < |TITLES|
    ensures AreUnder(commits, place, at)
    ensures AreEntriesAt(InGroup(Entries(commits), GROUPS[place].key), commits, at)
  {
    at := [];
    if commits != [] {
      var later := InGroupAt(commits[1..], place);
      var key := GROUPS[place].key;
      PlaceIffGroup(commits[0], place);
      UnderCons(commits, place, later);
      EntriesCons(InGroup(Entries(commits[1..]), key), commits, later);
      InGroupCons(commits, key);
      at := AndFirst(later, Ordinary(commits[0]) && PlaceOf(commits[0]) == place);
    }
  }

  lemma InGroupCons(commits: seq<Commit>, key: string)
    requires commits != []
    ensures InGroup(Entries(commits), key) ==
            if Ordinary(commits[0]) && GroupOf(commits[0]) == key
            then [EntryOf(commits[0]).value] + InGroup(Entries(commits[1..]), key)
            else InGroup(Entries(commits[1..]), key)
  {
    var rest := Entries(commits[1..]);
    if Ordinary(commits[0]) {
      var e := EntryOf(commits[0]).value;
      assert Entries(commits) == [e] + rest;
      assert ([e] + rest)[1..] == rest;
    } else {
      assert Entries(commits) == [] + rest == rest;
      assert [] + InGroup(rest, key) == InGroup(rest, key);
    }
  }

  /** The title, an empty line, a line for each commit and an empty line; nothing where there is no commit. */
  ghost predicate IsWrittenAt(lines: seq<string>, start: nat, input: Input, place: nat, at: seq<nat>)
    requires place < |TITLES|
  {
    && start + Height(at) <= |lines|
    && (at != [] ==>
          && lines[start] == "### " + TITLES[place] && lines[start + 1] == "" && lines[start + |at| + 2] == ""
          && forall k | 0 <= k < |at| ::
               at[k] < |input.commits| && IsLineOf(lines[start + 2 + k], input.commits[at[k]], input.repoUrl))
  }

  function Height(at: seq<nat>): nat {
    if at == [] then 0 else |at| + 3
  }

  ghost predicate IsLineOf(line: string, commit: Commit, repoUrl: string) {
    Ordinary(commit) && line == RenderEntry(EntryOf(commit).value, repoUrl)
  }

  function Top(input: Input): seq<string> {
    [""] + SummaryLines(FirstSummary(input.commits), input.capital) + NotesLines(FirstNotes(input.commits))
  }

  function UpTo(input: Input, place: nat): seq<string>
    requires place <= |GROUPS|
  {
    Top(input) + AllGroupLines(Entries(input.commits), GROUPS[..place], input.repoUrl)
  }

  lemma GroupShows(before: seq<string>, input: Input, mine: seq<Entry>, place: nat, at: seq<nat>)
    requires place < |TITLES| && mine != [] && AreEntriesAt(mine, input.commits, at)
    ensures IsWrittenAt(
              before + (["### " + TITLES[place], ""] + Rendered(mine, input.repoUrl) + [""]), |before|, input, place, at)
  {
    var group := ["### " + TITLES[place], ""] + Rendered(mine, input.repoUrl) + [""];
    forall k | 0 <= k < |at|
      ensures IsLineOf(group[2 + k], input.commits[at[k]], input.repoUrl)
    {
      assert group[2 + k] == RenderEntry(mine[k], input.repoUrl);
    }
    assert forall k | 0 <= k < |group| :: (before + group)[|before| + k] == group[k];
  }

  lemma OneGroupMore(input: Input, place: nat) returns (at: seq<nat>)
    requires place < |GROUPS|
    ensures AreUnder(input.commits, place, at)
    ensures |UpTo(input, place)| + Height(at) == |UpTo(input, place + 1)| && UpTo(input, place) <= UpTo(input, place + 1)
    ensures IsWrittenAt(UpTo(input, place + 1), |UpTo(input, place)|, input, place, at)
  {
    at := InGroupAt(input.commits, place);
    var entries := Entries(input.commits);
    var mine := InGroup(entries, GROUPS[place].key);
    OneMoreGroup(Top(input), entries, GROUPS, place, input.repoUrl);
    GroupsAreTitled();
    if mine != [] {
      GroupShows(UpTo(input, place), input, mine, place, at);
    }
  }

  lemma StaysWritten(lines: seq<string>, more: seq<string>, start: nat, input: Input, place: nat, at: seq<nat>)
    requires place < |TITLES| && lines <= more && IsWrittenAt(lines, start, input, place, at)
    ensures IsWrittenAt(more, start, input, place, at)
  {
    if at != [] {
      assert forall i | 0 <= i < |lines| :: more[i] == lines[i];
    }
  }

  lemma {:induction false} LaterIsLonger(input: Input, place: nat, later: nat)
    requires place <= later <= |GROUPS|
    ensures UpTo(input, place) <= UpTo(input, later)
    decreases later
  {
    if place < later {
      LaterIsLonger(input, place, later - 1);
      OneMoreGroup(Top(input), Entries(input.commits), GROUPS, later - 1, input.repoUrl);
    }
  }

  /** Nothing to tell: no summary, no notes and no ordinary commit. */
  predicate IsQuiet(input: Input) {
    && FirstSummary(input.commits).GetOr("") == "" && FirstNotes(input.commits).GetOr("") == ""
    && forall i | 0 <= i < |input.commits| :: !Ordinary(input.commits[i])
  }

  lemma {:induction false} NoEntries(commits: seq<Commit>)
    ensures Entries(commits) == [] <==> forall i | 0 <= i < |commits| :: !Ordinary(commits[i])
  {
    if commits != [] {
      NoEntries(commits[1..]);
      assert forall i | 0 < i < |commits| :: commits[i] == commits[1..][i - 1];
    }
  }

  lemma BodyIs(input: Input)
    ensures BodyLines(input) == UpTo(input, |GROUPS|) + if IsQuiet(input) then ["No recorded changes.", ""] else []
  {
    NoEntries(input.commits);
    assert GROUPS[..|GROUPS|] == GROUPS;
    assert BodyLines(input) == UpTo(input, |GROUPS|) +
                               if IsQuiet(input) then ["No recorded changes.", ""] else [];
  }

  /** Where the groups from `place` on start. */
  function StartOf(input: Input, place: nat): nat
    requires place <= |GROUPS|
  {
    |UpTo(input, place)|
  }

  /** The groups stand between what comes first and, for a release with nothing to tell, the lines that say so. */
  lemma GroupsStartAndEnd(input: Input)
    ensures StartOf(input, 0) == |Top(input)|
    ensures StartOf(input, |TITLES|) == |BodyLines(input)| - if IsQuiet(input) then 2 else 0
  {
    GroupsAreTitled();
    BodyIs(input);
  }

  /**
   The body of a section: under each of the seven titles, one after the other with nothing between
   them, the ordinary commits that belong there, in the order of the range, a line each; a title
   without commits is left out.
   */
  lemma GroupsAreWritten(input: Input, place: nat) returns (at: seq<nat>)
    requires place < |TITLES|
    ensures AreUnder(input.commits, place, at)
    ensures IsWrittenAt(BodyLines(input), StartOf(input, place), input, place, at)
    ensures StartOf(input, place + 1) == StartOf(input, place) + Height(at)
  {
    GroupsAreTitled();
    at := OneGroupMore(input, place);
    LaterIsLonger(input, place + 1, |GROUPS|);
    BodyIs(input);
    StaysWritten(UpTo(input, place + 1), BodyLines(input), StartOf(input, place), input, place, at);
  }

  /** The first answer that `pick` finds, if any. */
  ghost predicate IsFirst(commits: seq<Commit>, pick: Commit -> Option<string>, found: Option<string>) {
    if found.None? then forall i | 0 <= i < |commits| :: pick(commits[i]).None?
    else exists i :: 0 <= i < |commits| && pick(commits[i]) == found && forall j | 0 <= j < i :: pick(commits[j]).None?
  }

  /** The summary and the notes are the first the range has. */
  lemma {:induction false} FirstOnes(commits: seq<Commit>)
    ensures IsFirst(commits, (c: Commit) => c.summary, FirstSummary(commits))
    ensures IsFirst(commits, (c: Commit) => c.notes, FirstNotes(commits))
  {
    if commits != [] {
      FirstOnes(commits[1..]);
      FirstCons(commits, (c: Commit) => c.summary, FirstSummary(commits[1..]));
      FirstCons(commits, (c: Commit) => c.notes, FirstNotes(commits[1..]));
    }
  }

  lemma FirstCons(commits: seq<Commit>, pick: Commit -> Option<string>, found: Option<string>)
    requires commits != [] && IsFirst(commits[1..], pick, found)
    ensures IsFirst(commits, pick, if pick(commits[0]).Some? then pick(commits[0]) else found)
  {
    assert forall i | 0 < i < |commits| :: commits[i] == commits[1..][i - 1];
    if pick(commits[0]).None? && found.Some? {
      var i :| 0 <= i < |commits[1..]| && pick(commits[1..][i]) == found &&
               forall j | 0 <= j < i :: pick(commits[1..][j]).None?;
      assert pick(commits[i + 1]) == found;
    }
  }

  lemma TopIs(input: Input)
    ensures var summary, notes := FirstSummary(input.commits).GetOr(""), FirstNotes(input.commits).GetOr("");
            Top(input) ==
            [""] + (if summary == "" then [] else [Sanitize(input.capital(summary[0]) + summary[1..]), ""]) +
            if notes == "" then [] else [Sanitize(notes), ""]
  {
  }

  lemma TopComesFirst(input: Input)
    ensures Top(input) <= BodyLines(input)
  {
    BodyIs(input);
    assert Top(input) <= UpTo(input, |GROUPS|);
  }

  /** Above the groups stand the summary as a sentence and the notes, each if there is one. */
  lemma SummaryAndNotesComeFirst(input: Input)
    ensures var summary, notes := FirstSummary(input.commits).GetOr(""), FirstNotes(input.commits).GetOr("");
            [""] + (if summary == "" then [] else [Sanitize(input.capital(summary[0]) + summary[1..]), ""]) +
            (if notes == "" then [] else [Sanitize(notes), ""]) <= BodyLines(input)
  {
    TopIs(input);
    TopComesFirst(input);
  }

  /** A release with nothing to tell says so and nothing else. */
  lemma QuietReleaseSaysSo(input: Input)
    requires IsQuiet(input)
    ensures BodyLines(input) == ["", "No recorded changes.", ""]
  {
    BodyIs(input);
    NoEntries(input.commits);
    NothingInGroups(GROUPS[..|GROUPS|], input.repoUrl);
    assert Top(input) == [""];
    assert UpTo(input, |GROUPS|) == [""];
  }

  lemma {:induction false} NothingInGroups(groups: seq<Group>, repoUrl: string)
    ensures AllGroupLines([], groups, repoUrl) == []
  {
    if groups != [] {
      NothingInGroups(groups[..|groups| - 1], repoUrl);
    }
  }

  // ---------------------------------------------------------------------------
  // One commit's line
  // ---------------------------------------------------------------------------

  /** Nothing in it opens raw HTML, and no dash is longer than a hyphen. */
  ghost predicate IsClean(text: string) {
    Free(text, '<') && Free(text, '\U{2014}') && Free(text, '\U{2013}')
  }

  lemma CleanAdds(a: string, b: string)
    ensures IsClean(a + b) <==> IsClean(a) && IsClean(b)
  {
    var ab := a + b;
    assert forall i | 0 <= i < |a| :: ab[i] == a[i];
    assert forall i | 0 <= i < |b| :: ab[|a| + i] == b[i];
  }

  lemma CharIsClean(c: char)
    ensures IsClean(SanitizeChar(c)) && (IsClean([c]) ==> SanitizeChar(c) == [c])
  {
    assert [c][0] == c;
    var entity := "&lt;";
    assert entity[0] == '&' && entity[1] == 'l' && entity[2] == 't' && entity[3] == ';';
  }

  /** Sanitizing cleans any text and leaves a clean one as it is. */
  lemma {:induction false} SanitizedIsClean(text: string)
    ensures IsClean(Sanitize(text)) && (IsClean(text) ==> Sanitize(text) == text)
  {
    if text != "" {
      SanitizedIsClean(text[1..]);
      CharIsClean(text[0]);
      CleanAdds(SanitizeChar(text[0]), Sanitize(text[1..]));
      assert text == [text[0]] + text[1..];
      CleanAdds([text[0]], text[1..]);
    }
  }

  lemma Regroup(a: string, b: string, c: string)
    ensures a + (b + c) == (a + b) + c
  {
  }

  /** It works piece by piece. */
  lemma {:induction false} SanitizesInPlace(before: string, after: string)
    ensures Sanitize(before + after) == Sanitize(before) + Sanitize(after)
  {
    if before == "" {
      assert before + after == after;
      assert "" + Sanitize(after) == Sanitize(after);
    } else {
      SanitizesInPlace(before[1..], after);
      assert (before + after)[0] == before[0] && (before + after)[1..] == before[1..] + after;
      Regroup(SanitizeChar(before[0]), Sanitize(before[1..]), Sanitize(after));
    }
  }

  /** `<` becomes its entity and a longer dash a hyphen. */
  lemma SanitizesTo(c: char)
    ensures c == '<' ==> Sanitize([c]) == "&lt;"
    ensures c == '\U{2014}' || c == '\U{2013}' ==> Sanitize([c]) == "-"
  {
    assert [c][1..] == "" && [c][0] == c;
    assert SanitizeChar(c) + "" == SanitizeChar(c);
  }

  ghost predicate HoldsAt(text: string, part: string, i: nat) {
    i + |part| <= |text| && text[i..i + |part|] == part
  }

  ghost predicate Holds(text: string, part: string) {
    exists i: nat :: HoldsAt(text, part, i)
  }

  ghost predicate EndsWith(text: string, part: string) {
    |part| <= |text| && text[|text| - |part|..] == part
  }

  lemma HoldsBetween(before: string, part: string, after: string)
    ensures Holds(before + part + after, part)
  {
    assert HoldsAt(before + part + after, part, |before|);
  }

  lemma EndsBehind(before: string, text: string, part: string)
    requires EndsWith(text, part)
    ensures EndsWith(before + text, part)
  {
    assert (before + text)[|before| + |text| - |part|..] == part;
  }

  lemma LinkEnds(short: string, repoUrl: string, sha: string)
    ensures EndsWith(" ([`" + short + "`](" + repoUrl + "/commit/" + sha + "))", "/commit/" + sha + "))")
  {
    var front, end := " ([`" + short + "`](" + repoUrl, "/commit/" + sha + "))";
    assert " ([`" + short + "`](" + repoUrl + "/commit/" + sha + "))" == front + end;
    EndsBehind(front, end, end);
  }

  lemma LineParts(front: string, pull: string, commit: string, end: string)
    requires EndsWith(commit, end)
    ensures front <= front + pull + commit && Holds(front + pull + commit, pull)
    ensures EndsWith(front + pull + commit, end)
  {
    HoldsBetween(front, pull, commit);
    EndsBehind(front + pull, commit, end);
  }

  /** A commit's line: a list item that starts with its scope and summary, links its pull request and ends with its hash. */
  lemma LineShowsCommit(entry: Entry, repoUrl: string)
    ensures var line, scope, pr := RenderEntry(entry, repoUrl), entry.scope.GetOr(""), entry.pr.GetOr("");
            && (scope == "" ==> "- " + entry.summary <= line)
            && (scope != "" ==> "- " + ("**" + scope + "**: ") + entry.summary <= line)
            && (pr != "" ==> Holds(line, " ([#" + pr + "](" + repoUrl + "/pull/" + pr + "))"))
            && EndsWith(line, "/commit/" + entry.sha + "))")
  {
    var scope := if entry.scope.GetOr("") != "" then "**" + entry.scope.value + "**: " else "";
    var pr := if entry.pr.GetOr("") != ""
              then " ([#" + entry.pr.value + "](" + repoUrl + "/pull/" + entry.pr.value + "))" else "";
    var short := if |entry.sha| <= 7 then entry.sha else entry.sha[..7];
    var commit := " ([`" + short + "`](" + repoUrl + "/commit/" + entry.sha + "))";
    assert "- " + "" == "- ";
    LinkEnds(short, repoUrl, entry.sha);
    LineParts("- " + scope + entry.summary, pr, commit, "/commit/" + entry.sha + "))");
  }

  /** Two commits whose hashes hold no slash never share a line. */
  lemma LineNamesItsCommit(a: Entry, b: Entry, repoUrl: string)
    requires Free(a.sha, '/') && Free(b.sha, '/')
    requires RenderEntry(a, repoUrl) == RenderEntry(b, repoUrl)
    ensures a.sha == b.sha
  {
    var line := RenderEntry(a, repoUrl);
    LineShowsCommit(a, repoUrl);
    LineShowsCommit(b, repoUrl);
    assert "/commit" + "/" == "/commit/";
    HashIsLast(line, "/commit", a.sha, b.sha);
  }

  lemma HashIsLast(line: string, before: string, a: string, b: string)
    requires Free(a, '/') && Free(b, '/')
    requires EndsWith(line, before + "/" + a + "))") && EndsWith(line, before + "/" + b + "))")
    ensures a == b
  {
    NoSlashBefore(line, before, a, b);
    NoSlashBefore(line, before, b, a);
    assert line[|line| - |a| - 2..|line| - 2] == a && line[|line| - |b| - 2..|line| - 2] == b;
  }

  lemma NoSlashBefore(line: string, before: string, a: string, b: string)
    requires Free(b, '/')
    requires EndsWith(line, before + "/" + a + "))") && EndsWith(line, before + "/" + b + "))")
    ensures |a| >= |b|
  {
    var end, other := before + "/" + a + "))", before + "/" + b + "))";
    assert end[|before|] == '/';
    assert line[|line| - |end| + |before|] == '/';
    if |a| < |b| {
      assert false;
    }
  }
}
