/**
 `renderRelease` of `changelog.ts` and `writeChangelog` of `version.ts`: the section a release
 writes, and the changelog over any number of releases.
 */
module ReleaseNotes {
  import opened Prelude
  import opened Text
  import opened Decimal
  import opened Semver
  import opened ReleaseHeading
  import opened Changelog

  /**
   A commit as the subject patterns read it. `text` is the subject without its type, scope and
   pull request suffix; `summary` and `notes` are a `release:` commit's own.
   */
  datatype Commit = Commit(
    sha: string, machinery: bool, summary: Option<string>, notes: Option<string>,
    kind: Option<string>, breaking: bool, scope: Option<string>, text: string, pr: Option<string>)

  datatype Entry = Entry(group: string, scope: Option<string>, summary: string, pr: Option<string>, sha: string)

  datatype Group = Group(key: string, heading: string)

  const BREAKING := "breaking"
  const OTHER := "other"

  const GROUPS: seq<Group> := [
    Group(BREAKING, "Breaking changes"), Group("feat", "Features"), Group("fix", "Fixes"),
    Group("perf", "Performance"), Group("refactor", "Refactors"), Group("docs", "Documentation"),
    Group(OTHER, "Other changes")]

  predicate IsGroup(key: string) {
    HasKey(GROUPS, key)
  }

  function SanitizeChar(c: char): string {
    if c == '<' then "&lt;" else if c == '\U{2014}' || c == '\U{2013}' then "-" else [c]
  }

  function Sanitize(text: string): string {
    if text == "" then "" else SanitizeChar(text[0]) + Sanitize(text[1..])
  }

  function GroupOf(commit: Commit): string {
    if commit.breaking then BREAKING
    else if commit.kind.Some? && IsGroup(commit.kind.value) then commit.kind.value
    else OTHER
  }

  /** Neither the release's own commit nor machinery. */
  predicate Ordinary(commit: Commit) {
    !commit.machinery && commit.summary.None?
  }

  function EntryOf(commit: Commit): Option<Entry> {
    if !Ordinary(commit) then None
    else Some(Entry(GroupOf(commit), commit.scope, Sanitize(commit.text), commit.pr, commit.sha))
  }

  function Entries(commits: seq<Commit>): seq<Entry> {
    if commits == [] then []
    else (if EntryOf(commits[0]).Some? then [EntryOf(commits[0]).value] else []) + Entries(commits[1..])
  }

  function InGroup(entries: seq<Entry>, key: string): seq<Entry> {
    if entries == [] then []
    else (if entries[0].group == key then [entries[0]] else []) + InGroup(entries[1..], key)
  }

  function RenderEntry(entry: Entry, repoUrl: string): string {
    var scope := if entry.scope.GetOr("") != "" then "**" + entry.scope.value + "**: " else "";
    var pr := if entry.pr.GetOr("") != ""
              then " ([#" + entry.pr.value + "](" + repoUrl + "/pull/" + entry.pr.value + "))" else "";
    var short := if |entry.sha| <= 7 then entry.sha else entry.sha[..7];
    var commit := " ([`" + short + "`](" + repoUrl + "/commit/" + entry.sha + "))";
    "- " + scope + entry.summary + pr + commit
  }

  function FirstSummary(commits: seq<Commit>): Option<string> {
    if commits == [] then None
    else if commits[0].summary.Some? then commits[0].summary else FirstSummary(commits[1..])
  }

  function FirstNotes(commits: seq<Commit>): Option<string> {
    if commits == [] then None
    else if commits[0].notes.Some? then commits[0].notes else FirstNotes(commits[1..])
  }

  /** `capital` is the first letter's upper case, which may be more than one character. */
  function SummaryLines(summary: Option<string>, capital: char -> string): seq<string> {
    if summary.Some? && summary.value != "" then
      [Sanitize(capital(summary.value[0]) + summary.value[1..]), ""]
    else []
  }

  function NotesLines(notes: Option<string>): seq<string> {
    if notes.Some? && notes.value != "" then [Sanitize(notes.value), ""] else []
  }

  function Rendered(entries: seq<Entry>, repoUrl: string): seq<string> {
    seq(|entries|, i requires 0 <= i < |entries| => RenderEntry(entries[i], repoUrl))
  }

  function GroupLines(entries: seq<Entry>, group: Group, repoUrl: string): seq<string> {
    var mine := InGroup(entries, group.key);
    if mine == [] then [] else ["### " + group.heading, ""] + Rendered(mine, repoUrl) + [""]
  }

  function AllGroupLines(entries: seq<Entry>, groups: seq<Group>, repoUrl: string): seq<string> {
    if groups == [] then []
    else AllGroupLines(entries, groups[..|groups| - 1], repoUrl) + GroupLines(entries, groups[|groups| - 1], repoUrl)
  }

  datatype Input = Input(version: string, date: string, commits: seq<Commit>, repoUrl: string, capital: char -> string)

  function BodyLines(input: Input): seq<string> {
    var summary, notes := SummaryLines(FirstSummary(input.commits), input.capital), NotesLines(FirstNotes(input.commits));
    [""] + summary + notes + AllGroupLines(Entries(input.commits), GROUPS, input.repoUrl) +
    if summary == [] && notes == [] && Entries(input.commits) == [] then ["No recorded changes.", ""] else []
  }

  function Section'(input: Input): string {
    Join([HASHES + input.version + DASH + input.date] + BodyLines(input), "\n")
  }

  method RenderRelease(input: Input) returns (section: string)
    ensures section == Section'(input)
  {
    var summary, notes := FirstSummary(input.commits), FirstNotes(input.commits);
    var entries := Entries(input.commits);
    var title := HASHES + input.version + DASH + input.date;
    var lines := [""];
    if summary.Some? && summary.value != "" {
      lines := lines + [Sanitize(input.capital(summary.value[0]) + summary.value[1..]), ""];
    }
    assert lines == [""] + SummaryLines(summary, input.capital);
    if notes.Some? && notes.value != "" {
      lines := lines + [Sanitize(notes.value), ""];
    }
    assert lines == [""] + SummaryLines(summary, input.capital) + NotesLines(notes);
    lines := AppendGroups(lines, entries, GROUPS, input.repoUrl);
    if !(summary.Some? && summary.value != "") && !(notes.Some? && notes.value != "") && entries == [] {
      lines := lines + ["No recorded changes.", ""];
    }
    assert lines == BodyLines(input);
    return Join([title] + lines, "\n");
  }

  lemma OneMoreGroup(before: seq<string>, entries: seq<Entry>, groups: seq<Group>, i: nat, repoUrl: string)
    requires i < |groups|
    ensures before + AllGroupLines(entries, groups[..i + 1], repoUrl) ==
            before + AllGroupLines(entries, groups[..i], repoUrl) + GroupLines(entries, groups[i], repoUrl)
  {
    assert groups[..i + 1][..i] == groups[..i];
  }

  method AppendGroups(before: seq<string>, entries: seq<Entry>, groups: seq<Group>, repoUrl: string)
    returns (lines: seq<string>)
    ensures lines == before + AllGroupLines(entries, groups, repoUrl)
  {
    lines := before;
    assert before == before + AllGroupLines(entries, groups[..0], repoUrl);
    var i := 0;
    while i < |groups|
      invariant 0 <= i <= |groups|
      invariant lines == before + AllGroupLines(entries, groups[..i], repoUrl)
    {
      OneMoreGroup(before, entries, groups, i, repoUrl);
      lines := AppendGroup(lines, entries, groups[i], repoUrl);
      i := i + 1;
    }
    assert groups[..i] == groups;
  }

  method AppendGroup(before: seq<string>, entries: seq<Entry>, group: Group, repoUrl: string) returns (lines: seq<string>)
    ensures lines == before + GroupLines(entries, group, repoUrl)
  {
    var mine := InGroup(entries, group.key);
    if mine == [] {
      return before;
    }
    lines := before + ["### " + group.heading, ""];
    var j := 0;
    while j < |mine|
      invariant 0 <= j <= |mine|
      invariant lines == before + ["### " + group.heading, ""] + Rendered(mine, repoUrl)[..j]
    {
      lines := lines + [RenderEntry(mine[j], repoUrl)];
      j := j + 1;
    }
    lines := lines + [""];
  }

  // ---------------------------------------------------------------------------
  // Every ordinary commit in exactly one group
  // ---------------------------------------------------------------------------

  lemma GroupKeysAreDistinct()
    ensures DistinctKeys(GROUPS)
  {
    assert |BREAKING| == 8 && |OTHER| == 5 && |"feat"| == 4 && |"fix"| == 3 && |"perf"| == 4;
    assert |"refactor"| == 8 && |"docs"| == 4;
    assert "feat"[0] == 'f' && "perf"[0] == 'p' && "docs"[0] == 'd' && BREAKING[0] == 'b' && "refactor"[0] == 'r';
  }

  lemma OneGroup(commit: Commit)
    ensures HasKey(GROUPS, GroupOf(commit))
    ensures forall i, j | 0 <= i < |GROUPS| && 0 <= j < |GROUPS| ::
              GROUPS[i].key == GroupOf(commit) && GROUPS[j].key == GroupOf(commit) ==> i == j
  {
    assert GROUPS[0].key == BREAKING && GROUPS[6].key == OTHER;
    GroupKeysAreDistinct();
  }

  /** Every entry, group by group, as they are written. */
  function Grouped(entries: seq<Entry>, groups: seq<Group>): seq<Entry> {
    if groups == [] then []
    else Grouped(entries, groups[..|groups| - 1]) + InGroup(entries, groups[|groups| - 1].key)
  }

  predicate HasKey(groups: seq<Group>, key: string) {
    exists i | 0 <= i < |groups| :: groups[i].key == key
  }

  ghost predicate DistinctKeys(groups: seq<Group>) {
    forall i, j | 0 <= i < j < |groups| :: groups[i].key != groups[j].key
  }

  lemma {:induction false} InGroupCounts(entries: seq<Entry>, key: string, e: Entry)
    ensures multiset(InGroup(entries, key))[e] == if e.group == key then multiset(entries)[e] else 0
  {
    if entries != [] {
      InGroupCounts(entries[1..], key, e);
      assert entries == [entries[0]] + entries[1..];
    }
  }

  lemma {:induction false} GroupedCounts(entries: seq<Entry>, groups: seq<Group>, e: Entry)
    requires DistinctKeys(groups)
    ensures multiset(Grouped(entries, groups))[e] == if HasKey(groups, e.group) then multiset(entries)[e] else 0
  {
    if groups != [] {
      var init, last := groups[..|groups| - 1], groups[|groups| - 1];
      GroupedCounts(entries, init, e);
      InGroupCounts(entries, last.key, e);
      OneKeyMore(groups, e.group);
    }
  }

  lemma OneKeyMore(groups: seq<Group>, key: string)
    requires groups != [] && DistinctKeys(groups)
    ensures var init, last := groups[..|groups| - 1], groups[|groups| - 1];
            && (HasKey(groups, key) <==> HasKey(init, key) || last.key == key)
            && !(HasKey(init, key) && last.key == key)
  {
    var init := groups[..|groups| - 1];
    if HasKey(init, key) {
      var i :| 0 <= i < |init| && init[i].key == key;
      assert groups[i].key == key;
    }
    if HasKey(groups, key) {
      var i :| 0 <= i < |groups| && groups[i].key == key;
      assert i < |init| ==> init[i].key == key;
    }
  }

  lemma GroupingOnlyReorders(entries: seq<Entry>, groups: seq<Group>)
    requires DistinctKeys(groups) && forall e | e in entries :: HasKey(groups, e.group)
    ensures multiset(Grouped(entries, groups)) == multiset(entries)
  {
    forall e
      ensures multiset(Grouped(entries, groups))[e] == multiset(entries)[e]
    {
      GroupedCounts(entries, groups, e);
      if !HasKey(groups, e.group) {
        assert e !in entries;
      }
    }
  }

  lemma {:induction false} EntriesAreGrouped(commits: seq<Commit>, e: Entry)
    requires e in Entries(commits)
    ensures HasKey(GROUPS, e.group)
  {
    if EntryOf(commits[0]) == Some(e) {
      OneGroup(commits[0]);
    } else {
      EntriesAreGrouped(commits[1..], e);
    }
  }

  /** The groups hold every ordinary commit of the range exactly once: grouping only reorders. */
  lemma GroupsPartitionTheRange(commits: seq<Commit>)
    ensures multiset(Grouped(Entries(commits), GROUPS)) == multiset(Entries(commits))
  {
    forall e | e in Entries(commits) {
      EntriesAreGrouped(commits, e);
    }
    GroupKeysAreDistinct();
    GroupingOnlyReorders(Entries(commits), GROUPS);
  }

  lemma {:induction false} OrdinaryIsAnEntry(commits: seq<Commit>, i: nat)
    requires i < |commits| && Ordinary(commits[i])
    ensures EntryOf(commits[i]).value in Entries(commits)
  {
    if i > 0 {
      OrdinaryIsAnEntry(commits[1..], i - 1);
    }
  }

  lemma {:induction false} EntryIsInItsGroup(entries: seq<Entry>, e: Entry)
    requires e in entries
    ensures e in InGroup(entries, e.group)
  {
    if entries[0] != e {
      EntryIsInItsGroup(entries[1..], e);
    }
  }

  lemma {:induction false} GroupIsWritten(entries: seq<Entry>, groups: seq<Group>, repoUrl: string, e: Entry)
    requires e in entries && HasKey(groups, e.group)
    ensures RenderEntry(e, repoUrl) in AllGroupLines(entries, groups, repoUrl)
  {
    var init, last := groups[..|groups| - 1], groups[|groups| - 1];
    if last.key == e.group {
      EntryIsInItsGroup(entries, e);
      var mine := InGroup(entries, e.group);
      var i :| 0 <= i < |mine| && mine[i] == e;
      assert Rendered(mine, repoUrl)[i] == RenderEntry(e, repoUrl);
      assert RenderEntry(e, repoUrl) in Rendered(mine, repoUrl);
    } else {
      var i :| 0 <= i < |groups| && groups[i].key == e.group;
      assert init[i].key == e.group;
      GroupIsWritten(entries, init, repoUrl, e);
    }
  }

  /** No ordinary commit is dropped: the section has a line for each. */
  lemma EveryOrdinaryCommitIsWritten(input: Input, i: nat)
    requires i < |input.commits| && Ordinary(input.commits[i])
    ensures RenderEntry(EntryOf(input.commits[i]).value, input.repoUrl) in BodyLines(input)
  {
    var e := EntryOf(input.commits[i]).value;
    OrdinaryIsAnEntry(input.commits, i);
    EntriesAreGrouped(input.commits, e);
    GroupIsWritten(Entries(input.commits), GROUPS, input.repoUrl, e);
  }

  /** The lines around a group's entries, for the groups that have any. */
  function FrameLines(entries: seq<Entry>, groups: seq<Group>): seq<string> {
    if groups == [] then []
    else
      var last := groups[|groups| - 1];
      FrameLines(entries, groups[..|groups| - 1]) +
      if InGroup(entries, last.key) == [] then [] else ["### " + last.heading, "", ""]
  }

  lemma RenderedAdds(a: seq<Entry>, b: seq<Entry>, repoUrl: string)
    ensures Rendered(a + b, repoUrl) == Rendered(a, repoUrl) + Rendered(b, repoUrl)
  {
  }

  lemma GroupLinesAre(entries: seq<Entry>, group: Group, repoUrl: string)
    ensures multiset(GroupLines(entries, group, repoUrl)) ==
            multiset(Rendered(InGroup(entries, group.key), repoUrl)) +
            multiset(if InGroup(entries, group.key) == [] then [] else ["### " + group.heading, "", ""])
  {
    var mine := InGroup(entries, group.key);
    if mine != [] {
      var head, lines := ["### " + group.heading, ""], Rendered(mine, repoUrl);
      assert multiset(head + lines + [""]) == multiset(head) + multiset(lines) + multiset([""]);
      assert ["### " + group.heading, "", ""] == head + [""];
    }
  }

  /** The groups' lines are one for each grouped entry, and the headings with their empty lines. */
  lemma {:induction false} LinesAreEntries(entries: seq<Entry>, groups: seq<Group>, repoUrl: string)
    ensures multiset(AllGroupLines(entries, groups, repoUrl)) ==
            multiset(Rendered(Grouped(entries, groups), repoUrl)) + multiset(FrameLines(entries, groups))
  {
    if groups != [] {
      var init, last := groups[..|groups| - 1], groups[|groups| - 1];
      LinesAreEntries(entries, init, repoUrl);
      GroupLinesAre(entries, last, repoUrl);
      RenderedAdds(Grouped(entries, init), InGroup(entries, last.key), repoUrl);
    }
  }

  function Without<T>(s: seq<T>, i: nat): seq<T>
    requires i < |s|
  {
    s[..i] + s[i + 1..]
  }

  lemma WithoutIsLess<T>(s: seq<T>, i: nat)
    requires i < |s|
    ensures multiset(s) == multiset(Without(s, i)) + multiset{s[i]}
    ensures multiset(Without(s, i)) == multiset(s) - multiset{s[i]}
  {
    assert s == s[..i] + [s[i]] + s[i + 1..];
  }

  lemma RenderedWithout(entries: seq<Entry>, i: nat, repoUrl: string)
    requires i < |entries|
    ensures multiset(Rendered(entries, repoUrl)) ==
            multiset(Rendered(Without(entries, i), repoUrl)) + multiset{RenderEntry(entries[i], repoUrl)}
  {
    WithoutIsLess(Rendered(entries, repoUrl), i);
    assert Rendered(Without(entries, i), repoUrl) == Without(Rendered(entries, repoUrl), i);
  }

  lemma {:induction false} SameEntriesSameLines(a: seq<Entry>, b: seq<Entry>, repoUrl: string)
    requires multiset(a) == multiset(b)
    ensures multiset(Rendered(a, repoUrl)) == multiset(Rendered(b, repoUrl))
    decreases |a|
  {
    if a == [] {
      assert |multiset(b)| == |b|;
    } else {
      assert a[0] in multiset(b);
      var i :| 0 <= i < |b| && b[i] == a[0];
      WithoutIsLess(a, 0);
      WithoutIsLess(b, i);
      SameEntriesSameLines(Without(a, 0), Without(b, i), repoUrl);
      RenderedWithout(a, 0, repoUrl);
      RenderedWithout(b, i, repoUrl);
    }
  }

  /** Each ordinary commit is written once: the groups' lines are one for each entry of the range, and their frame. */
  lemma EachCommitIsWrittenOnce(commits: seq<Commit>, repoUrl: string)
    ensures multiset(AllGroupLines(Entries(commits), GROUPS, repoUrl)) ==
            multiset(Rendered(Entries(commits), repoUrl)) + multiset(FrameLines(Entries(commits), GROUPS))
  {
    LinesAreEntries(Entries(commits), GROUPS, repoUrl);
    GroupsPartitionTheRange(commits);
    SameEntriesSameLines(Grouped(Entries(commits), GROUPS), Entries(commits), repoUrl);
  }

  // ---------------------------------------------------------------------------
  // The file over any number of releases
  // ---------------------------------------------------------------------------

  function ShowVersion(v: Version): string {
    Dotted(ShowNat(v.major), ShowNat(v.minor), ShowNat(v.patch))
  }

  /** The numbers of a heading's version. */
  function ReadVersion(text: string): Version {
    var pieces := Split(text, '.');
    if |pieces| == 3 && AllDigits(pieces[0]) && AllDigits(pieces[1]) && AllDigits(pieces[2])
    then Plain(ReadNat(pieces[0]), ReadNat(pieces[1]), ReadNat(pieces[2])) else ZERO
  }

  lemma ReadShownVersion(v: Version)
    requires IsPlain(v)
    ensures ReadVersion(ShowVersion(v)) == v
  {
    var a, b, c := ShowNat(v.major), ShowNat(v.minor), ShowNat(v.patch);
    assert "." == ['.'];
    SplitConcat(a + ['.'] + b, c, '.');
    SplitConcat(a, b, '.');
    SplitFree(a, '.');
    SplitFree(b, '.');
    SplitFree(c, '.');
    assert Split(ShowVersion(v), '.') == [a, b, c];
    ReadShown(v.major);
    ReadShown(v.minor);
    ReadShown(v.patch);
  }

  predicate HasVersion(sections: seq<Section>, version: string) {
    exists i | 0 <= i < |sections| :: sections[i].version == version
  }

  function WrittenChangelog(existing: string, version: string, section: string): string {
    if HasVersion(Sections(ParseHeading, existing), version) then existing
    else PrependRelease(ParseHeading, existing, section)
  }

  method WriteChangelog(existing: string, input: Input) returns (written: string)
    ensures written == WrittenChangelog(existing, input.version, Section'(input))
  {
    var releases := ParseChangelog(ParseHeading, existing);
    if HasVersion(releases, input.version) {
      return existing;
    }
    var section := RenderRelease(input);
    return PrependRelease(ParseHeading, existing, section);
  }

  /** The section's heading is read back as the version and date it was given. */
  lemma RenderedHeading(input: Input, v: Version)
    requires input.version == ShowVersion(v) && IsDate(input.date)
    ensures ParseHeading(Split(Section'(input), '\n')[0]) == Some(Heading(input.version, input.date))
  {
    var title := HASHES + input.version + DASH + input.date;
    HeadingIsParsed(ShowNat(v.major), ShowNat(v.minor), ShowNat(v.patch), input.date);
    JoinCons(title, BodyLines(input), "\n");
    SplitTwo(title, Join(BodyLines(input), "\n"));
    TitleIsOneLine(input, v);
    SplitFree(title, '\n');
  }

  lemma TitleIsOneLine(input: Input, v: Version)
    requires input.version == ShowVersion(v) && IsDate(input.date)
    ensures Free(HASHES + input.version + DASH + input.date, '\n')
  {
    assert Free(HASHES, '\n') && Free(DASH, '\n') && Free(".", '\n');
    var date := input.date;
    assert date == date[..4] + [date[4]] + date[5..7] + [date[7]] + date[8..];
  }

  ghost predicate Descending(sections: seq<Section>) {
    forall i, j | 0 <= i < j < |sections| ::
      Order(ReadVersion(sections[i].version), ReadVersion(sections[j].version)) == 1
  }

  /** No line of the rendered body is itself a release heading. */
  ghost predicate PlainBody(input: Input) {
    NoHeadings(ParseHeading, Split(Section'(input), '\n')[1..])
  }

  /** Writing keeps the file descending exactly when the version is already there or above the newest one. */
  lemma WriteKeepsDescending(existing: string, input: Input, v: Version)
    requires IsPlain(v) && input.version == ShowVersion(v) && IsDate(input.date) && PlainBody(input)
    requires Descending(Sections(ParseHeading, existing))
    ensures Descending(Sections(ParseHeading, WrittenChangelog(existing, input.version, Section'(input)))) <==>
            || HasVersion(Sections(ParseHeading, existing), input.version)
            || Sections(ParseHeading, existing) == []
            || Order(v, ReadVersion(Sections(ParseHeading, existing)[0].version)) == 1
  {
    var before := Sections(ParseHeading, existing);
    if !HasVersion(before, input.version) {
      WrittenOnTop(existing, input, v);
      ReadShownVersion(v);
      OnTopDescendsIff(TopOf(input), before);
    }
  }

  lemma OnTopDescendsIff(top: Section, before: seq<Section>)
    requires Descending(before)
    ensures Descending([top] + before) <==>
            before == [] || Order(ReadVersion(top.version), ReadVersion(before[0].version)) == 1
  {
    var after := [top] + before;
    assert forall i | 0 <= i < |before| :: after[i + 1] == before[i];
    if before != [] && Order(ReadVersion(top.version), ReadVersion(before[0].version)) == 1 {
      forall j | 0 < j < |after|
        ensures Order(ReadVersion(top.version), ReadVersion(after[j].version)) == 1
      {
        OrderIsTransitive(ReadVersion(top.version), ReadVersion(before[0].version), ReadVersion(after[j].version));
      }
    }
    if before != [] && Descending(after) {
      assert Order(ReadVersion(after[0].version), ReadVersion(after[1].version)) == 1;
    }
  }

  /**
   One release of a working tree: the highest version it finds in the manifests, the bump it asks
   for, and the day, commits and repository it is rendered with.
   */
  datatype Cut = Cut(
    found: Version, bump: BumpType, date: string, commits: seq<Commit>, repoUrl: string, capital: char -> string)

  function InputOf(cut: Cut, version: Version): Input {
    Input(ShowVersion(version), cut.date, cut.commits, cut.repoUrl, cut.capital)
  }

  function NextVersion(highest: Version, bump: BumpType): Version {
    match BumpVersion(highest, bump)
    case Ok(version) => version
    case Err(_) => highest
  }

  /** The highest version in the manifests after these releases, `highest` before them. */
  function HighestAfter(highest: Version, cuts: seq<Cut>): Version {
    if cuts == [] then highest else NextVersion(cuts[|cuts| - 1].found, cuts[|cuts| - 1].bump)
  }

  /** What the last of these releases renders. */
  function LastInput(highest: Version, cuts: seq<Cut>): Input
    requires cuts != []
  {
    InputOf(cuts[|cuts| - 1], HighestAfter(highest, cuts))
  }

  function Written(file: string, input: Input): string {
    WrittenChangelog(file, input.version, Section'(input))
  }

  /** The changelog after these releases. */
  function FileAfter(highest: Version, file: string, cuts: seq<Cut>): string {
    if cuts == [] then file
    else
      Written(FileAfter(highest, file, cuts[..|cuts| - 1]), LastInput(highest, cuts))
  }

  ghost predicate Below(sections: seq<Section>, version: Version) {
    forall i | 0 <= i < |sections| :: Order(version, ReadVersion(sections[i].version)) >= 0
  }

  /**
   Each release is dated and its rendered body holds no release heading of its own. What it finds
   is plain and at or above what the release before it left: forced bumps may come in between.
   */
  ghost predicate CutsAreFine(highest: Version, cuts: seq<Cut>) {
    cuts != [] ==>
      && CutsAreFine(highest, cuts[..|cuts| - 1])
      && IsPlain(cuts[|cuts| - 1].found)
      && Order(cuts[|cuts| - 1].found, HighestAfter(highest, cuts[..|cuts| - 1])) >= 0
      && IsDate(cuts[|cuts| - 1].date)
      && PlainBody(LastInput(highest, cuts))
  }

  ghost predicate InStep(highest: Version, sections: seq<Section>) {
    IsPlain(highest) && Descending(sections) && Below(sections, highest)
  }

  /**
   Over any sequence of releases the parsed versions strictly descend, so none repeats; every
   release adds exactly one section on top, and the "already has a section" exit is never taken.
   */
  lemma {:induction false} ReleasesDescend(highest: Version, file: string, cuts: seq<Cut>)
    requires InStep(highest, Sections(ParseHeading, file)) && CutsAreFine(highest, cuts)
    ensures InStep(HighestAfter(highest, cuts), Sections(ParseHeading, FileAfter(highest, file, cuts)))
    ensures |Sections(ParseHeading, FileAfter(highest, file, cuts))| == |Sections(ParseHeading, file)| + |cuts|
    ensures Sections(ParseHeading, FileAfter(highest, file, cuts))[|cuts|..] == Sections(ParseHeading, file)
    ensures cuts != [] ==>
              Sections(ParseHeading, FileAfter(highest, file, cuts))[0].version == ShowVersion(HighestAfter(highest, cuts))
  {
    if cuts != [] {
      var init, cut := cuts[..|cuts| - 1], cuts[|cuts| - 1];
      ReleasesDescend(highest, file, init);
      RaisedStaysInStep(
        HighestAfter(highest, init), cut.found, Sections(ParseHeading, FileAfter(highest, file, init)));
      OneMoreRelease(cut.found, FileAfter(highest, file, init), cut, Sections(ParseHeading, file), |init|);
    }
  }

  lemma RaisedStaysInStep(highest: Version, found: Version, sections: seq<Section>)
    requires InStep(highest, sections) && IsPlain(found) && Order(found, highest) >= 0
    ensures InStep(found, sections)
  {
    forall i | 0 <= i < |sections| {
      OrderIsTransitive(found, highest, ReadVersion(sections[i].version));
    }
  }

  /** One more release on top of `n` earlier ones. */
  lemma OneMoreRelease(highest: Version, file: string, cut: Cut, oldest: seq<Section>, n: nat)
    requires InStep(highest, Sections(ParseHeading, file))
    requires IsDate(cut.date) && PlainBody(InputOf(cut, NextVersion(highest, cut.bump)))
    requires n <= |Sections(ParseHeading, file)| && Sections(ParseHeading, file)[n..] == oldest
    ensures var next := NextVersion(highest, cut.bump);
            var sections := Sections(ParseHeading, Written(file, InputOf(cut, next)));
            && InStep(next, sections)
            && |sections| == |Sections(ParseHeading, file)| + 1
            && sections[n + 1..] == oldest
            && sections[0].version == ShowVersion(next)
  {
    OneReleaseDescends(highest, file, cut);
    var top, before := TopOf(InputOf(cut, NextVersion(highest, cut.bump))), Sections(ParseHeading, file);
    assert ([top] + before)[n + 1..] == before[n..];
  }

  /** A version above the highest goes on top of sections that are all at or below it. */
  lemma OnTop(highest: Version, next: Version, before: seq<Section>, top: Section)
    requires IsPlain(next) && Order(next, highest) == 1 && top.version == ShowVersion(next)
    requires Descending(before) && Below(before, highest)
    ensures !HasVersion(before, top.version)
    ensures Descending([top] + before) && Below([top] + before, next)
  {
    ReadShownVersion(next);
    OrderIsTransitive(next, next, next);
    forall i | 0 <= i < |before|
      ensures Order(next, ReadVersion(before[i].version)) == 1
    {
      OrderIsTransitive(next, highest, ReadVersion(before[i].version));
      OrderIsTransitive(next, next, ReadVersion(before[i].version));
    }
  }

  function TopOf(input: Input): Section {
    Section(input.version, input.date, Trim(Join(Split(Section'(input), '\n')[1..], "\n")))
  }

  lemma WrittenOnTop(file: string, input: Input, v: Version)
    requires input.version == ShowVersion(v) && IsDate(input.date) && PlainBody(input)
    requires !HasVersion(Sections(ParseHeading, file), input.version)
    ensures Sections(ParseHeading, Written(file, input)) == [TopOf(input)] + Sections(ParseHeading, file)
  {
    RenderedHeading(input, v);
    PrependThenParse(file, Section'(input), Heading(input.version, input.date));
  }

  lemma OneReleaseDescends(highest: Version, file: string, cut: Cut)
    requires InStep(highest, Sections(ParseHeading, file))
    requires IsDate(cut.date) && PlainBody(InputOf(cut, NextVersion(highest, cut.bump)))
    ensures var input := InputOf(cut, NextVersion(highest, cut.bump));
            var written := Sections(ParseHeading, Written(file, input));
            InStep(NextVersion(highest, cut.bump), written) && written == [TopOf(input)] + Sections(ParseHeading, file)
  {
    var next := NextVersion(highest, cut.bump);
    BumpIsNext(highest, cut.bump);
    OnTop(highest, next, Sections(ParseHeading, file), TopOf(InputOf(cut, next)));
    WrittenOnTop(file, InputOf(cut, next), next);
  }
}
