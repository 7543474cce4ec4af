/**
 `changelog.ts`: the release sections `version.ts` prepends to the changelog and the parser that
 splits the file back into sections. The reader of headings is a parameter, `parse`; what the
 format needs of it is `ReadsHeadings`.
 */
module Changelog {
  import opened Prelude
  import opened Text
  import opened ReleaseHeading

  type Reader = string -> Option<Heading>

  // ---------------------------------------------------------------------------
  // parseChangelog
  // ---------------------------------------------------------------------------

  datatype Section = Section(version: string, date: string, body: string)

  /** The section being read, its body still in lines. */
  datatype Current = Current(heading: Heading, body: seq<string>)

  function Flushed(current: Option<Current>): seq<Section> {
    match current
    case None => []
    case Some(c) => [Section(c.heading.version, c.heading.date, Trim(Join(c.body, "\n")))]
  }

  /** What reading one line releases, and what is being read after it. */
  function Read(parse: Reader, line: string, current: Option<Current>): (seq<Section>, Option<Current>) {
    match parse(line)
    case Some(heading) => (Flushed(current), Some(Current(heading, [])))
    case None => ([], if current.Some? then Some(current.value.(body := current.value.body + [line])) else None)
  }

  function SectionsFrom(parse: Reader, lines: seq<string>, current: Option<Current>): seq<Section> {
    if lines == [] then Flushed(current)
    else Read(parse, lines[0], current).0 + SectionsFrom(parse, lines[1..], Read(parse, lines[0], current).1)
  }

  function Sections(parse: Reader, markdown: string): seq<Section> {
    SectionsFrom(parse, Split(markdown, '\n'), None)
  }

  lemma ReadOneLine(parse: Reader, releases: seq<Section>, lines: seq<string>, i: nat, current: Option<Current>)
    requires i < |lines|
    ensures var (released, next) := Read(parse, lines[i], current);
            (releases + released) + SectionsFrom(parse, lines[i + 1..], next) ==
            releases + SectionsFrom(parse, lines[i..], current)
  {
    assert lines[i..][0] == lines[i] && lines[i..][1..] == lines[i + 1..];
  }

  /** The body of the loop over lines. */
  method ReadLine(parse: Reader, releases: seq<Section>, line: string, current: Option<Current>)
    returns (released: seq<Section>, next: Option<Current>)
    ensures released == releases + Read(parse, line, current).0 && next == Read(parse, line, current).1
  {
    released, next := releases, current;
    var heading := parse(line);
    if heading.Some? {
      released := releases + Flushed(current);
      next := Some(Current(heading.value, []));
    } else if current.Some? {
      next := Some(current.value.(body := current.value.body + [line]));
    }
  }

  method ParseChangelog(parse: Reader, markdown: string) returns (releases: seq<Section>)
    ensures releases == Sections(parse, markdown)
  {
    var lines := Split(markdown, '\n');
    var current: Option<Current> := None;
    releases := [];
    var i := 0;
    while i < |lines|
      invariant 0 <= i <= |lines|
      invariant releases + SectionsFrom(parse, lines[i..], current) == Sections(parse, markdown)
    {
      ReadOneLine(parse, releases, lines, i, current);
      releases, current := ReadLine(parse, releases, lines[i], current);
      i := i + 1;
    }
    assert lines[i..] == [];
    releases := releases + Flushed(current);
  }

  ghost predicate NoHeadings(parse: Reader, lines: seq<string>) {
    forall i | 0 <= i < |lines| :: parse(lines[i]).None?
  }

  /** Lines before any heading are not part of a release. */
  lemma {:induction false} PreambleIsSkipped(parse: Reader, lines: seq<string>, rest: seq<string>)
    requires NoHeadings(parse, lines)
    ensures SectionsFrom(parse, lines + rest, None) == SectionsFrom(parse, rest, None)
  {
    if lines == [] {
      assert lines + rest == rest;
    } else {
      assert (lines + rest)[1..] == lines[1..] + rest;
      PreambleIsSkipped(parse, lines[1..], rest);
    }
  }

  lemma {:induction false} BodyIsCollected(parse: Reader, current: Current, lines: seq<string>, rest: seq<string>)
    requires NoHeadings(parse, lines)
    ensures SectionsFrom(parse, lines + rest, Some(current)) ==
            SectionsFrom(parse, rest, Some(current.(body := current.body + lines)))
    decreases lines
  {
    if lines == [] {
      assert lines + rest == rest && current.body + lines == current.body;
    } else {
      var next := current.(body := current.body + [lines[0]]);
      assert (lines + rest)[0] == lines[0] && (lines + rest)[1..] == lines[1..] + rest;
      assert Read(parse, lines[0], Some(current)) == ([], Some(next));
      BodyIsCollected(parse, next, lines[1..], rest);
      assert next.body + lines[1..] == current.body + lines;
    }
  }

  function Headings(parse: Reader, lines: seq<string>): nat {
    if lines == [] then 0 else (if parse(lines[0]).Some? then 1 else 0) + Headings(parse, lines[1..])
  }

  lemma {:induction false} OneSectionAHeading(parse: Reader, lines: seq<string>, current: Option<Current>)
    ensures |SectionsFrom(parse, lines, current)| == Headings(parse, lines) + if current.Some? then 1 else 0
  {
    if lines != [] {
      OneSectionAHeading(parse, lines[1..], Read(parse, lines[0], current).1);
    }
  }

  lemma {:induction false} HeadingsAdd(parse: Reader, a: seq<string>, b: seq<string>)
    ensures Headings(parse, a + b) == Headings(parse, a) + Headings(parse, b)
    ensures Headings(parse, a) == 0 <==> NoHeadings(parse, a)
  {
    if a == [] {
      assert a + b == b;
    } else {
      assert (a + b)[1..] == a[1..] + b;
      HeadingsAdd(parse, a[1..], b);
      assert a == [a[0]] + a[1..];
    }
  }

  // ---------------------------------------------------------------------------
  // prependRelease
  // ---------------------------------------------------------------------------

  const HEADER_TITLE := "# Changelog"
  // In pieces: the proofs look at each character of a line, and long literals make that slow.
  const HEADER_FIRST :=
    "Every release, newest first. " + "Written by `bun run " + "version` from the commits in the"
  const HEADER_SECOND :=
    "release range. Every @dunx " + "package shares one version " + "and ships together, so a"
  const HEADER_THIRD := "release covers all of them."

  const HEADER_LINES: seq<string> := [HEADER_TITLE, "", HEADER_FIRST, HEADER_SECOND, HEADER_THIRD, ""]

  /**
   What the file format needs of its heading reader: white space is no heading, a heading followed
   by white space is one still, and the header above the first release holds none.
   */
  ghost predicate ReadsHeadings(parse: Reader) {
    && (forall line | AllSpace(line) :: parse(line).None?)
    && (forall line, space {:trigger parse(line + space)} | parse(line).Some? && AllSpace(space) ::
          parse(line + space).Some?)
    && NoHeadings(parse, HEADER_LINES)
  }

  /** The first line that is a release heading, if any. */
  function SearchHeading(parse: Reader, lines: seq<string>): Option<nat> {
    if lines == [] then None
    else if parse(lines[0]).Some? then Some(0)
    else var rest :- SearchHeading(parse, lines[1..]); Some(rest + 1)
  }

  /** Where line `k` starts. */
  function Offset(lines: seq<string>, k: nat): nat {
    if k == 0 || lines == [] then 0 else |lines[0]| + 1 + Offset(lines[1..], k - 1)
  }

  /** `search` with the `m` flag: where the first heading starts. */
  function SearchAt(parse: Reader, body: string): Option<nat> {
    var k :- SearchHeading(parse, Split(body, '\n'));
    Some(Offset(Split(body, '\n'), k))
  }

  lemma {:induction false} SearchFinds(parse: Reader, lines: seq<string>)
    ensures match SearchHeading(parse, lines)
            case Some(k) => k < |lines| && NoHeadings(parse, lines[..k]) && parse(lines[k]).Some?
            case None => NoHeadings(parse, lines)
  {
    if lines != [] && parse(lines[0]).None? {
      SearchFinds(parse, lines[1..]);
      var rest := SearchHeading(parse, lines[1..]);
      if rest.Some? {
        var k := rest.value + 1;
        assert lines[..k] == [lines[0]] + lines[1..][..rest.value];
      } else {
        assert lines == [lines[0]] + lines[1..];
      }
    }
  }

  /** The text before line `k`, line breaks included, and the text from it on. */
  lemma {:induction false} OffsetSplits(lines: seq<string>, k: nat)
    requires k < |lines|
    ensures Offset(lines, k) <= |Join(lines, "\n")|
    ensures Join(lines, "\n")[Offset(lines, k)..] == Join(lines[k..], "\n")
    ensures Join(lines, "\n")[..Offset(lines, k)] == if k == 0 then "" else Join(lines[..k], "\n") + "\n"
  {
    var text := Join(lines, "\n");
    if k == 0 {
      assert lines[0..] == lines;
    } else {
      OffsetSplits(lines[1..], k - 1);
      var rest := Join(lines[1..], "\n");
      var at := Offset(lines[1..], k - 1);
      assert text == lines[0] + "\n" + rest;
      assert |lines[0] + "\n"| == |lines[0]| + 1;
      assert text[Offset(lines, k)..] == rest[at..];
      assert lines[1..][k - 1..] == lines[k..];
      assert text[..Offset(lines, k)] == lines[0] + "\n" + rest[..at];
      if k == 1 {
        assert lines[..1] == [lines[0]];
      } else {
        assert lines[..k] == [lines[0]] + lines[1..][..k - 1];
        JoinCons(lines[0], lines[1..][..k - 1], "\n");
      }
    }
  }

  function PrependRelease(parse: Reader, existing: string, section: string): string {
    var body := if Trim(existing) == "" then "" else existing;
    var at := SearchAt(parse, body);
    if at.None? then
      (if Trim(body) == "" then Join(HEADER_LINES, "\n") else TrimEnd(body) + "\n") + "\n" + section
    else
      assert at.value <= |body| by { SearchAtIsInside(parse, body); }
      body[..at.value] + section + "\n" + body[at.value..]
  }

  lemma SearchAtIsInside(parse: Reader, body: string)
    ensures SearchAt(parse, body).Some? ==> SearchAt(parse, body).value <= |body|
  {
    var lines := Split(body, '\n');
    SearchFinds(parse, lines);
    if SearchHeading(parse, lines).Some? {
      OffsetSplits(lines, SearchHeading(parse, lines).value);
      assert "\n" == ['\n'];
      JoinSplit(body, '\n');
    }
  }

  // ---------------------------------------------------------------------------
  // Prepend, then parse
  // ---------------------------------------------------------------------------

  lemma {:induction false} LinesOfSpace(s: string)
    requires AllSpace(s)
    ensures forall i | 0 <= i < |Split(s, '\n')| :: AllSpace(Split(s, '\n')[i])
  {
    if s != "" {
      LinesOfSpace(s[1..]);
    }
  }

  lemma BlankHasNoHeadings(parse: Reader, s: string)
    requires ReadsHeadings(parse) && Trim(s) == ""
    ensures NoHeadings(parse, Split(s, '\n'))
  {
    TrimOfSpace(s);
    LinesOfSpace(s);
  }

  function Spliced(x: seq<string>, y: seq<string>): seq<string>
    requires x != [] && y != []
  {
    x[..|x| - 1] + [x[|x| - 1] + y[0]] + y[1..]
  }

  function Before(c: char, pieces: seq<string>): seq<string>
    requires pieces != []
  {
    if c == '\n' then [""] + pieces else [[c] + pieces[0]] + pieces[1..]
  }

  lemma Glue(c: char, z: seq<string>, y: seq<string>)
    requires z != [] && y != []
    ensures Before(c, Spliced(z, y)) == Spliced(Before(c, z), y)
  {
    var x := Before(c, z);
    if c != '\n' && |z| == 1 {
      assert [c] + z[0] + y[0] == [c] + (z[0] + y[0]);
    }
  }

  /** Splitting a text that goes on: its last line goes on. */
  lemma {:induction false} SplitGoesOn(a: string, b: string)
    ensures Split(a + b, '\n') == Spliced(Split(a, '\n'), Split(b, '\n'))
  {
    var x, y := Split(a, '\n'), Split(b, '\n');
    if a == "" {
      assert a + b == b && x == [""] && "" + y[0] == y[0];
      assert y == [y[0]] + y[1..];
    } else {
      assert (a + b)[1..] == a[1..] + b && (a + b)[0] == a[0];
      SplitGoesOn(a[1..], b);
      Glue(a[0], Split(a[1..], '\n'), y);
    }
  }

  /** A text without headings is left without them when its last line loses white space. */
  lemma ShorterHasNoHeadings(parse: Reader, x: seq<string>, y: seq<string>)
    requires ReadsHeadings(parse) && x != [] && y != [] && AllSpace(y[0])
    requires NoHeadings(parse, Spliced(x, y))
    ensures NoHeadings(parse, x)
  {
    var lines := Spliced(x, y);
    forall i | 0 <= i < |x|
      ensures parse(x[i]).None?
    {
      assert parse(lines[i]).None?;
      if i == |x| - 1 {
        assert lines[i] == x[i] + y[0];
        assert parse(x[i] + y[0]).None?;
      } else {
        assert lines[i] == x[i];
      }
    }
  }

  lemma TrimmedHasNoHeadings(parse: Reader, body: string)
    requires ReadsHeadings(parse) && NoHeadings(parse, Split(body, '\n'))
    ensures NoHeadings(parse, Split(TrimEnd(body), '\n'))
  {
    var t := TrimEnd(body);
    TrimEndIsPrefix(body);
    var space := body[|t|..];
    assert body == t + space;
    SplitGoesOn(t, space);
    LinesOfSpace(space);
    ShorterHasNoHeadings(parse, Split(t, '\n'), Split(space, '\n'));
  }

  lemma HeaderLinesAreFree()
    ensures forall i | 0 <= i < |HEADER_LINES| :: Free(HEADER_LINES[i], '\n')
  {
    assert Free(HEADER_TITLE, '\n') && Free(HEADER_THIRD, '\n');
    FirstIsFree();
    SecondIsFree();
  }

  lemma FirstIsFree()
    ensures Free(HEADER_FIRST, '\n')
  {
  }

  lemma SecondIsFree()
    ensures Free(HEADER_SECOND, '\n')
  {
  }

  lemma HeaderIsItsLines()
    ensures Split(Join(HEADER_LINES, "\n"), '\n') == HEADER_LINES
  {
    assert "\n" == ['\n'];
    HeaderLinesAreFree();
    SplitJoin(HEADER_LINES, '\n');
  }

  /** The file after prepending is what preceded the first heading, the section, and the old sections. */
  ghost predicate Around(parse: Reader, existing: string, section: string, pre: seq<string>, post: seq<string>) {
    && Split(PrependRelease(parse, existing, section), '\n') == pre + Split(section, '\n') + post
    && NoHeadings(parse, pre)
    && Sections(parse, existing) == SectionsFrom(parse, post, None)
    && (post != [] ==> parse(post[0]).Some?)
  }

  lemma NoSections(parse: Reader, existing: string)
    requires NoHeadings(parse, Split(existing, '\n'))
    ensures Sections(parse, existing) == []
  {
    PreambleIsSkipped(parse, Split(existing, '\n'), []);
    assert Split(existing, '\n') + [] == Split(existing, '\n');
  }

  /** A blank file becomes the header and the section. */
  lemma AroundBlank(parse: Reader, existing: string, section: string)
    requires ReadsHeadings(parse) && Trim(existing) == ""
    ensures Around(parse, existing, section, HEADER_LINES, [])
  {
    BlankSearch(parse);
    BlankHasNoHeadings(parse, existing);
    NoSections(parse, existing);
    HeaderIsItsLines();
    SplitTwo(Join(HEADER_LINES, "\n"), section);
    assert HEADER_LINES + Split(section, '\n') + [] == HEADER_LINES + Split(section, '\n');
  }

  lemma PrependedAfter(parse: Reader, existing: string, section: string)
    requires Trim(existing) != "" && SearchAt(parse, existing).None?
    ensures PrependRelease(parse, existing, section) == TrimEnd(existing) + "\n" + "\n" + section
  {
  }

  /** A file of prose only gets an empty line and the section at its end. */
  lemma AroundProse(parse: Reader, existing: string, section: string) returns (pre: seq<string>)
    requires ReadsHeadings(parse) && Trim(existing) != "" && SearchAt(parse, existing).None?
    ensures Around(parse, existing, section, pre, [])
  {
    var t := TrimEnd(existing);
    PrependedAfter(parse, existing, section);
    SearchFinds(parse, Split(existing, '\n'));
    NoSections(parse, existing);
    TrimmedHasNoHeadings(parse, existing);
    pre := Split(t, '\n') + [""];
    assert t + "\n" + "" == t + "\n";
    SplitThree(t, "", section);
    assert Split("", '\n') == [""];
    assert parse("").None?;
    assert pre + Split(section, '\n') + [] == pre + Split(section, '\n');
  }

  lemma {:induction false} LinesFree(lines: seq<string>, k: nat)
    requires k < |lines| && forall i | 0 <= i < |lines| :: Free(lines[i], '\n')
    ensures Split(Join(lines[k..], "\n"), '\n') == lines[k..]
    ensures k > 0 ==> Split(Join(lines[..k], "\n"), '\n') == lines[..k]
  {
    assert "\n" == ['\n'];
    SplitJoin(lines[k..], '\n');
    if k > 0 {
      SplitJoin(lines[..k], '\n');
    }
  }

  lemma PrependedAt(parse: Reader, existing: string, section: string, k: nat)
    requires Trim(existing) != "" && SearchHeading(parse, Split(existing, '\n')) == Some(k)
    ensures k < |Split(existing, '\n')|
    ensures var lines := Split(existing, '\n');
            PrependRelease(parse, existing, section) ==
            (if k == 0 then "" else Join(lines[..k], "\n") + "\n") + section + "\n" + Join(lines[k..], "\n")
  {
    assert "\n" == ['\n'];
    var lines := Split(existing, '\n');
    SearchFinds(parse, lines);
    OffsetSplits(lines, k);
    JoinSplit(existing, '\n');
  }

  lemma SplitTwo(a: string, b: string)
    ensures Split(a + "\n" + b, '\n') == Split(a, '\n') + Split(b, '\n')
  {
    assert "\n" == ['\n'];
    SplitConcat(a, b, '\n');
  }

  lemma SplitThree(a: string, b: string, c: string)
    ensures Split(a + "\n" + b + "\n" + c, '\n') == Split(a, '\n') + Split(b, '\n') + Split(c, '\n')
  {
    SplitTwo(a + "\n" + b, c);
    SplitTwo(a, b);
  }

  lemma LinesAround(pre: seq<string>, section: string, post: seq<string>)
    requires post != [] && Split(Join(post, "\n"), '\n') == post
    requires pre != [] ==> Split(Join(pre, "\n"), '\n') == pre
    ensures Split((if pre == [] then "" else Join(pre, "\n") + "\n") + section + "\n" + Join(post, "\n"), '\n') ==
            pre + Split(section, '\n') + post
  {
    if pre == [] {
      assert "" + section == section;
      SplitTwo(section, Join(post, "\n"));
      assert pre + Split(section, '\n') == Split(section, '\n');
    } else {
      SplitThree(Join(pre, "\n"), section, Join(post, "\n"));
    }
  }

  lemma AroundTheFirstHeading(parse: Reader, existing: string, section: string)
    returns (pre: seq<string>, post: seq<string>)
    requires Trim(existing) != "" && SearchAt(parse, existing).Some?
    ensures Around(parse, existing, section, pre, post)
  {
    var lines := Split(existing, '\n');
    var k := SearchHeading(parse, lines).value;
    PrependedAt(parse, existing, section, k);
    SearchFinds(parse, lines);
    SplitPiecesFree(existing, '\n');
    LinesFree(lines, k);
    pre, post := lines[..k], lines[k..];
    LinesAround(pre, section, post);
    SectionsAfter(parse, existing, k);
  }

  lemma SectionsAfter(parse: Reader, existing: string, k: nat)
    requires var lines := Split(existing, '\n'); k <= |lines| && NoHeadings(parse, lines[..k])
    ensures Sections(parse, existing) == SectionsFrom(parse, Split(existing, '\n')[k..], None)
  {
    var lines := Split(existing, '\n');
    assert lines == lines[..k] + lines[k..];
    PreambleIsSkipped(parse, lines[..k], lines[k..]);
  }

  /** The sections of a file of that shape. */
  lemma SectionsAround(parse: Reader, pre: seq<string>, section: seq<string>, post: seq<string>, heading: Heading)
    requires NoHeadings(parse, pre) && section != [] && parse(section[0]) == Some(heading)
    requires post != [] ==> parse(post[0]).Some?
    ensures NoHeadings(parse, section[1..]) ==>
              SectionsFrom(parse, pre + section + post, None) ==
              [Section(heading.version, heading.date, Trim(Join(section[1..], "\n")))] + SectionsFrom(parse, post, None)
    ensures |SectionsFrom(parse, pre + section + post, None)| ==
            1 + Headings(parse, section[1..]) + |SectionsFrom(parse, post, None)|
  {
    var rest := section[1..];
    assert pre + section + post == pre + (section + post);
    PreambleIsSkipped(parse, pre, section + post);
    assert (section + post)[0] == section[0] && (section + post)[1..] == rest + post;
    assert Read(parse, section[0], None) == ([], Some(Current(heading, [])));
    assert SectionsFrom(parse, section + post, None) == [] + SectionsFrom(parse, rest + post, Some(Current(heading, [])));
    OneSectionAHeading(parse, rest + post, Some(Current(heading, [])));
    HeadingsAdd(parse, rest, post);
    OneSectionAHeading(parse, post, None);
    if NoHeadings(parse, rest) {
      BodyIsCollected(parse, Current(heading, []), rest, post);
      assert [] + rest == rest;
      HeadingEndsBody(parse, Current(heading, rest), post);
    }
  }

  /** A heading, or the end of the file, releases the section being read. */
  lemma HeadingEndsBody(parse: Reader, current: Current, post: seq<string>)
    requires post != [] ==> parse(post[0]).Some?
    ensures SectionsFrom(parse, post, Some(current)) == Flushed(Some(current)) + SectionsFrom(parse, post, None)
  {
    if post != [] {
      assert Read(parse, post[0], Some(current)).1 == Read(parse, post[0], None).1;
      assert Read(parse, post[0], Some(current)).0 == Flushed(Some(current));
      assert Read(parse, post[0], None).0 == [];
    }
  }

  lemma BlankSearch(parse: Reader)
    requires ReadsHeadings(parse)
    ensures SearchAt(parse, "").None?
  {
    assert Split("", '\n') == [""];
    assert parse("").None?;
    assert [""][1..] == [];
  }

  lemma PrependThenRead(parse: Reader, existing: string, section: string, heading: Heading)
    requires ReadsHeadings(parse) && parse(Split(section, '\n')[0]) == Some(heading)
    ensures var body := Split(section, '\n')[1..];
            Sections(parse, PrependRelease(parse, existing, section)) ==
            [Section(heading.version, heading.date, Trim(Join(body, "\n")))] + Sections(parse, existing)
            <==> NoHeadings(parse, body)
  {
    var pre, post;
    if Trim(existing) != "" && SearchAt(parse, existing).Some? {
      pre, post := AroundTheFirstHeading(parse, existing, section);
    } else if Trim(existing) == "" {
      AroundBlank(parse, existing, section);
      pre, post := HEADER_LINES, [];
    } else {
      pre := AroundProse(parse, existing, section);
      post := [];
    }
    var lines := Split(section, '\n');
    SectionsAround(parse, pre, lines, post, heading);
    HeadingsAdd(parse, lines[1..], []);
  }

  /**
   Prepending only inserts: the section goes in before the first release heading, or else behind
   what the file says or the header, and nothing but white space at the end is lost.
   */
  lemma PrependOnlyInserts(parse: Reader, existing: string, section: string) returns (pre: string, post: string)
    ensures Trim(existing) == "" && parse("").None? ==>
              PrependRelease(parse, existing, section) == Join(HEADER_LINES, "\n") + "\n" + section
    ensures Trim(existing) != "" && NoHeadings(parse, Split(existing, '\n')) ==>
              PrependRelease(parse, existing, section) == TrimEnd(existing) + "\n" + "\n" + section
    ensures Trim(existing) != "" && !NoHeadings(parse, Split(existing, '\n')) ==>
              && existing == pre + post
              && PrependRelease(parse, existing, section) == pre + section + "\n" + post
              && StartsAtFirstHeading(parse, pre, post)
  {
    pre, post := "", "";
    SearchFinds(parse, Split(existing, '\n'));
    if Trim(existing) == "" {
      InsertsIntoBlank(parse, existing, section);
    } else if SearchHeading(parse, Split(existing, '\n')).Some? {
      pre, post := InsertsBeforeHeading(parse, existing, section);
    } else {
      PrependedAfter(parse, existing, section);
    }
  }

  lemma InsertsIntoBlank(parse: Reader, existing: string, section: string)
    requires Trim(existing) == ""
    ensures parse("").None? ==> PrependRelease(parse, existing, section) == Join(HEADER_LINES, "\n") + "\n" + section
  {
    if parse("").None? {
      assert Split("", '\n') == [""];
      assert [""][1..] == [];
      assert SearchAt(parse, "").None?;
    }
  }

  lemma InsertsBeforeHeading(parse: Reader, existing: string, section: string) returns (pre: string, post: string)
    requires Trim(existing) != "" && SearchHeading(parse, Split(existing, '\n')).Some?
    ensures existing == pre + post && StartsAtFirstHeading(parse, pre, post)
    ensures PrependRelease(parse, existing, section) == pre + section + "\n" + post
  {
    var lines := Split(existing, '\n');
    var k := SearchHeading(parse, lines).value;
    SearchFinds(parse, lines);
    PrependedAt(parse, existing, section, k);
    pre, post := if k == 0 then "" else Join(lines[..k], "\n") + "\n", Join(lines[k..], "\n");
    TextSplits(existing, k);
    BeforeAndAfter(parse, existing, k, pre, post);
  }

  lemma TextSplits(text: string, k: nat)
    requires k < |Split(text, '\n')|
    ensures var lines := Split(text, '\n');
            text == (if k == 0 then "" else Join(lines[..k], "\n") + "\n") + Join(lines[k..], "\n")
  {
    var lines := Split(text, '\n');
    assert "\n" == ['\n'];
    JoinSplit(text, '\n');
    OffsetSplits(lines, k);
    assert text == text[..Offset(lines, k)] + text[Offset(lines, k)..];
  }

  lemma BeforeAndAfter(parse: Reader, existing: string, k: nat, pre: string, post: string)
    requires k < |Split(existing, '\n')| && NoHeadings(parse, Split(existing, '\n')[..k])
    requires parse(Split(existing, '\n')[k]).Some?
    requires pre == (if k == 0 then "" else Join(Split(existing, '\n')[..k], "\n") + "\n")
    requires post == Join(Split(existing, '\n')[k..], "\n")
    ensures StartsAtFirstHeading(parse, pre, post)
  {
    var lines := Split(existing, '\n');
    SplitPiecesFree(existing, '\n');
    LinesFree(lines, k);
    assert lines[k..][0] == lines[k];
    if k > 0 {
      EndsLine(Join(lines[..k], "\n"), pre);
    }
  }

  lemma EndsLine(line: string, text: string)
    requires text == line + "\n"
    ensures text != "" && text[|text| - 1] == '\n' && text[..|text| - 1] == line
  {
  }

  /** `post` begins with a release heading, and what stands before it ends a line and holds none. */
  ghost predicate StartsAtFirstHeading(parse: Reader, pre: string, post: string) {
    && parse(Split(post, '\n')[0]).Some?
    && (pre == "" || (pre[|pre| - 1] == '\n' && NoHeadings(parse, Split(pre[..|pre| - 1], '\n'))))
  }

  lemma HeaderHoldsNoHeading()
    ensures forall i | 0 <= i < |HEADER_LINES| :: !(HASHES <= HEADER_LINES[i])
  {
    assert HEADER_TITLE[1] != HASHES[1];
    assert HEADER_FIRST[0] != HASHES[0] && HEADER_SECOND[0] != HASHES[0] && HEADER_THIRD[0] != HASHES[0];
  }

  lemma HeaderHasNoHeadings()
    ensures NoHeadings(ParseHeading, HEADER_LINES)
  {
    HeaderHoldsNoHeading();
    var lines := HEADER_LINES;
    forall i | 0 <= i < |lines|
      ensures ParseHeading(lines[i]).None?
    {
      OtherwiseNoHeading(lines[i]);
    }
  }

  lemma ReadsTheHeadings()
    ensures ReadsHeadings(ParseHeading)
  {
    HeaderHasNoHeadings();
    forall line | AllSpace(line) {
      SpaceIsNoHeading(line);
    }
    forall line, space | ParseHeading(line).Some? && AllSpace(space) {
      HeadingIgnoresTrailing(line, space);
    }
  }

  /**
   Parsing after prepending gives the new release followed by the old ones exactly when no line of
   its body is itself a release heading.
   */
  lemma PrependThenParse(existing: string, section: string, heading: Heading)
    requires ParseHeading(Split(section, '\n')[0]) == Some(heading)
    ensures var body := Split(section, '\n')[1..];
            Sections(ParseHeading, PrependRelease(ParseHeading, existing, section)) ==
            [Section(heading.version, heading.date, Trim(Join(body, "\n")))] + Sections(ParseHeading, existing)
            <==> NoHeadings(ParseHeading, body)
  {
    ReadsTheHeadings();
    PrependThenRead(ParseHeading, existing, section, heading);
  }
}
