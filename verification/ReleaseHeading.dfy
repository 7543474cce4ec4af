/** The release heading of `changelog.ts`, read character by character. */
module ReleaseHeading {
  import opened Prelude
  import opened Decimal

  // ---------------------------------------------------------------------------
  // White space, as `trim` and `\s` have it
  // ---------------------------------------------------------------------------

  predicate IsSpace(c: char) {
    || '\t' <= c <= '\r' || c == ' ' || c == '\U{00A0}' || c == '\U{1680}' || '\U{2000}' <= c <= '\U{200A}'
    || c == '\U{2028}' || c == '\U{2029}' || c == '\U{202F}' || c == '\U{205F}' || c == '\U{3000}' || c == '\U{FEFF}'
  }

  predicate AllSpace(s: string) {
    forall i | 0 <= i < |s| :: IsSpace(s[i])
  }

  function TrimStart(s: string): string {
    if s == "" || !IsSpace(s[0]) then s else TrimStart(s[1..])
  }

  function TrimEnd(s: string): string {
    if s == "" || !IsSpace(s[|s| - 1]) then s else TrimEnd(s[..|s| - 1])
  }

  function Trim(s: string): string {
    TrimEnd(TrimStart(s))
  }

  lemma {:induction false} TrimEndIsPrefix(s: string)
    ensures TrimEnd(s) <= s && AllSpace(s[|TrimEnd(s)|..])
  {
    if s != "" && IsSpace(s[|s| - 1]) {
      TrimEndIsPrefix(s[..|s| - 1]);
    }
  }

  lemma {:induction false} TrimOfSpace(s: string)
    requires Trim(s) == ""
    ensures AllSpace(s)
  {
    TrimEndIsPrefix(TrimStart(s));
    TrimStartIsSuffix(s);
  }

  lemma {:induction false} TrimStartIsSuffix(s: string)
    ensures |TrimStart(s)| <= |s| && AllSpace(s[..|s| - |TrimStart(s)|])
    ensures s[|s| - |TrimStart(s)|..] == TrimStart(s)
  {
    if s != "" && IsSpace(s[0]) {
      TrimStartIsSuffix(s[1..]);
    }
  }

  /** Trimming takes the white space at the ends and only that. */
  lemma TrimTakesTheEnds(s: string) returns (before: string, after: string)
    ensures s == before + Trim(s) + after && AllSpace(before) && AllSpace(after)
    ensures Trim(s) != "" ==> !IsSpace(Trim(s)[0]) && !IsSpace(Trim(s)[|Trim(s)| - 1])
  {
    var t := TrimStart(s);
    TrimStartIsSuffix(s);
    TrimEndIsPrefix(t);
    StartIsNoSpace(s);
    EndIsNoSpace(t);
    before, after := s[..|s| - |t|], t[|Trim(s)|..];
    assert t == Trim(s) + after;
    assert Trim(s) != "" ==> Trim(s)[0] == t[0];
  }

  lemma {:induction false} StartIsNoSpace(s: string)
    ensures TrimStart(s) != "" ==> !IsSpace(TrimStart(s)[0])
  {
    if s != "" && IsSpace(s[0]) {
      StartIsNoSpace(s[1..]);
    }
  }

  lemma {:induction false} EndIsNoSpace(s: string)
    ensures TrimEnd(s) != "" ==> !IsSpace(TrimEnd(s)[|TrimEnd(s)| - 1])
  {
    if s != "" && IsSpace(s[|s| - 1]) {
      EndIsNoSpace(s[..|s| - 1]);
    }
  }

  // ---------------------------------------------------------------------------
  // The release heading: `## 2.0.1 - 2026-08-09`
  // ---------------------------------------------------------------------------

  datatype Heading = Heading(version: string, date: string)

  const HASHES := "## "
  const DASH := " - "

  function Eat(prefix: string, s: string): Option<string> {
    if prefix <= s then Some(s[|prefix|..]) else None
  }

  function EatDigits(s: string): Option<(string, string)> {
    var n := DigitSpan(s);
    if n == 0 then None else Some((s[..n], s[n..]))
  }

  function EatVersion(s: string): Option<(string, string)> {
    var (a, r1) :- EatDigits(s);
    var r2 :- Eat(".", r1);
    var (b, r3) :- EatDigits(r2);
    var r4 :- Eat(".", r3);
    var (c, rest) :- EatDigits(r4);
    Some((Dotted(a, b, c), rest))
  }

  function Dotted(a: string, b: string, c: string): string {
    a + "." + b + "." + c
  }

  /** `\d{4}-\d{2}-\d{2}` */
  predicate IsDate(s: string) {
    && |s| == 10 && s[4] == '-' && s[7] == '-'
    && AllDigits(s[..4]) && AllDigits(s[5..7]) && AllDigits(s[8..])
  }

  /** The date and the white space that may end the line. */
  function ParseDate(version: string, s: string): Option<Heading> {
    if |s| >= 10 && IsDate(s[..10]) && AllSpace(s[10..]) then Some(Heading(version, s[..10])) else None
  }

  function ParseRelease(s: string): Option<Heading> {
    var (version, rest) :- EatVersion(s);
    var date :- Eat(DASH, rest);
    ParseDate(version, date)
  }

  function ParseHeading(line: string): Option<Heading> {
    var release :- Eat(HASHES, line);
    ParseRelease(release)
  }

  lemma EatDigitsOf(digits: string, rest: string)
    requires digits != "" && AllDigits(digits) && (rest == "" || !IsDigit(rest[0]))
    ensures EatDigits(digits + rest) == Some((digits, rest))
  {
    SpanOfDigits(digits, rest);
    assert (digits + rest)[..|digits|] == digits && (digits + rest)[|digits|..] == rest;
  }

  lemma EatPrefix(prefix: string, rest: string)
    ensures Eat(prefix, prefix + rest) == Some(rest)
  {
    assert (prefix + rest)[|prefix|..] == rest;
  }

  lemma EatVersionOf(a: string, b: string, c: string, rest: string)
    requires a != "" && b != "" && c != "" && AllDigits(a) && AllDigits(b) && AllDigits(c)
    requires rest == "" || !IsDigit(rest[0])
    ensures EatVersion(Dotted(a, b, c) + rest) == Some((Dotted(a, b, c), rest))
  {
    var r4 := c + rest;
    var r3 := "." + r4;
    var r2 := b + r3;
    var r1 := "." + r2;
    assert Dotted(a, b, c) + rest == a + r1;
    EatDigitsOf(a, r1);
    EatPrefix(".", r2);
    EatDigitsOf(b, r3);
    EatPrefix(".", r4);
    EatDigitsOf(c, rest);
  }

  lemma HeadingIsParsed(a: string, b: string, c: string, date: string)
    requires a != "" && b != "" && c != "" && AllDigits(a) && AllDigits(b) && AllDigits(c)
    requires IsDate(date)
    ensures ParseHeading(HASHES + Dotted(a, b, c) + DASH + date) == Some(Heading(Dotted(a, b, c), date))
  {
    var r3 := date;
    var r2 := DASH + r3;
    assert HASHES + Dotted(a, b, c) + DASH + date == HASHES + (Dotted(a, b, c) + r2);
    EatPrefix(HASHES, Dotted(a, b, c) + r2);
    EatVersionOf(a, b, c, r2);
    EatPrefix(DASH, r3);
    assert r3[..10] == date && r3[10..] == "";
  }

  lemma EatenDigits(s: string)
    requires EatDigits(s).Some?
    ensures var (digits, rest) := EatDigits(s).value; digits != "" && AllDigits(digits) && s == digits + rest
  {
  }

  lemma EatenPrefix(prefix: string, s: string)
    requires Eat(prefix, s).Some?
    ensures s == prefix + Eat(prefix, s).value
  {
  }

  lemma EatenVersion(s: string) returns (a: string, b: string, c: string)
    requires EatVersion(s).Some?
    ensures a != "" && b != "" && c != "" && AllDigits(a) && AllDigits(b) && AllDigits(c)
    ensures EatVersion(s).value.0 == Dotted(a, b, c) && s == EatVersion(s).value.0 + EatVersion(s).value.1
  {
    EatenDigits(s);
    var r1 := EatDigits(s).value.1;
    EatenPrefix(".", r1);
    var r2 := Eat(".", r1).value;
    EatenDigits(r2);
    var r3 := EatDigits(r2).value.1;
    EatenPrefix(".", r3);
    var r4 := Eat(".", r3).value;
    EatenDigits(r4);
    a, b, c := EatDigits(s).value.0, EatDigits(r2).value.0, EatDigits(r4).value.0;
    var rest := EatDigits(r4).value.1;
    DottedThen(a, b, c, rest);
  }

  lemma DottedThen(a: string, b: string, c: string, rest: string)
    ensures a + ("." + (b + ("." + (c + rest)))) == Dotted(a, b, c) + rest
  {
    assert Dotted(a, b, c) + rest == a + "." + b + "." + (c + rest);
    assert a + "." + b + "." + (c + rest) == a + "." + b + ("." + (c + rest));
    assert a + "." + b + ("." + (c + rest)) == a + "." + (b + ("." + (c + rest)));
  }

  lemma Regrouped(p: string, q: string, r: string, s: string, t: string)
    ensures p + (q + (r + (s + t))) == p + q + r + s + t
  {
    assert p + q + (r + (s + t)) == p + q + r + (s + t);
  }

  /** The converse: a line is read as a heading only if it is one, with nothing but white space behind it. */
  lemma ParsedIsHeading(line: string) returns (a: string, b: string, c: string, space: string)
    requires ParseHeading(line).Some?
    ensures a != "" && b != "" && c != "" && AllDigits(a) && AllDigits(b) && AllDigits(c) && AllSpace(space)
    ensures var heading := ParseHeading(line).value;
            && heading.version == a + "." + b + "." + c && IsDate(heading.date)
            && line == "## " + heading.version + " - " + heading.date + space
  {
    var release := Eat(HASHES, line).value;
    EatenPrefix(HASHES, line);
    var (version, rest) := EatVersion(release).value;
    a, b, c := EatenVersion(release);
    EatenPrefix(DASH, rest);
    var date := Eat(DASH, rest).value;
    space := date[10..];
    assert date == date[..10] + space;
    Regrouped(HASHES, version, DASH, date[..10], space);
  }

  /** White space after a heading does not matter. */
  lemma HeadingIgnoresTrailing(line: string, space: string)
    requires ParseHeading(line).Some? && AllSpace(space)
    ensures ParseHeading(line + space).Some?
  {
    EatGrows(HASHES, line, space);
    ReleaseIgnoresTrailing(Eat(HASHES, line).value, space);
  }

  lemma ReleaseIgnoresTrailing(s: string, space: string)
    requires ParseRelease(s).Some? && AllSpace(space)
    ensures ParseRelease(s + space).Some?
  {
    var (version, rest) := EatVersion(s).value;
    EatVersionGrows(s, space);
    EatGrows(DASH, rest, space);
    DateIgnoresTrailing(version, Eat(DASH, rest).value, space);
  }

  lemma DateIgnoresTrailing(version: string, s: string, space: string)
    requires ParseDate(version, s).Some? && AllSpace(space)
    ensures ParseDate(version, s + space).Some?
  {
    assert (s + space)[..10] == s[..10] && (s + space)[10..] == s[10..] + space;
  }

  lemma EatGrows(prefix: string, s: string, more: string)
    requires Eat(prefix, s).Some?
    ensures Eat(prefix, s + more) == Some(Eat(prefix, s).value + more)
  {
    assert (s + more)[..|prefix|] == s[..|prefix|];
    assert (s + more)[|prefix|..] == s[|prefix|..] + more;
  }

  lemma EatDigitsGrows(s: string, more: string)
    requires EatDigits(s).Some? && EatDigits(s).value.1 != ""
    ensures EatDigits(s + more) == Some((EatDigits(s).value.0, EatDigits(s).value.1 + more))
  {
    var n := DigitSpan(s);
    assert s + more == s[..n] + (s[n..] + more);
    EatDigitsOf(s[..n], s[n..] + more);
  }

  lemma EatVersionGrows(s: string, more: string)
    requires EatVersion(s).Some? && EatVersion(s).value.1 != ""
    ensures EatVersion(s + more) == Some((EatVersion(s).value.0, EatVersion(s).value.1 + more))
  {
    EatDigitsGrows(s, more);
    var r1 := EatDigits(s).value.1;
    EatGrows(".", r1, more);
    var r2 := Eat(".", r1).value;
    EatDigitsGrows(r2, more);
    var r3 := EatDigits(r2).value.1;
    EatGrows(".", r3, more);
    EatDigitsGrows(Eat(".", r3).value, more);
  }

  lemma OtherwiseNoHeading(line: string)
    requires !(HASHES <= line)
    ensures ParseHeading(line).None?
  {
  }

  lemma SpaceIsNoHeading(line: string)
    requires AllSpace(line)
    ensures ParseHeading(line).None?
  {
    assert HASHES[0] == '#' && !IsSpace('#');
    assert line != "" ==> IsSpace(line[0]);
    OtherwiseNoHeading(line);
  }
}
