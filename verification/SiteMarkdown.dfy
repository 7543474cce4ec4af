/** The line filter of `siteMarkdown` in `content.ts`: what of a README reaches the site. */
module SiteMarkdown {
  import opened Prelude

  /** An ATX heading of level 1 or 2; `excluded` is what `isExcluded` says of its text. */
  datatype Heading = Heading(level: nat, excluded: bool)

  /** A line as the four patterns read it. */
  datatype Line = Line(text: string, fence: bool, opens: bool, closes: bool, heading: Option<Heading>)

  /** The patterns start differently, so a fence line is none of the others. */
  predicate WellRead(line: Line) {
    line.fence ==> !line.opens && !line.closes && line.heading.None?
  }

  datatype State = State(fenced: bool, dropping: bool, centered: bool)

  const START := State(false, false, false)

  predicate Drops(heading: Heading) {
    heading.level == 2 && heading.excluded
  }

  lemma OnlyLevelTwoDrops(heading: Heading)
    ensures Drops(heading) <==> heading.excluded && heading.level == 2
  {
  }

  function After(s: State, line: Line): State {
    var fenced := if line.fence then !s.fenced else s.fenced;
    if fenced then s.(fenced := true)
    else if s.centered then State(false, s.dropping, !line.closes)
    else if line.opens then State(false, s.dropping, true)
    else State(false, if line.heading.Some? then Drops(line.heading.value) else s.dropping, false)
  }

  /** Centred lines and the line that opens the block are skipped, unless a fence is open. */
  predicate Keeps(s: State, line: Line) {
    var t := After(s, line);
    !t.dropping && (t.fenced || !(s.centered || line.opens))
  }

  function Kept(s: State, lines: seq<Line>): seq<Line>
    decreases |lines|
  {
    if lines == [] then []
    else (if Keeps(s, lines[0]) then [lines[0]] else []) + Kept(After(s, lines[0]), lines[1..])
  }

  lemma KeepOneLine(kept: seq<Line>, s: State, lines: seq<Line>, i: nat)
    requires i < |lines|
    ensures kept + Kept(s, lines[i..]) ==
            (if Keeps(s, lines[i]) then kept + [lines[i]] else kept) + Kept(After(s, lines[i]), lines[i + 1..])
  {
    assert lines[i..][0] == lines[i] && lines[i..][1..] == lines[i + 1..];
  }

  method SiteLines(lines: seq<Line>) returns (kept: seq<Line>)
    ensures kept == Kept(START, lines)
  {
    var fenced, dropping, centered := false, false, false;
    kept := [];
    var i := 0;
    while i < |lines|
      invariant 0 <= i <= |lines|
      invariant kept + Kept(State(fenced, dropping, centered), lines[i..]) == Kept(START, lines)
    {
      var line := lines[i];
      KeepOneLine(kept, State(fenced, dropping, centered), lines, i);
      i := i + 1;
      if line.fence {
        fenced := !fenced;
      }
      if !fenced {
        if centered {
          centered := !line.closes;
          continue;
        }
        if line.opens {
          centered := true;
          continue;
        }
        if line.heading.Some? {
          dropping := line.heading.value.level == 2 && line.heading.value.excluded;
        }
      }
      if !dropping {
        kept := kept + [line];
      }
    }
  }

  // ---------------------------------------------------------------------------
  // Filtering twice
  // ---------------------------------------------------------------------------

  function StateAt(s: State, lines: seq<Line>, i: nat): State
    requires i <= |lines|
  {
    if i == 0 then s else After(StateAt(s, lines, i - 1), lines[i - 1])
  }

  /** No fence line falls inside a centred block. */
  ghost predicate NoFenceInCentered(s: State, lines: seq<Line>)
    decreases |lines|
  {
    lines != [] ==> !(s.centered && lines[0].fence) && NoFenceInCentered(After(s, lines[0]), lines[1..])
  }

  /** Run again on what it keeps, the filter keeps all of it. */
  lemma {:induction false} KeptIsKept(s: State, t: State, lines: seq<Line>)
    requires forall i | 0 <= i < |lines| :: WellRead(lines[i])
    requires NoFenceInCentered(s, lines)
    requires s.centered ==> !s.fenced
    requires t == State(s.fenced && !s.dropping, false, false)
    ensures Kept(t, Kept(s, lines)) == Kept(s, lines)
    decreases |lines|
  {
    if lines != [] {
      var line := lines[0];
      assert WellRead(line);
      var s', rest := After(s, line), Kept(After(s, line), lines[1..]);
      if Keeps(s, line) {
        assert Kept(s, lines)[1..] == rest;
        assert Keeps(t, line);
        KeptIsKept(s', After(t, line), lines[1..]);
      } else {
        assert Kept(s, lines) == rest;
        KeptIsKept(s', t, lines[1..]);
      }
    }
  }

  lemma FilterTwiceIsFilterOnce(lines: seq<Line>)
    requires forall i | 0 <= i < |lines| :: WellRead(lines[i])
    requires NoFenceInCentered(START, lines)
    ensures Kept(START, Kept(START, lines)) == Kept(START, lines)
  {
    KeptIsKept(START, START, lines);
  }

  predicate IsStart(line: Line) {
    line.opens || (line.heading.Some? && Drops(line.heading.value))
  }

  /** An unfenced line that starts a centred block or an excluded section. */
  predicate Starts(lines: seq<Line>, i: nat)
    requires i < |lines|
  {
    !After(StateAt(START, lines, i), lines[i]).fenced && IsStart(lines[i])
  }

  lemma {:induction false} KeptIsShorter(s: State, lines: seq<Line>)
    ensures |Kept(s, lines)| <= |lines|
    decreases |lines|
  {
    if lines != [] {
      KeptIsShorter(After(s, lines[0]), lines[1..]);
    }
  }

  predicate KeepsEach(s: State, lines: seq<Line>)
    decreases |lines|
  {
    lines != [] ==> Keeps(s, lines[0]) && KeepsEach(After(s, lines[0]), lines[1..])
  }

  /** All lines are kept exactly when each is. */
  lemma {:induction false} AllKeptIff(s: State, lines: seq<Line>)
    ensures Kept(s, lines) == lines <==> KeepsEach(s, lines)
    decreases |lines|
  {
    if lines != [] {
      var s', rest := After(s, lines[0]), lines[1..];
      KeptIsShorter(s', rest);
      AllKeptIff(s', rest);
      assert lines == [lines[0]] + rest;
      if Keeps(s, lines[0]) {
        assert Kept(s, lines)[1..] == Kept(s', rest);
      }
    }
  }

  lemma {:induction false} KeepsEachIs(s: State, lines: seq<Line>)
    ensures KeepsEach(s, lines) <==> forall i | 0 <= i < |lines| :: Keeps(StateAt(s, lines, i), lines[i])
    decreases |lines|
  {
    if lines != [] {
      var s', rest := After(s, lines[0]), lines[1..];
      KeepsEachIs(s', rest);
      forall i | 0 < i < |lines|
        ensures Keeps(StateAt(s, lines, i), lines[i]) <==> Keeps(StateAt(s', rest, i - 1), rest[i - 1])
      {
        StateShifts(s, lines, i);
      }
      if KeepsEach(s, lines) {
        forall i | 0 <= i < |lines|
          ensures Keeps(StateAt(s, lines, i), lines[i])
        {
          assert i > 0 ==> Keeps(StateAt(s', rest, i - 1), rest[i - 1]);
        }
      }
      if forall i | 0 <= i < |lines| :: Keeps(StateAt(s, lines, i), lines[i]) {
        assert Keeps(StateAt(s, lines, 0), lines[0]);
        forall i | 0 <= i < |rest|
          ensures Keeps(StateAt(s', rest, i), rest[i])
        {
          assert Keeps(StateAt(s, lines, i + 1), lines[i + 1]);
        }
      }
    }
  }

  /** Before anything is dropped, the filter is neither in a centred block nor in an excluded section. */
  lemma {:induction false} StaysOpen(lines: seq<Line>, n: nat)
    requires n <= |lines| && forall i | 0 <= i < n :: !Starts(lines, i)
    ensures !StateAt(START, lines, n).dropping && !StateAt(START, lines, n).centered
  {
    if n > 0 {
      StaysOpen(lines, n - 1);
      assert !Starts(lines, n - 1);
    }
  }

  /**
   The filter keeps all of its input exactly when no unfenced line of it starts a centred block or
   an excluded section. Of a filter's own output this says when a second pass changes nothing,
   whatever fences the first pass left open.
   */
  lemma KeepsAllIff(lines: seq<Line>)
    ensures Kept(START, lines) == lines <==> forall i | 0 <= i < |lines| :: !Starts(lines, i)
  {
    AllKeptIff(START, lines);
    KeepsEachIs(START, lines);
    if forall i | 0 <= i < |lines| :: !Starts(lines, i) {
      forall i | 0 <= i < |lines|
        ensures Keeps(StateAt(START, lines, i), lines[i])
      {
        StaysOpen(lines, i);
        assert !Starts(lines, i);
      }
    } else {
      var i :| 0 <= i < |lines| && Starts(lines, i);
      StartIsDropped(lines, i);
    }
  }

  /** The line that starts one is dropped, or something before it was. */
  lemma StartIsDropped(lines: seq<Line>, i: nat)
    requires i < |lines| && Starts(lines, i)
    ensures !Keeps(StateAt(START, lines, i), lines[i])
  {
  }

  // ---------------------------------------------------------------------------
  // What a kept line belongs to
  // ---------------------------------------------------------------------------

  function Fences(lines: seq<Line>): nat {
    if lines == [] then 0 else Fences(lines[..|lines| - 1]) + if lines[|lines| - 1].fence then 1 else 0
  }

  /** Whether line `i` stands in a fence: an odd number of fence lines up to and including it. */
  predicate Fenced(lines: seq<Line>, i: nat)
    requires i < |lines|
  {
    Fences(lines[..i + 1]) % 2 == 1
  }

  /** Whether a centred block is open before line `i`. */
  predicate Centered(lines: seq<Line>, i: nat)
    requires i <= |lines|
  {
    if i == 0 then false
    else if Fenced(lines, i - 1) then Centered(lines, i - 1)
    else if Centered(lines, i - 1) then !lines[i - 1].closes
    else lines[i - 1].opens
  }

  /** A heading that starts a section: outside fences and centred blocks. */
  predicate StartsSection(lines: seq<Line>, i: nat)
    requires i < |lines|
  {
    lines[i].heading.Some? && !Fenced(lines, i) && !Centered(lines, i) && !lines[i].opens
  }

  /** The heading of the section line `i` belongs to. */
  function SectionOf(lines: seq<Line>, i: nat): Option<Heading>
    requires i < |lines|
  {
    if StartsSection(lines, i) then lines[i].heading
    else if i == 0 then None
    else SectionOf(lines, i - 1)
  }

  lemma {:induction false} StateIs(lines: seq<Line>, i: nat)
    requires i < |lines|
    ensures var s := StateAt(START, lines, i + 1);
            && s.fenced == Fenced(lines, i)
            && s.centered == Centered(lines, i + 1)
            && (s.dropping <==> SectionOf(lines, i).Some? && Drops(SectionOf(lines, i).value))
  {
    assert lines[..i + 1][..i] == lines[..i];
    if i > 0 {
      StateIs(lines, i - 1);
    } else {
      assert Fences(lines[..0]) == 0;
    }
  }

  /** Line `i` is kept exactly when it is not in an excluded section and not part of a centred block. */
  lemma KeptIffWanted(lines: seq<Line>, i: nat)
    requires i < |lines|
    ensures Keeps(StateAt(START, lines, i), lines[i]) <==>
            && !(SectionOf(lines, i).Some? && Drops(SectionOf(lines, i).value))
            && (Fenced(lines, i) || !(Centered(lines, i) || lines[i].opens))
  {
    StateIs(lines, i);
    if i > 0 {
      StateIs(lines, i - 1);
    }
  }

  /** What is kept is the lines that are, in order. */
  function KeptIndices(lines: seq<Line>, n: nat): seq<nat>
    requires n <= |lines|
  {
    if n == 0 then []
    else KeptIndices(lines, n - 1) + if Keeps(StateAt(START, lines, n - 1), lines[n - 1]) then [n - 1] else []
  }

  lemma {:induction false} KeptSplits(s: State, a: seq<Line>, b: seq<Line>)
    ensures Kept(s, a + b) == Kept(s, a) + Kept(StateAt(s, a, |a|), b)
    decreases |a|
  {
    if a == [] {
      assert a + b == b;
    } else {
      assert (a + b)[1..] == a[1..] + b;
      KeptSplits(After(s, a[0]), a[1..], b);
      StateShifts(s, a, |a|);
    }
  }

  lemma {:induction false} StateShifts(s: State, lines: seq<Line>, i: nat)
    requires 0 < i <= |lines|
    ensures StateAt(s, lines, i) == StateAt(After(s, lines[0]), lines[1..], i - 1)
  {
    if i > 1 {
      StateShifts(s, lines, i - 1);
    }
  }

  lemma {:induction false} StateOfPrefix(s: State, lines: seq<Line>, n: nat, i: nat)
    requires i <= n <= |lines|
    ensures StateAt(s, lines[..n], i) == StateAt(s, lines, i)
  {
    if i > 0 {
      StateOfPrefix(s, lines, n, i - 1);
    }
  }

  lemma KeptOneMore(lines: seq<Line>, n: nat)
    requires 0 < n <= |lines|
    ensures Kept(START, lines[..n]) ==
            Kept(START, lines[..n - 1]) +
            if Keeps(StateAt(START, lines, n - 1), lines[n - 1]) then [lines[n - 1]] else []
  {
    var last := lines[n - 1];
    assert lines[..n] == lines[..n - 1] + [last];
    KeptSplits(START, lines[..n - 1], [last]);
    StateOfPrefix(START, lines, n - 1, n - 1);
    assert [last][1..] == [];
  }

  /** The lines at the kept indices, in order: nothing else is kept, and nothing is moved. */
  lemma {:induction false} KeptAreTheIndices(lines: seq<Line>, n: nat)
    requires n <= |lines|
    ensures forall k | 0 <= k < |KeptIndices(lines, n)| :: KeptIndices(lines, n)[k] < n
    ensures Kept(START, lines[..n]) == seq(|KeptIndices(lines, n)|, k requires 0 <= k < |KeptIndices(lines, n)| =>
                                                                    lines[KeptIndices(lines, n)[k]])
  {
    if n > 0 {
      KeptAreTheIndices(lines, n - 1);
      KeptOneMore(lines, n);
    }
  }

  lemma {:induction false} IndicesAreKept(lines: seq<Line>, n: nat, i: nat)
    requires n <= |lines|
    ensures i in KeptIndices(lines, n) <==> i < n && Keeps(StateAt(START, lines, i), lines[i])
  {
    if n > 0 {
      IndicesAreKept(lines, n - 1, i);
    }
  }

  /** No kept unfenced line belongs to an excluded section or to a centred block. */
  lemma NothingUnwantedIsKept(lines: seq<Line>, k: nat)
    requires k < |Kept(START, lines)|
    ensures |KeptIndices(lines, |lines|)| == |Kept(START, lines)|
    ensures var i := KeptIndices(lines, |lines|)[k];
            && i < |lines| && Kept(START, lines)[k] == lines[i]
            && !(SectionOf(lines, i).Some? && Drops(SectionOf(lines, i).value))
            && (!Fenced(lines, i) ==> !Centered(lines, i) && !lines[i].opens)
  {
    KeptAreTheIndices(lines, |lines|);
    assert lines[..|lines|] == lines;
    var i := KeptIndices(lines, |lines|)[k];
    IndicesAreKept(lines, |lines|, i);
    KeptIffWanted(lines, i);
  }

  // ---------------------------------------------------------------------------
  // When a second pass changes nothing
  // ---------------------------------------------------------------------------

  predicate IsKept(lines: seq<Line>, i: nat)
    requires i < |lines|
  {
    Keeps(StateAt(START, lines, i), lines[i])
  }

  /** The fence lines dropped before line `n`. */
  function DroppedFences(lines: seq<Line>, n: nat): nat
    requires n <= |lines|
  {
    if n == 0 then 0
    else DroppedFences(lines, n - 1) + if lines[n - 1].fence && !IsKept(lines, n - 1) then 1 else 0
  }

  /** A kept line that would start a block or an excluded section, once an odd number of fence lines before it is gone. */
  predicate Surfaces(lines: seq<Line>, i: nat)
    requires i < |lines|
  {
    IsKept(lines, i) && IsStart(lines[i]) && DroppedFences(lines, i) % 2 == 1
  }

  lemma {:induction false} FencesSplit(lines: seq<Line>, n: nat)
    requires n <= |lines|
    ensures Fences(lines[..n]) == Fences(Kept(START, lines[..n])) + DroppedFences(lines, n)
  {
    if n == 0 {
      assert lines[..0] == [];
    } else {
      FencesSplit(lines, n - 1);
      FencesOfPrefix(lines, n);
      FencesOfKept(lines, n);
    }
  }

  lemma FencesOfPrefix(lines: seq<Line>, n: nat)
    requires 0 < n <= |lines|
    ensures Fences(lines[..n]) == Fences(lines[..n - 1]) + if lines[n - 1].fence then 1 else 0
  {
    FencesOneMore(lines[..n - 1], lines[n - 1]);
    assert lines[..n] == lines[..n - 1] + [lines[n - 1]];
  }

  lemma FencesOfKept(lines: seq<Line>, n: nat)
    requires 0 < n <= |lines|
    ensures Fences(Kept(START, lines[..n])) ==
            Fences(Kept(START, lines[..n - 1])) + if lines[n - 1].fence && IsKept(lines, n - 1) then 1 else 0
  {
    var fewer := Kept(START, lines[..n - 1]);
    KeptOneMore(lines, n);
    FencesOneMore(fewer, lines[n - 1]);
    assert fewer + [] == fewer;
  }

  lemma FencesOneMore(lines: seq<Line>, last: Line)
    ensures Fences(lines + [last]) == Fences(lines) + if last.fence then 1 else 0
  {
    assert (lines + [last])[..|lines|] == lines;
  }

  /** A line that starts something is kept only inside a fence. */
  lemma KeptStartIsFenced(lines: seq<Line>, i: nat)
    requires i < |lines| && IsKept(lines, i) && IsStart(lines[i])
    ensures Fences(lines[..i + 1]) % 2 == 1
  {
    StateIs(lines, i);
    assert StateAt(START, lines, i + 1) == After(StateAt(START, lines, i), lines[i]);
  }

  /** The last of the kept lines starts something among them exactly when it surfaces. */
  lemma LastStartsIff(lines: seq<Line>, n: nat)
    requires 0 < n <= |lines| && IsKept(lines, n - 1)
    ensures var kept := Kept(START, lines[..n]); kept != [] && (Starts(kept, |kept| - 1) <==> Surfaces(lines, n - 1))
  {
    var kept := Kept(START, lines[..n]);
    KeptOneMore(lines, n);
    FencesSplit(lines, n);
    StateIs(kept, |kept| - 1);
    assert kept[..|kept|] == kept;
    if IsStart(lines[n - 1]) {
      KeptStartIsFenced(lines, n - 1);
    }
  }

  lemma StartsOfPrefix(lines: seq<Line>, n: nat, i: nat)
    requires i < n <= |lines|
    ensures Starts(lines[..n], i) <==> Starts(lines, i)
  {
    StateOfPrefix(START, lines, n, i);
  }

  predicate SomeStarts(lines: seq<Line>) {
    exists k :: 0 <= k < |lines| && Starts(lines, k)
  }

  predicate SomeSurfaces(lines: seq<Line>, n: nat)
    requires n <= |lines|
  {
    exists i :: 0 <= i < n && Surfaces(lines, i)
  }

  lemma SomeStartsOneMore(lines: seq<Line>, last: Line)
    ensures SomeStarts(lines + [last]) <==> SomeStarts(lines) || Starts(lines + [last], |lines|)
  {
    var more := lines + [last];
    assert more[..|lines|] == lines;
    forall k | 0 <= k < |lines| {
      StartsOfPrefix(more, |lines|, k);
    }
    if SomeStarts(lines) {
      var k :| 0 <= k < |lines| && Starts(lines, k);
      assert Starts(more, k);
    }
    if SomeStarts(more) {
      var k :| 0 <= k < |more| && Starts(more, k);
      assert k < |lines| ==> Starts(lines, k);
    }
  }

  lemma {:induction false} StartsIffSurfaces(lines: seq<Line>, n: nat)
    requires n <= |lines|
    ensures SomeStarts(Kept(START, lines[..n])) <==> SomeSurfaces(lines, n)
  {
    if n > 0 {
      StartsIffSurfaces(lines, n - 1);
      KeptOneMore(lines, n);
      var fewer := Kept(START, lines[..n - 1]);
      if IsKept(lines, n - 1) {
        LastStartsIff(lines, n);
        SomeStartsOneMore(fewer, lines[n - 1]);
      } else {
        assert fewer + [] == fewer && !Surfaces(lines, n - 1);
      }
      SomeSurfacesOneMore(lines, n);
    }
  }

  lemma SomeSurfacesOneMore(lines: seq<Line>, n: nat)
    requires 0 < n <= |lines|
    ensures SomeSurfaces(lines, n) <==> SomeSurfaces(lines, n - 1) || Surfaces(lines, n - 1)
  {
  }

  /** Of a whole text: a second pass changes nothing exactly when no kept line surfaces. */
  lemma FilterTwiceIff(lines: seq<Line>)
    ensures Kept(START, Kept(START, lines)) == Kept(START, lines) <==>
            forall i | 0 <= i < |lines| :: !Surfaces(lines, i)
  {
    var kept := Kept(START, lines);
    KeepsAllIff(kept);
    assert Kept(START, kept) == kept <==> !SomeStarts(kept);
    StartsIffSurfaces(lines, |lines|);
    assert lines[..|lines|] == lines;
    assert SomeSurfaces(lines, |lines|) <==> !forall i | 0 <= i < |lines| :: !Surfaces(lines, i);
  }

  lemma KeptCons(s: State, line: Line, rest: seq<Line>)
    ensures Kept(s, [line] + rest) == (if Keeps(s, line) then [line] else []) + Kept(After(s, line), rest)
  {
    assert ([line] + rest)[1..] == rest;
  }

  /**
   A fence inside a centred block lets the second run drop what the first one kept. The lines: a
   block opens, holds a fence and closes; then a fence holds an excluded heading.
   */
  lemma FenceInCenteredIsUnstable(open: Line, fence: Line, close: Line, heading: Line)
    requires open == Line(open.text, false, true, false, None) && fence == Line(fence.text, true, false, false, None)
    requires close == Line(close.text, false, false, true, None)
    requires heading == Line(heading.text, false, false, false, Some(Heading(2, true)))
    ensures var lines := [open] + ([fence] + ([fence] + ([close] + ([fence] + ([heading] + ([fence] + []))))));
            && Kept(START, lines) == [fence, fence, heading, fence]
            && Kept(START, Kept(START, lines)) == [fence, fence]
  {
    var fenced, centered, dropping := State(true, false, false), State(false, false, true), State(false, true, false);
    KeptCons(START, open, [fence] + ([fence] + ([close] + ([fence] + ([heading] + ([fence] + []))))));
    KeptCons(centered, fence, [fence] + ([close] + ([fence] + ([heading] + ([fence] + [])))));
    KeptCons(State(true, false, true), fence, [close] + ([fence] + ([heading] + ([fence] + []))));
    KeptCons(centered, close, [fence] + ([heading] + ([fence] + [])));
    KeptCons(START, fence, [heading] + ([fence] + []));
    KeptCons(fenced, heading, [fence] + []);
    KeptCons(fenced, fence, []);
    var once := [fence] + ([fence] + ([heading] + ([fence] + [])));
    assert [fence, fence, heading, fence] == once;
    KeptCons(START, fence, [fence] + ([heading] + ([fence] + [])));
    KeptCons(fenced, fence, [heading] + ([fence] + []));
    KeptCons(START, heading, [fence] + []);
    KeptCons(dropping, fence, []);
    assert After(dropping, fence) == State(true, true, false);
  }
}
