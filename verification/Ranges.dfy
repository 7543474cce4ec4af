/** `formatRanges` of `coverage-report.ts`: uncovered lines collapsed into ranges. */
module Ranges {
  import opened Prelude
  import opened Text
  import opened Decimal

  datatype Range = Range(lo: nat, hi: nat)

  function Insert(x: nat, sorted: seq<nat>): seq<nat> {
    if sorted == [] || x <= sorted[0] then [x] + sorted else [sorted[0]] + Insert(x, sorted[1..])
  }

  function Sorted(lines: seq<nat>): seq<nat> {
    if lines == [] then [] else Insert(lines[0], Sorted(lines[1..]))
  }

  ghost predicate Ascending(s: seq<nat>) {
    forall i, j | 0 <= i < j < |s| :: s[i] <= s[j]
  }

  lemma {:induction false} InsertIsIn(x: nat, sorted: seq<nat>)
    ensures multiset(Insert(x, sorted)) == multiset{x} + multiset(sorted)
  {
    if sorted != [] && x > sorted[0] {
      InsertIsIn(x, sorted[1..]);
      assert sorted == [sorted[0]] + sorted[1..];
    }
  }

  ghost predicate AtLeast(s: seq<nat>, bound: nat) {
    forall i | 0 <= i < |s| :: bound <= s[i]
  }

  lemma {:induction false} InsertAtLeast(x: nat, sorted: seq<nat>, bound: nat)
    requires AtLeast(sorted, bound) && bound <= x
    ensures AtLeast(Insert(x, sorted), bound)
  {
    if sorted != [] && x > sorted[0] {
      InsertAtLeast(x, sorted[1..], bound);
    }
  }

  lemma {:induction false} InsertSorts(x: nat, sorted: seq<nat>)
    requires Ascending(sorted)
    ensures Ascending(Insert(x, sorted))
  {
    if sorted != [] && x > sorted[0] {
      InsertSorts(x, sorted[1..]);
      InsertAtLeast(x, sorted[1..], sorted[0]);
    }
  }

  lemma {:induction false} SortedIsSorted(lines: seq<nat>, bound: nat)
    ensures Ascending(Sorted(lines)) && multiset(Sorted(lines)) == multiset(lines) && |Sorted(lines)| == |lines|
    ensures AtLeast(lines, bound) ==> AtLeast(Sorted(lines), bound)
  {
    if lines != [] {
      SortedIsSorted(lines[1..], bound);
      InsertSorts(lines[0], Sorted(lines[1..]));
      InsertIsIn(lines[0], Sorted(lines[1..]));
      if AtLeast(lines, bound) {
        InsertAtLeast(lines[0], Sorted(lines[1..]), bound);
      }
      assert lines == [lines[0]] + lines[1..];
      assert |multiset(Sorted(lines))| == |multiset(lines)|;
    }
  }

  /** `previous && line === previous + 1`: after line 0 nothing continues, since 0 is falsy. */
  predicate Continues(previous: nat, line: nat) {
    previous != 0 && line == previous + 1
  }

  /** The ranges still to come, given the one under way and the lines left. */
  function Runs(start: nat, previous: nat, rest: seq<nat>): (ranges: seq<Range>)
    ensures ranges != []
    decreases |rest|
  {
    if rest == [] then [Range(start, previous)]
    else if Continues(previous, rest[0]) then Runs(start, rest[0], rest[1..])
    else [Range(start, previous)] + Runs(rest[0], rest[0], rest[1..])
  }

  function RangesOf(sorted: seq<nat>): seq<Range> {
    if sorted == [] then [] else Runs(sorted[0], sorted[0], sorted[1..])
  }

  function Show(range: Range): string {
    if range.lo == range.hi then ShowNat(range.lo) else ShowNat(range.lo) + "-" + ShowNat(range.hi)
  }

  function ShowAll(ranges: seq<Range>): seq<string> {
    seq(|ranges|, i requires 0 <= i < |ranges| => Show(ranges[i]))
  }

  lemma ShowOneMore(ranges: seq<Range>, last: Range)
    ensures ShowAll(ranges + [last]) == ShowAll(ranges) + [Show(last)]
  {
  }

  method FormatRanges(lines: seq<nat>) returns (text: string)
    ensures text == Join(ShowAll(RangesOf(Sorted(lines))), ", ")
  {
    if lines == [] {
      return "";
    }
    var sorted := Sorted(lines);
    SortedIsSorted(lines, 1);
    var start, previous, ranges := sorted[0], sorted[0], [];
    ghost var done: seq<Range> := [];
    var i := 1;
    while i < |sorted|
      invariant 1 <= i <= |sorted|
      invariant done + Runs(start, previous, sorted[i..]) == RangesOf(sorted)
      invariant ranges == ShowAll(done)
    {
      var line := sorted[i];
      assert sorted[i..][1..] == sorted[i + 1..];
      if Continues(previous, line) {
        previous := line;
      } else {
        ranges := ranges + [Show(Range(start, previous))];
        ShowOneMore(done, Range(start, previous));
        assert done + ([Range(start, previous)] + Runs(line, line, sorted[i + 1..])) ==
               (done + [Range(start, previous)]) + Runs(line, line, sorted[i + 1..]);
        done := done + [Range(start, previous)];
        start := line;
        previous := line;
      }
      i := i + 1;
    }
    assert sorted[i..] == [];
    ranges := ranges + [Show(Range(start, previous))];
    ShowOneMore(done, Range(start, previous));
    return Join(ranges, ", ");
  }

  // ---------------------------------------------------------------------------
  // Nothing lost
  // ---------------------------------------------------------------------------

  function From(lo: nat, hi: nat): seq<nat> {
    if lo > hi then [] else seq(hi - lo + 1, i requires 0 <= i => lo + i)
  }

  function Expand(ranges: seq<Range>): seq<nat> {
    if ranges == [] then [] else From(ranges[0].lo, ranges[0].hi) + Expand(ranges[1..])
  }

  lemma FromOne(x: nat)
    ensures From(x, x) == [x]
  {
  }

  lemma ExpandCons(head: Range, tail: seq<Range>)
    ensures Expand([head] + tail) == From(head.lo, head.hi) + Expand(tail)
  {
    assert ([head] + tail)[1..] == tail;
  }

  lemma {:induction false} RunsExpand(start: nat, previous: nat, rest: seq<nat>)
    requires start <= previous
    ensures Expand(Runs(start, previous, rest)) == From(start, previous) + rest
    decreases |rest|
  {
    if rest == [] {
      assert [Range(start, previous)][1..] == [];
      assert From(start, previous) + [] == From(start, previous);
    } else {
      assert rest == [rest[0]] + rest[1..];
      if Continues(previous, rest[0]) {
        RunsExpand(start, rest[0], rest[1..]);
        assert From(start, rest[0]) == From(start, previous) + [rest[0]];
      } else {
        RunsExpand(rest[0], rest[0], rest[1..]);
        ExpandCons(Range(start, previous), Runs(rest[0], rest[0], rest[1..]));
        FromOne(rest[0]);
      }
    }
  }

  lemma RangesExpand(sorted: seq<nat>)
    ensures Expand(RangesOf(sorted)) == sorted
  {
    if sorted != [] {
      RunsExpand(sorted[0], sorted[0], sorted[1..]);
      FromOne(sorted[0]);
      assert [sorted[0]] + sorted[1..] == sorted;
    }
  }

  /** Expanding the ranges in order gives the sorted lines back, repeats and zeros included. */
  lemma RangesLoseNothing(lines: seq<nat>)
    ensures Expand(RangesOf(Sorted(lines))) == Sorted(lines)
    ensures multiset(Expand(RangesOf(Sorted(lines)))) == multiset(lines)
  {
    RangesExpand(Sorted(lines));
    SortedIsSorted(lines, 1);
  }

  // ---------------------------------------------------------------------------
  // Reading the text
  // ---------------------------------------------------------------------------

  /** `7` is a line and `3-5` a range; anything else is no line. */
  function ReadRange(piece: string): Range {
    var ends := Split(piece, '-');
    if |ends| == 1 && AllDigits(ends[0]) then Range(ReadNat(ends[0]), ReadNat(ends[0]))
    else if |ends| == 2 && AllDigits(ends[0]) && AllDigits(ends[1]) then Range(ReadNat(ends[0]), ReadNat(ends[1]))
    else Range(1, 0)
  }

  function Unspaced(piece: string): string {
    if " " <= piece then piece[1..] else piece
  }

  function ReadRanges(text: string): seq<Range> {
    var pieces := Split(text, ',');
    seq(|pieces|, i requires 0 <= i < |pieces| => ReadRange(Unspaced(pieces[i])))
  }

  lemma DigitsAreFree(s: string)
    requires AllDigits(s)
    ensures Free(s, '-') && Free(s, ',') && !(" " <= s)
  {
    assert " "[0] == ' ' && !IsDigit(' ');
  }

  lemma ShownReadsBack(range: Range)
    ensures ReadRange(Show(range)) == range && Free(Show(range), ',') && !(" " <= Show(range))
  {
    var lo, hi := ShowNat(range.lo), ShowNat(range.hi);
    DigitsAreFree(lo);
    DigitsAreFree(hi);
    ReadShown(range.lo);
    ReadShown(range.hi);
    SplitFree(lo, '-');
    if range.lo != range.hi {
      assert "-" == ['-'];
      SplitFree(hi, '-');
      SplitConcat(lo, hi, '-');
      assert Show(range)[0] == lo[0];
    }
  }

  /** The first piece with `lead` before it and the others with a space. */
  function Spaced(lead: string, pieces: seq<string>): seq<string> {
    seq(|pieces|, i requires 0 <= i < |pieces| => (if i == 0 then lead else " ") + pieces[i])
  }

  /** Joining by a comma and a space is joining the spaced pieces by a comma. */
  lemma {:induction false} JoinSpaced(lead: string, pieces: seq<string>)
    requires pieces != []
    ensures lead + Join(pieces, ", ") == Join(Spaced(lead, pieces), ",")
    decreases |pieces|
  {
    var spaced := Spaced(lead, pieces);
    if |pieces| > 1 {
      var rest := Join(pieces[1..], ", ");
      JoinSpaced(" ", pieces[1..]);
      assert spaced[1..] == Spaced(" ", pieces[1..]);
      assert ", " == "," + " ";
      assert lead + (pieces[0] + ", " + rest) == (lead + pieces[0]) + "," + (" " + rest);
    }
  }

  lemma SpacedIsFree(lead: string, piece: string)
    requires Free(piece, ',') && (lead == "" || lead == " ")
    ensures Free(lead + piece, ',')
  {
    assert forall i | 0 <= i < |piece| :: (lead + piece)[|lead| + i] == piece[i];
    assert lead == " " ==> (lead + piece)[0] == ' ';
  }

  lemma SpacedSplits(pieces: seq<string>)
    requires pieces != [] && forall i | 0 <= i < |pieces| :: Free(pieces[i], ',')
    ensures Split(Join(pieces, ", "), ',') == Spaced("", pieces)
  {
    var spaced := Spaced("", pieces);
    forall i | 0 <= i < |spaced|
      ensures Free(spaced[i], ',')
    {
      SpacedIsFree(if i == 0 then "" else " ", pieces[i]);
    }
    JoinSpaced("", pieces);
    SplitsJoined(Join(pieces, ", "), spaced);
  }

  lemma SplitsJoined(text: string, pieces: seq<string>)
    requires pieces != [] && forall i | 0 <= i < |pieces| :: Free(pieces[i], ',')
    requires "" + text == Join(pieces, ",")
    ensures Split(text, ',') == pieces
  {
    assert "" + text == text;
    assert "," == [','];
    SplitJoin(pieces, ',');
  }

  lemma UnspacedIs(piece: string)
    requires !(" " <= piece)
    ensures Unspaced("" + piece) == piece && Unspaced(" " + piece) == piece
  {
    assert "" + piece == piece;
  }

  lemma {:induction false} AllReadBack(ranges: seq<Range>)
    requires ranges != []
    ensures ReadRanges(Join(ShowAll(ranges), ", ")) == ranges
  {
    var pieces := ShowAll(ranges);
    forall i | 0 <= i < |pieces|
      ensures ReadRange(pieces[i]) == ranges[i] && Free(pieces[i], ',')
      ensures Unspaced(Spaced("", pieces)[i]) == pieces[i]
    {
      ShownReadsBack(ranges[i]);
      UnspacedIs(pieces[i]);
    }
    SpacedSplits(pieces);
  }

  /** The text tells the lines: read back and expanded it gives them sorted. */
  lemma TextReadsBack(lines: seq<nat>)
    ensures var text := Join(ShowAll(RangesOf(Sorted(lines))), ", ");
            if lines == [] then text == "" else Expand(ReadRanges(text)) == Sorted(lines)
  {
    if lines != [] {
      SortedIsSorted(lines, 1);
      AllReadBack(RangesOf(Sorted(lines)));
      RangesLoseNothing(lines);
    }
  }

  // ---------------------------------------------------------------------------
  // As few ranges as there can be
  // ---------------------------------------------------------------------------

  ghost predicate Strict(s: seq<nat>) {
    forall i, j | 0 <= i < j < |s| :: s[i] < s[j]
  }

  /** Each range ends at least two below where the next begins. */
  ghost predicate Gapped(ranges: seq<Range>) {
    && (forall i | 0 <= i < |ranges| :: ranges[i].lo <= ranges[i].hi)
    && forall i | 0 <= i < |ranges| - 1 :: ranges[i].hi + 1 < ranges[i + 1].lo
  }

  lemma {:induction false} RunsStart(start: nat, previous: nat, rest: seq<nat>)
    ensures Runs(start, previous, rest)[0].lo == start
    decreases |rest|
  {
    if rest != [] && Continues(previous, rest[0]) {
      RunsStart(start, rest[0], rest[1..]);
    }
  }

  lemma {:induction false} RunsAreGapped(start: nat, previous: nat, rest: seq<nat>)
    requires start <= previous && Strict(rest) && (rest != [] ==> previous < rest[0])
    requires previous == 0 && rest != [] ==> rest[0] != 1
    ensures Gapped(Runs(start, previous, rest)) && Runs(start, previous, rest)[0].lo == start
    decreases |rest|
  {
    if rest != [] {
      assert Strict(rest[1..]);
      if Continues(previous, rest[0]) {
        RunsAreGapped(start, rest[0], rest[1..]);
      } else {
        RunsAreGapped(rest[0], rest[0], rest[1..]);
      }
    }
  }

  predicate Covers(ranges: seq<Range>, x: nat) {
    exists i | 0 <= i < |ranges| :: ranges[i].lo <= x <= ranges[i].hi
  }

  lemma {:induction false} ExpandCovers(ranges: seq<Range>, x: nat)
    ensures x in Expand(ranges) <==> Covers(ranges, x)
  {
    if ranges != [] {
      ExpandCovers(ranges[1..], x);
      var head := From(ranges[0].lo, ranges[0].hi);
      if ranges[0].lo <= x <= ranges[0].hi {
        assert head[x - ranges[0].lo] == x;
      }
      if Covers(ranges[1..], x) {
        var i :| 0 <= i < |ranges[1..]| && ranges[1..][i].lo <= x <= ranges[1..][i].hi;
        assert ranges[i + 1].lo <= x <= ranges[i + 1].hi;
      }
      if Covers(ranges, x) && !(ranges[0].lo <= x <= ranges[0].hi) {
        var i :| 0 <= i < |ranges| && ranges[i].lo <= x <= ranges[i].hi;
        assert ranges[1..][i - 1].lo <= x <= ranges[1..][i - 1].hi;
      }
    }
  }

  ghost function Starts(ranges: seq<Range>): set<nat> {
    set i | 0 <= i < |ranges| :: ranges[i].lo
  }

  lemma {:induction false} StartsAtMost(ranges: seq<Range>)
    ensures |Starts(ranges)| <= |ranges|
  {
    if ranges != [] {
      var init, last := ranges[..|ranges| - 1], ranges[|ranges| - 1];
      StartsAtMost(init);
      assert ranges == init + [last];
      assert Starts(ranges) == Starts(init) + {last.lo};
    }
  }

  lemma {:induction false} GappedClimbs(ranges: seq<Range>, i: nat, j: nat)
    requires Gapped(ranges) && i < j < |ranges|
    ensures ranges[i].hi + 1 < ranges[j].lo
    decreases j - i
  {
    if i + 1 < j {
      GappedClimbs(ranges, i, j - 1);
    }
  }

  lemma {:induction false} StartsOfGapped(ranges: seq<Range>)
    requires Gapped(ranges)
    ensures |Starts(ranges)| == |ranges|
  {
    if ranges != [] {
      var init, last := ranges[..|ranges| - 1], ranges[|ranges| - 1];
      StartsOfGapped(init);
      assert ranges == init + [last];
      assert Starts(ranges) == Starts(init) + {last.lo};
      forall i | 0 <= i < |init|
        ensures init[i].lo != last.lo
      {
        GappedClimbs(ranges, i, |ranges| - 1);
      }
    }
  }

  /** Each gapped range begins where any other cover of the same lines must begin one. */
  lemma StartsAreForced(gapped: seq<Range>, other: seq<Range>, i: nat)
    requires Gapped(gapped) && i < |gapped|
    requires forall x: nat :: Covers(gapped, x) <==> Covers(other, x)
    ensures gapped[i].lo in Starts(other)
  {
    var lo := gapped[i].lo;
    assert Covers(gapped, lo);
    var j :| 0 <= j < |other| && other[j].lo <= lo <= other[j].hi;
    if other[j].lo < lo {
      assert Covers(other, lo - 1);
      var k :| 0 <= k < |gapped| && gapped[k].lo <= lo - 1 <= gapped[k].hi;
      if k < i {
        GappedClimbs(gapped, k, i);
      } else if i < k {
        GappedClimbs(gapped, i, k);
      }
    }
  }

  lemma RangesCoverTheLines(lines: seq<nat>, x: nat)
    ensures Covers(RangesOf(Sorted(lines)), x) <==> x in lines
  {
    RangesLoseNothing(lines);
    ExpandCovers(RangesOf(Sorted(lines)), x);
    SortedIsSorted(lines, 1);
    assert x in multiset(Sorted(lines)) <==> x in multiset(lines);
  }

  lemma SortedHas(lines: seq<nat>, x: nat)
    ensures x in Sorted(lines) <==> x in lines
  {
    SortedIsSorted(lines, 0);
    assert x in multiset(Sorted(lines)) <==> x in multiset(lines);
  }

  lemma ZeroThenOne(sorted: seq<nat>)
    requires Strict(sorted)
    ensures 0 in sorted && 1 in sorted <==> |sorted| > 1 && sorted[0] == 0 && sorted[1] == 1
  {
    assert forall k | 0 < k < |sorted| :: sorted[0] < sorted[k];
    assert forall k | 1 < k < |sorted| :: sorted[1] < sorted[k];
  }

  /** The ranges of distinct lines are separated by gaps exactly when lines 0 and 1 are not both among them. */
  lemma GappedIff(lines: seq<nat>)
    requires Strict(Sorted(lines))
    ensures Gapped(RangesOf(Sorted(lines))) <==> !(0 in lines && 1 in lines)
  {
    var sorted := Sorted(lines);
    SortedHas(lines, 0);
    SortedHas(lines, 1);
    ZeroThenOne(sorted);
    if |sorted| > 1 && sorted[0] == 0 && sorted[1] == 1 {
      assert sorted[1..][0] == 1 && sorted[1..][1..] == sorted[2..];
      var rest := Runs(1, 1, sorted[2..]);
      RunsStart(1, 1, sorted[2..]);
      var ranges := RangesOf(sorted);
      assert ranges == [Range(0, 0)] + rest;
      assert ranges[0].hi + 1 == ranges[1].lo;
    } else if sorted != [] {
      RunsAreGapped(sorted[0], sorted[0], sorted[1..]);
    }
  }

  lemma FewestOfAll(gapped: seq<Range>, other: seq<Range>)
    requires Gapped(gapped)
    requires forall x: nat :: Covers(gapped, x) <==> Covers(other, x)
    ensures |gapped| <= |other|
  {
    StartsOfGapped(gapped);
    StartsAtMost(other);
    forall x | x in Starts(gapped)
      ensures x in Starts(other)
    {
      var i :| 0 <= i < |gapped| && gapped[i].lo == x;
      StartsAreForced(gapped, other, i);
    }
    SmallerSet(Starts(gapped), Starts(other));
  }

  /** Unless lines 0 and 1 are both there, no list of ranges covering the same distinct lines is shorter. */
  lemma RangesAreFewest(lines: seq<nat>, other: seq<Range>)
    requires Strict(Sorted(lines)) && !(0 in lines && 1 in lines)
    requires forall x: nat :: x in lines <==> Covers(other, x)
    ensures |RangesOf(Sorted(lines))| <= |other|
  {
    GappedIff(lines);
    forall x: nat
      ensures Covers(RangesOf(Sorted(lines)), x) <==> Covers(other, x)
    {
      RangesCoverTheLines(lines, x);
    }
    FewestOfAll(RangesOf(Sorted(lines)), other);
  }

  /** Line 0 never joins line 1. */
  lemma ZeroStandsAlone()
    ensures RangesOf([0, 1]) == [Range(0, 0), Range(1, 1)]
  {
    assert [0, 1][1..] == [1] && [1][1..] == [];
  }
}
