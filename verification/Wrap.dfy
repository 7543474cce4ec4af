/**
 `wrap` of `update-readme.ts`: greedy line breaking. Positions count words: the words from `i`
 up to but not including `j` make the line `Line(words, i, j)`.
 */
module Wrap {
  import opened Text

  /** The lines still to come, given the line under way and the words left. */
  function Greedy(words: seq<string>, line: string, width: int): seq<string> {
    if words == [] then
      if line == "" then [] else [line]
    else if line == "" then
      Greedy(words[1..], words[0], width)
    else if |line + " " + words[0]| <= width then
      Greedy(words[1..], line + " " + words[0], width)
    else
      [line] + Greedy(words[1..], words[0], width)
  }

  method Wrapped(text: string, width: int) returns (wrapped: string)
    ensures wrapped == Join(Greedy(Split(text, ' '), "", width), "\n")
  {
    var words, lines, line := Split(text, ' '), [], "";
    var i := 0;
    while i < |words|
      invariant 0 <= i <= |words|
      invariant lines + Greedy(words[i..], line, width) == Greedy(words, "", width)
    {
      var word := words[i];
      assert words[i..][1..] == words[i + 1..];
      if line == "" {
        line := word;
      } else if |line + " " + word| <= width {
        line := line + " " + word;
      } else {
        assert lines + ([line] + Greedy(words[i + 1..], word, width)) ==
               (lines + [line]) + Greedy(words[i + 1..], word, width);
        lines := lines + [line];
        line := word;
      }
      i := i + 1;
    }
    assert words[i..] == [];
    assert lines + [] == lines;
    if line != "" {
      lines := lines + [line];
    }
    return Join(lines, "\n");
  }

  function Line(words: seq<string>, i: nat, j: nat): string
    requires i <= j <= |words|
  {
    Join(words[i..j], " ")
  }

  /** What may stand on one line: words that fit the width together, or a single word. */
  predicate MayStand(words: seq<string>, width: int, i: nat, j: nat) {
    i < j <= |words| && (j == i + 1 || |Line(words, i, j)| <= width)
  }

  ghost predicate NoEmptyWords(words: seq<string>) {
    forall i | 0 <= i < |words| :: words[i] != ""
  }

  lemma {:induction false} JoinSnoc(init: seq<string>, last: string)
    requires init != []
    ensures Join(init + [last], " ") == Join(init, " ") + " " + last
  {
    if |init| > 1 {
      JoinSnoc(init[1..], last);
      assert (init + [last])[1..] == init[1..] + [last];
      assert init[0] + " " + (Join(init[1..], " ") + " " + last) == init[0] + " " + Join(init[1..], " ") + " " + last;
    } else {
      assert (init + [last])[1..] == [last];
    }
  }

  lemma LineGrows(words: seq<string>, i: nat, j: nat)
    requires i < j < |words|
    ensures Line(words, i, j + 1) == Line(words, i, j) + " " + words[j]
  {
    JoinSnoc(words[i..j], words[j]);
    assert words[i..j + 1] == words[i..j] + [words[j]];
  }

  lemma LineStartsLater(words: seq<string>, i: nat, j: nat)
    requires i + 1 < j <= |words|
    ensures Line(words, i, j) == words[i] + " " + Line(words, i + 1, j)
  {
    JoinCons(words[i], words[i + 1..j], " ");
    assert words[i..j] == [words[i]] + words[i + 1..j];
  }

  /** Part of a line is no longer than the line. */
  lemma {:induction false} PartIsShorter(words: seq<string>, i: nat, i': nat, j': nat, j: nat)
    requires i <= i' < j' <= j <= |words|
    ensures |Line(words, i', j')| <= |Line(words, i, j)|
    decreases (i' - i) + (j - j')
  {
    if i < i' {
      LineStartsLater(words, i, j);
      PartIsShorter(words, i + 1, i', j', j);
    } else if j' < j {
      LineGrows(words, i, j - 1);
      PartIsShorter(words, i, i', j', j - 1);
    }
  }

  // ---------------------------------------------------------------------------
  // Where greedy breaks
  // ---------------------------------------------------------------------------

  function Extend(words: seq<string>, width: int, i: nat, j: nat): (end: nat)
    requires i < j <= |words|
    ensures j <= end <= |words|
    decreases |words| - j
  {
    if j < |words| && |Line(words, i, j + 1)| <= width then Extend(words, width, i, j + 1) else j
  }

  function Next(words: seq<string>, width: int, i: nat): (end: nat)
    requires i < |words|
    ensures i < end <= |words|
  {
    Extend(words, width, i, i + 1)
  }

  function Lines(words: seq<string>, width: int, i: nat): seq<string>
    requires i <= |words|
    decreases |words| - i
  {
    if i == |words| then []
    else [Line(words, i, Next(words, width, i))] + Lines(words, width, Next(words, width, i))
  }

  lemma {:induction false} ExtendFits(words: seq<string>, width: int, i: nat, j: nat)
    requires MayStand(words, width, i, j)
    ensures MayStand(words, width, i, Extend(words, width, i, j))
    ensures Extend(words, width, i, j) < |words| ==>
              |Line(words, i, Extend(words, width, i, j) + 1)| > width
    decreases |words| - j
  {
    if j < |words| && |Line(words, i, j + 1)| <= width {
      ExtendFits(words, width, i, j + 1);
    }
  }

  /** Greedy takes every word that may stand on the line. */
  lemma NextIsLast(words: seq<string>, width: int, i: nat, j: nat)
    requires MayStand(words, width, i, j)
    ensures j <= Next(words, width, i)
  {
    ExtendFits(words, width, i, i + 1);
    var end := Next(words, width, i);
    if end < j {
      PartIsShorter(words, i, i, end + 1, j);
    }
  }

  lemma NextMoves(words: seq<string>, width: int, i: nat, i': nat)
    requires i <= i' < |words|
    ensures Next(words, width, i) <= Next(words, width, i')
  {
    ExtendFits(words, width, i, i + 1);
    var end := Next(words, width, i);
    if i' < end {
      PartIsShorter(words, i, i', end, end);
      NextIsLast(words, width, i', end);
    }
  }

  lemma {:induction false} FewerFromLater(words: seq<string>, width: int, i: nat, i': nat)
    requires i <= i' <= |words|
    ensures |Lines(words, width, i')| <= |Lines(words, width, i)|
    decreases |words| - i
  {
    if i' < |words| {
      NextMoves(words, width, i, i');
      FewerFromLater(words, width, Next(words, width, i), Next(words, width, i'));
    }
  }

  /** Any way to break the words from `i` on, given by where each line ends. */
  ghost predicate Breaking(words: seq<string>, width: int, i: nat, ends: seq<nat>)
    decreases |ends|
  {
    if i >= |words| then i == |words| && ends == []
    else ends != [] && MayStand(words, width, i, ends[0]) && Breaking(words, width, ends[0], ends[1..])
  }

  lemma {:induction false} GreedyIsFewest(words: seq<string>, width: int, i: nat, ends: seq<nat>)
    requires i <= |words| && Breaking(words, width, i, ends)
    ensures |Lines(words, width, i)| <= |ends|
    decreases |ends|
  {
    if i < |words| {
      NextIsLast(words, width, i, ends[0]);
      GreedyIsFewest(words, width, ends[0], ends[1..]);
      FewerFromLater(words, width, ends[0], Next(words, width, i));
    }
  }

  /** Greedy's own breaking obeys the rule. */
  ghost function Ends(words: seq<string>, width: int, i: nat): (ends: seq<nat>)
    requires i <= |words|
    ensures |ends| == |Lines(words, width, i)|
    decreases |words| - i
  {
    if i == |words| then [] else [Next(words, width, i)] + Ends(words, width, Next(words, width, i))
  }

  lemma {:induction false} GreedyIsABreaking(words: seq<string>, width: int, i: nat)
    requires i <= |words|
    ensures Breaking(words, width, i, Ends(words, width, i))
    decreases |words| - i
  {
    if i < |words| {
      ExtendFits(words, width, i, i + 1);
      GreedyIsABreaking(words, width, Next(words, width, i));
    }
  }

  lemma {:induction false} LinesLoseNothing(words: seq<string>, width: int, i: nat)
    requires i <= |words|
    ensures Join(Lines(words, width, i), " ") == Join(words[i..], " ")
    ensures i < |words| ==> Lines(words, width, i) != []
    decreases |words| - i
  {
    if i < |words| {
      var end := Next(words, width, i);
      LinesLoseNothing(words, width, end);
      if end < |words| {
        JoinCons(Line(words, i, end), Lines(words, width, end), " ");
        JoinParts(words[i..end], words[end..]);
        assert words[i..] == words[i..end] + words[end..];
      } else {
        assert words[i..] == words[i..end];
      }
    }
  }

  lemma {:induction false} JoinParts(a: seq<string>, b: seq<string>)
    requires a != [] && b != []
    ensures Join(a + b, " ") == Join(a, " ") + " " + Join(b, " ")
  {
    if |a| == 1 {
      assert (a + b)[1..] == b;
    } else {
      JoinParts(a[1..], b);
      assert (a + b)[1..] == a[1..] + b;
      assert a[0] + " " + (Join(a[1..], " ") + " " + Join(b, " ")) ==
             a[0] + " " + Join(a[1..], " ") + " " + Join(b, " ");
    }
  }

  // ---------------------------------------------------------------------------
  // The loop makes those lines
  // ---------------------------------------------------------------------------

  /** What the loop does with the word at `j` when the line under way started at `i`. */
  lemma GreedyStep(words: seq<string>, width: int, i: nat, j: nat)
    requires NoEmptyWords(words) && i < j < |words|
    ensures Greedy(words[j..], Line(words, i, j), width) ==
            if |Line(words, i, j + 1)| <= width then Greedy(words[j + 1..], Line(words, i, j + 1), width)
            else [Line(words, i, j)] + Greedy(words[j + 1..], Line(words, j, j + 1), width)
  {
    LineIsNotEmpty(words, i, j);
    LineGrows(words, i, j);
    assert words[j..][1..] == words[j + 1..] && words[j..][0] == words[j];
    assert words[j..j + 1] == [words[j]];
  }

  lemma LineIsNotEmpty(words: seq<string>, i: nat, j: nat)
    requires NoEmptyWords(words) && i < j <= |words|
    ensures Line(words, i, j) != ""
  {
    PartIsShorter(words, i, i, i + 1, j);
    assert words[i..i + 1] == [words[i]];
  }

  lemma {:induction false} GreedyUnderWay(words: seq<string>, width: int, i: nat, j: nat)
    requires NoEmptyWords(words) && i < j <= |words|
    ensures Greedy(words[j..], Line(words, i, j), width) ==
            [Line(words, i, Extend(words, width, i, j))] + Lines(words, width, Extend(words, width, i, j))
    decreases |words| - j
  {
    if j < |words| {
      GreedyStep(words, width, i, j);
      GreedyUnderWay(words, width, if |Line(words, i, j + 1)| <= width then i else j, j + 1);
    } else {
      LineIsNotEmpty(words, i, j);
    }
  }

  /**
   With no empty word, the wrapped lines give the text back when joined with spaces, each line fits
   or is one word, and no breaking under that rule has fewer.
   */
  lemma WrapIsGreedy(text: string, width: int)
    requires NoEmptyWords(Split(text, ' '))
    ensures var words, lines := Split(text, ' '), Greedy(Split(text, ' '), "", width);
            && Join(lines, " ") == text
            && (forall k | 0 <= k < |lines| :: lines[k] != "" && (|lines[k]| <= width || lines[k] in words))
            && (exists ends :: Breaking(words, width, 0, ends) && |ends| == |lines|)
            && (forall ends | Breaking(words, width, 0, ends) :: |lines| <= |ends|)
  {
    var words := Split(text, ' ');
    assert words[0..1] == [words[0]];
    GreedyUnderWay(words, width, 0, 1);
    assert Greedy(words, "", width) == Lines(words, width, 0);
    LinesLoseNothing(words, width, 0);
    assert words[0..] == words;
    assert " " == [' '];
    JoinSplit(text, ' ');
    LinesFit(words, width, 0);
    GreedyIsABreaking(words, width, 0);
    forall ends | Breaking(words, width, 0, ends)
      ensures |Lines(words, width, 0)| <= |ends|
    {
      GreedyIsFewest(words, width, 0, ends);
    }
  }

  lemma {:induction false} LinesFit(words: seq<string>, width: int, i: nat)
    requires NoEmptyWords(words) && i <= |words|
    ensures forall k | 0 <= k < |Lines(words, width, i)| ::
              var line := Lines(words, width, i)[k]; line != "" && (|line| <= width || line in words)
    decreases |words| - i
  {
    if i < |words| {
      var end := Next(words, width, i);
      ExtendFits(words, width, i, i + 1);
      assert words[i..i + 1] == [words[i]];
      PartIsShorter(words, i, i, i + 1, end);
      LinesFit(words, width, end);
    }
  }

  /** At width 0 each word has its own line, and the empty ones have none. */
  lemma {:induction false} NarrowestLines(words: seq<string>, line: string)
    ensures Greedy(words, line, 0) == (if line == "" then [] else [line]) + NonEmpty(words)
    decreases |words|
  {
    if words != [] {
      NarrowestLines(words[1..], words[0]);
    }
  }

  lemma {:induction false} JoinedLength(words: seq<string>)
    requires words != []
    ensures |Join(words, " ")| ==
            |Join(NonEmpty(words), " ")| + |words| - (if NonEmpty(words) == [] then 1 else |NonEmpty(words)|)
  {
    var rest := words[1..];
    if |words| > 1 {
      JoinedLength(rest);
      assert |Join(words, " ")| == |words[0]| + 1 + |Join(rest, " ")|;
      if NonEmpty(rest) != [] {
        JoinCons(words[0], NonEmpty(rest), " ");
      }
    }
    assert [] + NonEmpty(rest) == NonEmpty(rest);
    if NonEmpty(rest) == [] {
      assert [words[0]] + NonEmpty(rest) == [words[0]];
    }
  }

  lemma {:induction false} FewerNonEmpty(words: seq<string>)
    ensures |NonEmpty(words)| <= |words|
    ensures |NonEmpty(words)| == |words| <==> NoEmptyWords(words)
  {
    if words != [] {
      FewerNonEmpty(words[1..]);
      assert words == [words[0]] + words[1..];
    }
  }

  /** Joining the lines with spaces gives the text back at every width exactly when it has no empty word, or is empty. */
  lemma NothingLostIff(text: string)
    ensures (forall width: int :: Join(Greedy(Split(text, ' '), "", width), " ") == text) <==>
            text == "" || NoEmptyWords(Split(text, ' '))
  {
    var words := Split(text, ' ');
    if NoEmptyWords(words) {
      forall width: int
        ensures Join(Greedy(words, "", width), " ") == text
      {
        WrapIsGreedy(text, width);
      }
    } else if text == "" {
      assert words == [""] && [""][1..] == [];
      forall width: int
        ensures Greedy(words, "", width) == []
      {
        assert Greedy([], "", width) == [];
      }
    } else {
      NarrowestLines(words, "");
      assert Greedy(words, "", 0) == NonEmpty(words);
      assert " " == [' '];
      JoinSplit(text, ' ');
      JoinedLength(words);
      FewerNonEmpty(words);
    }
  }

  /** An empty word at the front is lost: a leading space does not come back. */
  lemma LeadingSpaceIsLost(word: string, width: int)
    requires word != "" && Free(word, ' ')
    ensures Greedy(Split(" " + word, ' '), "", width) == [word]
  {
    assert " " + word == "" + [' '] + word;
    SplitConcat("", word, ' ');
    SplitFree(word, ' ');
    assert ["", word][1..] == [word] && [word][1..] == [];
    assert Greedy([word], "", width) == Greedy([], word, width);
  }
}
