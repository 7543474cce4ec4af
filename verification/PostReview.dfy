/**
 `commentableLines` and `buildReview` of `post-review.ts`: where a review may put a comment, and
 what it does with the rest.
 */
module PostReview {
  import opened Prelude

  /** A row of a patch as its first characters read; `start` is the right-hand number of a `@@` header. */
  datatype Row = Header(start: nat) | Removed | Added | Same | Other

  predicate OnTheRight(row: Row) {
    row.Added? || row.Same?
  }

  // ---------------------------------------------------------------------------
  // The cursor
  // ---------------------------------------------------------------------------

  function CursorAfter(cursor: nat, row: Row): nat {
    match row
    case Header(start) => start
    case Added => cursor + 1
    case Same => cursor + 1
    case _ => cursor
  }

  function LinesFrom(cursor: nat, rows: seq<Row>): set<nat>
    decreases |rows|
  {
    if rows == [] then {}
    else (if OnTheRight(rows[0]) then {cursor} else {}) + LinesFrom(CursorAfter(cursor, rows[0]), rows[1..])
  }

  datatype File = File(name: string, patch: Option<seq<Row>>)

  method LinesOf(rows: seq<Row>) returns (lines: set<nat>)
    ensures lines == LinesFrom(0, rows)
  {
    lines := {};
    var cursor: nat, i := 0, 0;
    while i < |rows|
      invariant 0 <= i <= |rows|
      invariant lines + LinesFrom(cursor, rows[i..]) == LinesFrom(0, rows)
    {
      var row := rows[i];
      assert rows[i..][0] == row && rows[i..][1..] == rows[i + 1..];
      i := i + 1;
      match row
      case Header(start) => cursor := start;
      case Removed =>
      case Added =>
        lines := lines + {cursor};
        cursor := cursor + 1;
      case Same =>
        lines := lines + {cursor};
        cursor := cursor + 1;
      case Other =>
    }
  }

  type Commentable = map<string, set<nat>>

  /** Of two entries for one file the later counts; a file without a patch has no entry of its own. */
  function Lines(files: seq<File>): Commentable {
    if files == [] then map[]
    else
      var last := files[|files| - 1];
      var before := Lines(files[..|files| - 1]);
      if last.patch.Some? then before[last.name := LinesFrom(0, last.patch.value)] else before
  }

  method CommentableLines(files: seq<File>) returns (commentable: Commentable)
    ensures commentable == Lines(files)
  {
    commentable := map[];
    var i := 0;
    while i < |files|
      invariant 0 <= i <= |files|
      invariant commentable == Lines(files[..i])
    {
      assert files[..i + 1][..i] == files[..i];
      if files[i].patch.Some? {
        var lines := LinesOf(files[i].patch.value);
        commentable := commentable[files[i].name := lines];
      }
      i := i + 1;
    }
    assert files[..i] == files;
  }

  // ---------------------------------------------------------------------------
  // The lines the diff shows
  // ---------------------------------------------------------------------------

  /** A hunk: where its right-hand side starts, and its rows, none of which is a header. */
  datatype Hunk = Hunk(start: nat, rows: seq<Row>)

  ghost predicate WellFormed(hunks: seq<Hunk>) {
    forall h, i | 0 <= h < |hunks| && 0 <= i < |hunks[h].rows| :: !hunks[h].rows[i].Header?
  }

  function PatchOf(hunks: seq<Hunk>): seq<Row> {
    if hunks == [] then [] else [Header(hunks[0].start)] + hunks[0].rows + PatchOf(hunks[1..])
  }

  function RightRows(rows: seq<Row>): nat {
    if rows == [] then 0 else RightRows(rows[..|rows| - 1]) + if OnTheRight(rows[|rows| - 1]) then 1 else 0
  }

  /** Row `i` of the hunk is on the right-hand side, as line `line` of the new file. */
  ghost predicate RowShows(hunk: Hunk, i: nat, line: nat) {
    i < |hunk.rows| && OnTheRight(hunk.rows[i]) && line == hunk.start + RightRows(hunk.rows[..i])
  }

  ghost predicate Shows(hunks: seq<Hunk>, line: nat) {
    exists h: nat, i: nat :: h < |hunks| && RowShows(hunks[h], i, line)
  }

  /** A hunk's rows, before what follows them, give the numbers from the cursor on. */
  lemma {:induction false} RowsAdvance(cursor: nat, rows: seq<Row>, rest: seq<Row>)
    requires forall i | 0 <= i < |rows| :: !rows[i].Header?
    ensures LinesFrom(cursor, rows + rest) == LinesFrom(cursor, rows) + LinesFrom(cursor + RightRows(rows), rest)
    decreases |rows|
  {
    if rows == [] {
      assert rows + rest == rest;
    } else {
      assert (rows + rest)[1..] == rows[1..] + rest;
      RowsAdvance(CursorAfter(cursor, rows[0]), rows[1..], rest);
      RightRowsFront(rows);
    }
  }

  lemma {:induction false} RightRowsFront(rows: seq<Row>)
    requires rows != []
    ensures RightRows(rows) == (if OnTheRight(rows[0]) then 1 else 0) + RightRows(rows[1..])
  {
    if |rows| > 1 {
      RightRowsFront(rows[..|rows| - 1]);
      assert rows[..|rows| - 1][1..] == rows[1..][..|rows| - 2];
    } else {
      assert rows[..0] == [] && rows[1..] == [];
    }
  }

  lemma {:induction false} RowsShow(start: nat, rows: seq<Row>, line: nat)
    requires forall i | 0 <= i < |rows| :: !rows[i].Header?
    ensures line in LinesFrom(start, rows) <==> exists i: nat :: RowShows(Hunk(start, rows), i, line)
    decreases |rows|
  {
    if rows != [] {
      var hunk, tail := Hunk(start, rows), Hunk(CursorAfter(start, rows[0]), rows[1..]);
      RowsShow(tail.start, tail.rows, line);
      if line in LinesFrom(start, rows) {
        if OnTheRight(rows[0]) && line == start {
          assert RowShows(hunk, 0, line);
        } else {
          var i: nat :| RowShows(tail, i, line);
          RowMoves(start, rows, i, line);
        }
      }
      if exists i: nat :: RowShows(hunk, i, line) {
        var i: nat :| RowShows(hunk, i, line);
        if i > 0 {
          RowMoves(start, rows, i - 1, line);
        } else {
          assert rows[..0] == [];
        }
      }
    }
  }

  lemma RowMoves(start: nat, rows: seq<Row>, i: nat, line: nat)
    requires rows != [] && !rows[0].Header? && i + 1 < |rows|
    ensures RowShows(Hunk(start, rows), i + 1, line) <==>
            RowShows(Hunk(CursorAfter(start, rows[0]), rows[1..]), i, line)
  {
    RightRowsFront(rows[..i + 1]);
    assert rows[..i + 1][1..] == rows[1..][..i];
  }

  /** For well-formed hunks the commentable lines are exactly the right-hand numbers the diff shows. */
  lemma {:induction false} CommentableAreShown(cursor: nat, hunks: seq<Hunk>, line: nat)
    requires WellFormed(hunks)
    ensures line in LinesFrom(cursor, PatchOf(hunks)) <==> Shows(hunks, line)
    decreases |hunks|
  {
    if hunks != [] {
      var first, rest := hunks[0], hunks[1..];
      var tail := first.rows + PatchOf(rest);
      assert PatchOf(hunks) == [Header(first.start)] + tail;
      assert ([Header(first.start)] + tail)[1..] == tail;
      RowsAdvance(first.start, first.rows, PatchOf(rest));
      RowsShow(first.start, first.rows, line);
      WellFormedRest(hunks);
      CommentableAreShown(first.start + RightRows(first.rows), rest, line);
      assert first == Hunk(first.start, first.rows);
      ShowsSplits(hunks, line);
    }
  }

  lemma WellFormedRest(hunks: seq<Hunk>)
    requires hunks != [] && WellFormed(hunks)
    ensures WellFormed(hunks[1..])
  {
    forall h, i | 0 <= h < |hunks[1..]| && 0 <= i < |hunks[1..][h].rows|
      ensures !hunks[1..][h].rows[i].Header?
    {
      assert !hunks[h + 1].rows[i].Header?;
    }
  }

  lemma ShowsSplits(hunks: seq<Hunk>, line: nat)
    requires hunks != []
    ensures Shows(hunks, line) <==> (exists i: nat :: RowShows(hunks[0], i, line)) || Shows(hunks[1..], line)
  {
    if Shows(hunks[1..], line) {
      var h: nat, i: nat :| h < |hunks[1..]| && RowShows(hunks[1..][h], i, line);
      assert RowShows(hunks[h + 1], i, line);
    }
    if Shows(hunks, line) {
      var h: nat, i: nat :| h < |hunks| && RowShows(hunks[h], i, line);
      if h > 0 {
        assert RowShows(hunks[1..][h - 1], i, line);
      }
    }
  }

  // ---------------------------------------------------------------------------
  // The review
  // ---------------------------------------------------------------------------

  datatype Finding = Finding(file: Option<string>, line: Option<nat>, summary: string)

  datatype Verdict = Approve | Comment

  datatype Review = Review(event: Verdict, comments: seq<Finding>, elsewhere: seq<Finding>)

  predicate Anchored(finding: Finding, commentable: Commentable) {
    && finding.file.Some? && finding.line.Some?
    && finding.file.value in commentable && finding.line.value in commentable[finding.file.value]
  }

  function Only(findings: seq<Finding>, commentable: Commentable, anchored: bool): seq<Finding> {
    if findings == [] then []
    else
      var last := findings[|findings| - 1];
      Only(findings[..|findings| - 1], commentable, anchored) +
      if Anchored(last, commentable) == anchored then [last] else []
  }

  /** `sentinel` is the last verdict line; `bare` says nothing stands outside the list of findings. */
  function EventOf(findings: Option<seq<Finding>>, sentinel: Option<Verdict>, bare: bool): Verdict {
    if sentinel == Some(Comment) || (findings.Some? && findings.value != []) then Comment
    else if sentinel == Some(Approve) || (findings.Some? && bare) then Approve
    else Comment
  }

  method BuildReview(findings: Option<seq<Finding>>, sentinel: Option<Verdict>, bare: bool, commentable: Commentable)
    returns (review: Review)
    ensures review.event == EventOf(findings, sentinel, bare)
    ensures review.comments == Only(findings.GetOr([]), commentable, true)
    ensures review.elsewhere == Only(findings.GetOr([]), commentable, false)
  {
    var event := EventOf(findings, sentinel, bare);
    if findings.None? || findings.value == [] {
      return Review(event, [], []);
    }
    var all := findings.value;
    var comments, elsewhere := [], [];
    var i := 0;
    while i < |all|
      invariant 0 <= i <= |all|
      invariant comments == Only(all[..i], commentable, true)
      invariant elsewhere == Only(all[..i], commentable, false)
    {
      assert all[..i + 1][..i] == all[..i];
      if Anchored(all[i], commentable) {
        comments := comments + [all[i]];
      } else {
        elsewhere := elsewhere + [all[i]];
      }
      i := i + 1;
    }
    assert all[..i] == all;
    return Review(event, comments, elsewhere);
  }

  /** The findings put back in order: `which` says from which list each one comes. */
  function Merge(comments: seq<Finding>, elsewhere: seq<Finding>, which: seq<bool>): Option<seq<Finding>> {
    if which == [] then
      if comments == [] && elsewhere == [] then Some([]) else None
    else
      var last := |which| - 1;
      if which[last] && comments != [] then
        var rest :- Merge(comments[..|comments| - 1], elsewhere, which[..last]);
        Some(rest + [comments[|comments| - 1]])
      else if !which[last] && elsewhere != [] then
        var rest :- Merge(comments, elsewhere[..|elsewhere| - 1], which[..last]);
        Some(rest + [elsewhere[|elsewhere| - 1]])
      else None
  }

  function Which(findings: seq<Finding>, commentable: Commentable): seq<bool> {
    seq(|findings|, i requires 0 <= i < |findings| => Anchored(findings[i], commentable))
  }

  lemma MergeTakes(comments: seq<Finding>, elsewhere: seq<Finding>, which: seq<bool>, last: Finding, left: bool)
    ensures Merge(
              if left then comments + [last] else comments,
              if left then elsewhere else elsewhere + [last],
              which + [left]) ==
            match Merge(comments, elsewhere, which) case Some(rest) => Some(rest + [last]) case None => None
  {
    assert (which + [left])[..|which|] == which;
    if left {
      assert (comments + [last])[..|comments|] == comments;
    } else {
      assert (elsewhere + [last])[..|elsewhere|] == elsewhere;
    }
  }

  lemma OnlyGrows(findings: seq<Finding>, last: Finding, commentable: Commentable, anchored: bool)
    ensures Only(findings + [last], commentable, anchored) ==
            if Anchored(last, commentable) == anchored then Only(findings, commentable, anchored) + [last]
            else Only(findings, commentable, anchored)
  {
    assert (findings + [last])[..|findings|] == findings;
  }

  /** The lists interleave to the findings: each finding is in one of them, once, at the place `Which` says. */
  ghost predicate Partitioned(findings: seq<Finding>, commentable: Commentable) {
    Merge(Only(findings, commentable, true), Only(findings, commentable, false), Which(findings, commentable)) ==
    Some(findings)
  }

  /** Nothing is dropped, doubled or reordered between the inline comments and the rest of the review. */
  lemma {:induction false} ReviewPartitions(findings: seq<Finding>, commentable: Commentable)
    ensures Partitioned(findings, commentable)
  {
    if findings != [] {
      var init, last := findings[..|findings| - 1], findings[|findings| - 1];
      ReviewPartitions(init, commentable);
      assert findings == init + [last];
      OneMoreFinding(init, last, commentable);
    }
  }

  lemma WhichGrows(findings: seq<Finding>, last: Finding, commentable: Commentable)
    ensures Which(findings + [last], commentable) == Which(findings, commentable) + [Anchored(last, commentable)]
  {
  }

  lemma OneMoreFinding(findings: seq<Finding>, last: Finding, commentable: Commentable)
    requires Partitioned(findings, commentable)
    ensures Partitioned(findings + [last], commentable)
  {
    WhichGrows(findings, last, commentable);
    OnlyGrows(findings, last, commentable, true);
    OnlyGrows(findings, last, commentable, false);
    MergeTakes(
      Only(findings, commentable, true), Only(findings, commentable, false), Which(findings, commentable), last,
      Anchored(last, commentable));
  }

  /** The last entry for this name that has a patch. */
  ghost predicate IsLastPatch(files: seq<File>, name: string, f: nat) {
    && f < |files| && files[f].name == name && files[f].patch.Some?
    && forall g | f < g < |files| && files[g].name == name :: files[g].patch.None?
  }

  /** A file has commentable lines exactly when some entry of its name has a patch, and they are the last such patch's. */
  lemma {:induction false} EntryIsAPatch(files: seq<File>, name: string)
    ensures name in Lines(files) <==> exists f: nat :: IsLastPatch(files, name, f)
    ensures forall f: nat | IsLastPatch(files, name, f) ::
              name in Lines(files) && Lines(files)[name] == LinesFrom(0, files[f].patch.value)
  {
    if files != [] {
      var init, last := files[..|files| - 1], |files| - 1;
      EntryIsAPatch(init, name);
      if files[last].patch.Some? && files[last].name == name {
        assert IsLastPatch(files, name, last);
      } else {
        forall f: nat
          ensures IsLastPatch(init, name, f) <==> IsLastPatch(files, name, f)
        {
          assert forall g | 0 <= g < last :: init[g] == files[g];
        }
      }
    }
  }

  /** The patches are these hunks. */
  ghost predicate ArePatches(files: seq<File>, hunks: seq<seq<Hunk>>) {
    && |hunks| == |files|
    && (forall f | 0 <= f < |files| :: WellFormed(hunks[f]))
    && forall f | 0 <= f < |files| && files[f].patch.Some? :: files[f].patch.value == PatchOf(hunks[f])
  }

  /** It names a file and a line that the file's last patch shows on its right. */
  ghost predicate IsOnTheDiff(finding: Finding, files: seq<File>, hunks: seq<seq<Hunk>>)
    requires |hunks| == |files|
  {
    && finding.file.Some? && finding.line.Some?
    && exists f: nat :: IsLastPatch(files, finding.file.value, f) && Shows(hunks[f], finding.line.value)
  }

  lemma AnchoredIffShown(finding: Finding, files: seq<File>, hunks: seq<seq<Hunk>>)
    requires ArePatches(files, hunks)
    ensures Anchored(finding, Lines(files)) <==> IsOnTheDiff(finding, files, hunks)
  {
    if finding.file.Some? && finding.line.Some? {
      EntryIsAPatch(files, finding.file.value);
      forall f: nat | IsLastPatch(files, finding.file.value, f)
        ensures finding.line.value in LinesFrom(0, files[f].patch.value) <==> Shows(hunks[f], finding.line.value)
      {
        CommentableAreShown(0, hunks[f], finding.line.value);
      }
    }
  }

  lemma {:induction false} OnlyCounts(findings: seq<Finding>, commentable: Commentable, anchored: bool, finding: Finding)
    ensures multiset(Only(findings, commentable, anchored))[finding] ==
            if Anchored(finding, commentable) == anchored then multiset(findings)[finding] else 0
  {
    if findings != [] {
      var init, last := findings[..|findings| - 1], findings[|findings| - 1];
      OnlyCounts(init, commentable, anchored, finding);
      assert findings == init + [last];
      OnlyGrows(init, last, commentable, anchored);
      CountOneMore(init, last, finding);
      CountOneMore(Only(init, commentable, anchored), last, finding);
    }
  }

  /**
   A finding becomes an inline comment, as often as it was made, exactly when it is on the diff, and
   else stands in the body.
   */
  lemma CommentsSitOnShownLines(findings: seq<Finding>, files: seq<File>, hunks: seq<seq<Hunk>>, finding: Finding)
    requires ArePatches(files, hunks)
    ensures multiset(Only(findings, Lines(files), true))[finding] ==
            if IsOnTheDiff(finding, files, hunks) then multiset(findings)[finding] else 0
    ensures multiset(Only(findings, Lines(files), false))[finding] ==
            if IsOnTheDiff(finding, files, hunks) then 0 else multiset(findings)[finding]
  {
    AnchoredIffShown(finding, files, hunks);
    OnlyCounts(findings, Lines(files), true, finding);
    OnlyCounts(findings, Lines(files), false, finding);
  }

  /** Prose without a list of findings is approved on the verdict alone. */
  lemma VerdictAloneApproves(bare: bool)
    ensures EventOf(None, Some(Approve), bare) == Approve && EventOf(None, None, bare) == Comment
  {
  }

  /** Approval takes no finding, no `COMMENT` verdict, and either an `APPROVE` verdict or a bare empty list. */
  lemma ApprovalNeedsAgreement(findings: Option<seq<Finding>>, sentinel: Option<Verdict>, bare: bool)
    ensures EventOf(findings, sentinel, bare) == Approve <==>
            && (findings.Some? ==> findings.value == [])
            && (sentinel == Some(Approve) || (sentinel.None? && findings.Some? && bare))
  {
    assert sentinel.Some? ==> sentinel.value.Approve? || sentinel.value.Comment?;
  }
}
