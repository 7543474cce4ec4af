/** `CappedSeries` of `series.ts`: a keyed map of series that stops growing. */
module Series {
  import opened Text
  import opened Decimal

  const OVERFLOW := "(other)"
  const MAX_SERIES: nat := 128

  /** Length-prefixed, so no label can forge another pair's key. */
  function KeyOf(primary: string, secondary: string): string {
    ShowNat(|primary|) + ":" + primary + ":" + secondary
  }

  /** A created object: its identity is the number of objects created before it. */
  datatype Created = Created(id: nat, primary: string, secondary: string)

  datatype State = State(entries: map<string, Created>, created: nat)

  const EMPTY := State(map[], 0)

  datatype Labels = Labels(primary: string, secondary: string)

  function LabelKey(labels: Labels): string {
    KeyOf(labels.primary, labels.secondary)
  }

  const OVERFLOW_LABELS := Labels(OVERFLOW, OVERFLOW)

  /** The labels under which a call is kept: its own, or those of the overflow. */
  function Resolves(s: State, labels: Labels): Labels {
    if LabelKey(labels) in s.entries || |s.entries| < MAX_SERIES then labels else OVERFLOW_LABELS
  }

  function Answer(s: State, labels: Labels): Created {
    var kept := Resolves(s, labels);
    if LabelKey(kept) in s.entries then s.entries[LabelKey(kept)]
    else Created(s.created, kept.primary, kept.secondary)
  }

  function For(s: State, labels: Labels): State {
    var kept := Resolves(s, labels);
    if LabelKey(kept) in s.entries then s
    else State(s.entries[LabelKey(kept) := Answer(s, labels)], s.created + 1)
  }

  function ForAll(s: State, calls: seq<Labels>): State {
    if calls == [] then s else For(ForAll(s, calls[..|calls| - 1]), calls[|calls| - 1])
  }

  class CappedSeries {
    var entries: map<string, Created>
    var created: nat

    function View(): State
      reads this
    {
      State(entries, created)
    }

    constructor ()
      ensures View() == EMPTY
    {
      entries, created := map[], 0;
    }

    method Create(primary: string, secondary: string) returns (series: Created)
      modifies this`created
      ensures series == Created(old(created), primary, secondary) && created == old(created) + 1
    {
      series := Created(created, primary, secondary);
      created := created + 1;
    }

    method Get(primary: string, secondary: string) returns (series: Created)
      modifies this
      ensures series == Answer(old(View()), Labels(primary, secondary))
      ensures View() == For(old(View()), Labels(primary, secondary))
    {
      var key := KeyOf(primary, secondary);
      if key in entries {
        return entries[key];
      }
      if |entries| < MAX_SERIES {
        series := Create(primary, secondary);
        entries := entries[key := series];
        return series;
      }
      var overflowKey := KeyOf(OVERFLOW, OVERFLOW);
      if overflowKey in entries {
        return entries[overflowKey];
      }
      series := Create(OVERFLOW, OVERFLOW);
      entries := entries[overflowKey := series];
    }

    method Clear()
      modifies this`entries
      ensures View() == State(map[], old(created))
    {
      entries := map[];
    }
  }

  /** Two pairs of labels have one key only if they are the same pair, whatever the labels hold. */
  lemma KeysAreInjective(a: Labels, b: Labels)
    ensures LabelKey(a) == LabelKey(b) <==> a == b
  {
    KeyParts(a);
    KeyParts(b);
    if LabelKey(a) == LabelKey(b) {
      ReadShown(|a.primary|);
      ReadShown(|b.primary|);
    }
  }

  /** The length, the first label and the second can be read off a key. */
  lemma KeyParts(labels: Labels)
    ensures var key, n := LabelKey(labels), |ShowNat(|labels.primary|)|;
            && DigitSpan(key) == n && key[..n] == ShowNat(|labels.primary|)
            && |key| >= n + |labels.primary| + 2
            && key[n + 1..n + 1 + |labels.primary|] == labels.primary
            && key[n + |labels.primary| + 2..] == labels.secondary
  {
    var digits := ShowNat(|labels.primary|);
    var rest := ":" + labels.primary + ":" + labels.secondary;
    assert LabelKey(labels) == digits + rest;
    assert rest[0] == ':';
    SpanOfDigits(digits, rest);
  }

  /** Every entry is under its own labels' key, no object is under two, and the cap holds. */
  ghost predicate Inv(s: State) {
    && (forall k | k in s.entries ::
          && s.entries[k].id < s.created
          && k == KeyOf(s.entries[k].primary, s.entries[k].secondary))
    && (forall k, l | k in s.entries && l in s.entries && s.entries[k].id == s.entries[l].id :: k == l)
    && (|s.entries| <= MAX_SERIES || (|s.entries| == MAX_SERIES + 1 && LabelKey(OVERFLOW_LABELS) in s.entries))
  }

  ghost predicate Kept(s: State, t: State) {
    forall k | k in s.entries :: k in t.entries && t.entries[k] == s.entries[k]
  }

  lemma ForKeepsInv(s: State, labels: Labels)
    requires Inv(s)
    ensures Inv(For(s, labels))
    ensures Kept(s, For(s, labels))
  {
    if LabelKey(Resolves(s, labels)) !in s.entries {
      NewEntryKeepsInv(s, Resolves(s, labels));
    }
  }

  lemma NewEntryKeepsInv(s: State, kept: Labels)
    requires Inv(s) && LabelKey(kept) !in s.entries && (|s.entries| < MAX_SERIES || kept == OVERFLOW_LABELS)
    ensures var created := Created(s.created, kept.primary, kept.secondary);
            Inv(State(s.entries[LabelKey(kept) := created], s.created + 1))
  {
  }

  lemma {:induction false} ForAllKeepsInv(s: State, calls: seq<Labels>)
    requires Inv(s)
    ensures Inv(ForAll(s, calls))
    ensures Kept(s, ForAll(s, calls))
  {
    if calls != [] {
      var t := ForAll(s, calls[..|calls| - 1]);
      ForAllKeepsInv(s, calls[..|calls| - 1]);
      ForKeepsInv(t, calls[|calls| - 1]);
      assert Kept(s, For(t, calls[|calls| - 1]));
    }
  }

  lemma {:induction false} CapIsKept(s: State, labels: Labels, more: seq<Labels>)
    requires Inv(s) && LabelKey(Resolves(s, labels)) in s.entries
    ensures Answer(ForAll(s, more), labels) == Answer(s, labels)
  {
    if more != [] {
      var init := more[..|more| - 1];
      CapIsKept(s, labels, init);
      ForAllKeepsInv(s, init);
      StillResolves(s, labels, init);
    }
    ForAllKeepsInv(s, more);
    StillResolves(s, labels, more);
  }

  /** Once answered, labels keep resolving the same way. */
  lemma {:induction false} StillResolves(s: State, labels: Labels, more: seq<Labels>)
    requires Inv(s) && LabelKey(Resolves(s, labels)) in s.entries
    ensures Resolves(ForAll(s, more), labels) == Resolves(s, labels)
    ensures LabelKey(Resolves(s, labels)) in ForAll(s, more).entries
    ensures |s.entries| <= |ForAll(s, more).entries|
  {
    if more != [] {
      StillResolves(s, labels, more[..|more| - 1]);
      var t, last := ForAll(s, more[..|more| - 1]), more[|more| - 1];
      if LabelKey(labels) !in s.entries {
        KeysAreInjective(labels, Resolves(t, last));
      }
    }
  }

  /** The same labels are answered with the same object, however many calls come between. */
  lemma SameLabelsSameObject(start: State, calls: seq<Labels>, labels: Labels, more: seq<Labels>)
    requires start.entries == map[]
    ensures var s := ForAll(start, calls);
            Answer(ForAll(For(s, labels), more), labels) == Answer(s, labels)
  {
    var s := ForAll(start, calls);
    ForAllKeepsInv(start, calls);
    ForKeepsInv(s, labels);
    var t := For(s, labels);
    AnsweredOnce(s, labels);
    CapIsKept(t, labels, more);
  }

  lemma AnsweredOnce(s: State, labels: Labels)
    requires Inv(s)
    ensures var t := For(s, labels);
            Resolves(t, labels) == Resolves(s, labels) && LabelKey(Resolves(t, labels)) in t.entries &&
            Answer(t, labels) == Answer(s, labels)
  {
    KeysAreInjective(labels, Resolves(s, labels));
  }

  /** Between clears there are never more than 129 entries. */
  lemma NeverMoreThan129(start: State, calls: seq<Labels>)
    requires start.entries == map[]
    ensures |ForAll(start, calls).entries| <= 129
  {
    ForAllKeepsInv(start, calls);
  }

  /** Two different pairs of labels share an object only when both resolve to the overflow entry. */
  lemma SharedOnlyByOverflow(start: State, calls: seq<Labels>, a: Labels, b: Labels)
    requires start.entries == map[]
    requires a in calls && b in calls && a != b
    ensures var s := ForAll(start, calls);
            Answer(s, a).id == Answer(s, b).id <==> Resolves(s, a) == Resolves(s, b) == OVERFLOW_LABELS
  {
    var s := ForAll(start, calls);
    ForAllKeepsInv(start, calls);
    AskedIsKept(start, calls, a);
    AskedIsKept(start, calls, b);
    KeysAreInjective(Resolves(s, a), Resolves(s, b));
  }

  lemma {:induction false} AskedIsKept(start: State, calls: seq<Labels>, labels: Labels)
    requires start.entries == map[]
    requires labels in calls
    ensures LabelKey(Resolves(ForAll(start, calls), labels)) in ForAll(start, calls).entries
  {
    var init, last := calls[..|calls| - 1], calls[|calls| - 1];
    ForAllKeepsInv(start, init);
    var s := ForAll(start, init);
    if last == labels {
      AnsweredOnce(s, labels);
    } else {
      assert calls == init + [last];
      AskedIsKept(start, init, labels);
      StillResolves(s, labels, [last]);
      assert ForAll(s, [last]) == For(ForAll(s, []), last) by {
        assert [last][..0] == [];
      }
    }
  }

  // ---------------------------------------------------------------------------
  // Who has a series of its own
  // ---------------------------------------------------------------------------

  function Asked(calls: seq<Labels>): set<Labels> {
    set l | l in calls
  }

  ghost predicate HasKey(asked: set<Labels>, key: string) {
    exists l | l in asked :: key == LabelKey(l)
  }

  /** The entries are those of the labels asked for and, once the map is full, the overflow's. */
  ghost predicate AreAsked(s: State, asked: set<Labels>) {
    && (forall k | k in s.entries :: HasKey(asked, k) || (|asked| > 128 && k == LabelKey(OVERFLOW_LABELS)))
    && (|asked| <= 128 ==> |s.entries| == |asked| && forall l | l in asked :: LabelKey(l) in s.entries)
    && (|asked| > 128 ==> |s.entries| >= 128)
  }

  lemma HasKeyGrows(asked: set<Labels>, last: Labels, key: string)
    ensures HasKey(asked + {last}, key) <==> HasKey(asked, key) || key == LabelKey(last)
  {
    if HasKey(asked, key) {
      var l :| l in asked && key == LabelKey(l);
      assert l in asked + {last};
    }
    assert last in asked + {last};
  }

  lemma AskedAgain(s: State, asked: set<Labels>, last: Labels)
    requires AreAsked(s, asked) && (last in asked || |asked| > 128)
    ensures AreAsked(For(s, last), asked)
  {
  }

  lemma AskedFirst(s: State, asked: set<Labels>, last: Labels)
    requires AreAsked(s, asked) && last !in asked && |asked| <= 128
    ensures LabelKey(last) !in s.entries
    ensures AreAsked(For(s, last), asked + {last})
  {
    if HasKey(asked, LabelKey(last)) {
      var l :| l in asked && LabelKey(last) == LabelKey(l);
      KeysAreInjective(l, last);
    }
    forall k {
      HasKeyGrows(asked, last, k);
    }
    assert |asked + {last}| == |asked| + 1;
  }

  lemma OneMoreAsked(s: State, asked: set<Labels>, last: Labels)
    requires AreAsked(s, asked)
    ensures AreAsked(For(s, last), asked + {last})
  {
    if last in asked {
      AskedAgain(s, asked, last);
      assert asked + {last} == asked;
    } else if |asked| <= 128 {
      AskedFirst(s, asked, last);
    } else {
      AskedFull(s, asked, last);
    }
  }

  lemma AskedFull(s: State, asked: set<Labels>, last: Labels)
    requires AreAsked(s, asked) && last !in asked && |asked| > 128
    ensures AreAsked(For(s, last), asked + {last})
  {
    AskedAgain(s, asked, last);
    forall k {
      HasKeyGrows(asked, last, k);
    }
    assert |asked + {last}| == |asked| + 1;
  }

  lemma {:induction false} EntriesAreAsked(start: State, calls: seq<Labels>)
    requires start.entries == map[]
    ensures AreAsked(ForAll(start, calls), Asked(calls))
  {
    if calls != [] {
      var init, last := calls[..|calls| - 1], calls[|calls| - 1];
      EntriesAreAsked(start, init);
      OneMoreAsked(ForAll(start, init), Asked(init), last);
      AskedGrows(init, last);
      assert calls == init + [last];
    }
  }

  lemma AskedGrows(init: seq<Labels>, last: Labels)
    ensures Asked(init + [last]) == Asked(init) + {last}
  {
  }

  /**
   Labels asked for the first time since a clear get a series of their own exactly while fewer than
   128 other pairs have been asked for; from then on they get the one called `(other)`.
   */
  lemma OwnSeriesIffBelowTheCap(start: State, calls: seq<Labels>, labels: Labels)
    requires start.entries == map[] && labels !in calls
    ensures var answer := Answer(ForAll(start, calls), labels);
            Labels(answer.primary, answer.secondary) ==
            if |Asked(calls)| < 128 then labels else Labels("(other)", "(other)")
  {
    var s := ForAll(start, calls);
    ForAllKeepsInv(start, calls);
    EntriesAreAsked(start, calls);
    if LabelKey(labels) in s.entries && labels != OVERFLOW_LABELS {
      NotAskedHasNoEntry(s, Asked(calls), labels);
    }
    if LabelKey(OVERFLOW_LABELS) in s.entries {
      var kept := s.entries[LabelKey(OVERFLOW_LABELS)];
      KeysAreInjective(Labels(kept.primary, kept.secondary), OVERFLOW_LABELS);
    }
  }

  lemma NotAskedHasNoEntry(s: State, asked: set<Labels>, labels: Labels)
    requires AreAsked(s, asked) && labels !in asked && labels != OVERFLOW_LABELS
    ensures LabelKey(labels) !in s.entries
  {
    if LabelKey(labels) in s.entries {
      KeysAreInjective(labels, OVERFLOW_LABELS);
      var l :| l in asked && LabelKey(labels) == LabelKey(l);
      KeysAreInjective(labels, l);
    }
  }
}
