/**
 The cache of promises `explorer.ts` and `assets.ts` both keep: the promise is stored, not its
 value, and a rejection evicts. They differ in one thing: before it evicts, the explorer's
 handler checks that the entry is still its own, and the assets' does not.
 */
module PromiseCache {
  import opened Prelude

  datatype Status = Pending | Fulfilled | Rejected

  /** `handled` once the eviction handler has run; `era` counts the resets before it was made. */
  datatype Promise = Promise(key: string, status: Status, handled: bool, era: nat)

  datatype Cache = Cache(entries: map<string, nat>, promises: seq<Promise>, era: nat)

  datatype Event =
    | Ask(key: string)
    | Settle(id: nat, fulfils: bool)
    | Handle(id: nat)
    | Reset

  const EMPTY := Cache(map[], [], 0)

  /** The promise a call for `key` is given: the cached one or a new one. */
  function Answer(c: Cache, key: string): nat {
    if key in c.entries then c.entries[key] else |c.promises|
  }

  predicate Settles(c: Cache, id: nat) {
    id < |c.promises| && c.promises[id].status.Pending?
  }

  /** A rejection's handler runs once, some time after the rejection. */
  predicate Handles(c: Cache, id: nat) {
    id < |c.promises| && c.promises[id].status.Rejected? && !c.promises[id].handled
  }

  predicate OwnEntry(c: Cache, id: nat)
    requires id < |c.promises|
  {
    c.promises[id].key in c.entries && c.entries[c.promises[id].key] == id
  }

  function Apply(checked: bool, c: Cache, event: Event): Cache {
    match event
    case Ask(key) =>
      if key in c.entries then c
      else c.(entries := c.entries[key := |c.promises|],
              promises := c.promises + [Promise(key, Pending, false, c.era)])
    case Settle(id, fulfils) =>
      if !Settles(c, id) then c
      else c.(promises := c.promises[id := c.promises[id].(status := if fulfils then Fulfilled else Rejected)])
    case Handle(id) =>
      if !Handles(c, id) then c
      else c.(entries := if checked && !OwnEntry(c, id) then c.entries else c.entries - {c.promises[id].key},
              promises := c.promises[id := c.promises[id].(handled := true)])
    case Reset => c.(entries := map[], era := c.era + 1)
  }

  function Execute(checked: bool, events: seq<Event>): Cache {
    if events == [] then EMPTY
    else Apply(checked, Execute(checked, events[..|events| - 1]), events[|events| - 1])
  }

  /** Rejected, and its handler has run: no longer an answer to anything. */
  predicate Gone(p: Promise) {
    p.status.Rejected? && p.handled
  }

  ghost predicate PromiseOk(c: Cache, id: nat)
    requires id < |c.promises|
  {
    && c.promises[id].era <= c.era
    && (c.promises[id].handled ==> c.promises[id].status.Rejected?)
    && (c.promises[id].era == c.era ==> (OwnEntry(c, id) <==> !Gone(c.promises[id])))
  }

  ghost predicate EntryOk(c: Cache, key: string)
    requires key in c.entries
  {
    var id := c.entries[key];
    id < |c.promises| && c.promises[id].key == key && c.promises[id].era == c.era
  }

  /** Since the last reset, a promise is cached exactly until it is gone. */
  ghost predicate Inv(c: Cache) {
    && (forall id: nat | id < |c.promises| :: PromiseOk(c, id))
    && (forall key | key in c.entries :: EntryOk(c, key))
  }

  /** The unchecked handler would take an entry that is not its own. */
  predicate TakesAnother(c: Cache, id: nat) {
    Handles(c, id) && c.promises[id].key in c.entries && !OwnEntry(c, id)
  }

  /** An entry is another's exactly when a reset came between and the key was asked for again. */
  lemma TakesAnotherIff(c: Cache, id: nat)
    requires Inv(c) && Handles(c, id)
    ensures TakesAnother(c, id) <==> c.promises[id].era < c.era && c.promises[id].key in c.entries
  {
    assert PromiseOk(c, id);
    if c.promises[id].key in c.entries {
      assert EntryOk(c, c.promises[id].key);
    }
  }

  /** A handler that takes another's entry breaks the invariant at once, and no other unchecked one does. */
  lemma UncheckedHandlerKeepsInvIff(c: Cache, id: nat)
    requires Inv(c) && Handles(c, id)
    ensures Inv(Apply(false, c, Handle(id))) <==> !TakesAnother(c, id)
  {
    if TakesAnother(c, id) {
      var other := c.entries[c.promises[id].key];
      assert EntryOk(c, c.promises[id].key) && PromiseOk(c, other);
      assert !PromiseOk(Apply(false, c, Handle(id)), other);
    } else {
      StepKeepsInv(false, c, Handle(id));
    }
  }

  lemma StepKeepsInv(checked: bool, c: Cache, event: Event)
    requires Inv(c)
    requires !checked && event.Handle? ==> !TakesAnother(c, event.id)
    ensures Inv(Apply(checked, c, event))
  {
    var t := Apply(checked, c, event);
    if event.Handle? && Handles(c, event.id) {
      assert PromiseOk(c, event.id);
      TakesAnotherIff(c, event.id);
    }
    forall key | key in t.entries
      ensures EntryOk(t, key)
    {
      if key in c.entries {
        assert EntryOk(c, key);
      }
    }
    forall id: nat | id < |t.promises|
      ensures PromiseOk(t, id)
    {
      if id < |c.promises| {
        assert PromiseOk(c, id);
        if c.promises[id].key in c.entries {
          assert EntryOk(c, c.promises[id].key);
        }
      }
    }
  }

  ghost predicate NoReset(events: seq<Event>) {
    forall i | 0 <= i < |events| :: !events[i].Reset?
  }

  /** No event of the run resets, or the handler checks: the two ways to be safe. */
  ghost predicate Safe(checked: bool, events: seq<Event>) {
    checked || NoReset(events)
  }

  lemma {:induction false} EraCountsResets(checked: bool, events: seq<Event>)
    requires NoReset(events)
    ensures Execute(checked, events).era == 0
  {
    if events != [] {
      EraCountsResets(checked, events[..|events| - 1]);
    }
  }

  lemma {:induction false} ExecuteKeepsInv(checked: bool, events: seq<Event>)
    requires Safe(checked, events)
    ensures Inv(Execute(checked, events))
  {
    if events != [] {
      var init, last := events[..|events| - 1], events[|events| - 1];
      ExecuteKeepsInv(checked, init);
      var c := Execute(checked, init);
      if !checked && last.Handle? && Handles(c, last.id) {
        EraCountsResets(checked, init);
        TakesAnotherIff(c, last.id);
      }
      StepKeepsInv(checked, c, last);
    }
  }

  /**
   In any safe run: a second promise for a key is made only when every earlier one since the last
   reset is gone; nothing rejected stays cached once its handler ran; and a handler never takes
   another's entry.
   */
  lemma OnePromiseAtATime(checked: bool, events: seq<Event>)
    requires Safe(checked, events)
    ensures var c := Execute(checked, events);
            && (forall key | key !in c.entries ::
                  forall id: nat | id < |c.promises| && c.promises[id].key == key && c.promises[id].era == c.era ::
                    Gone(c.promises[id]))
            && (forall key | key in c.entries :: c.entries[key] < |c.promises| && !Gone(c.promises[c.entries[key]]))
            && (forall i: nat, j: nat | i < |c.promises| && j < |c.promises| && c.promises[i].key == c.promises[j].key &&
                  c.promises[i].era == c.promises[j].era == c.era && !Gone(c.promises[i]) && !Gone(c.promises[j]) :: i == j)
            && (forall i: nat | Handles(c, i) && c.promises[i].era == c.era :: OwnEntry(c, i))
  {
    ExecuteKeepsInv(checked, events);
    var c := Execute(checked, events);
    forall id: nat | id < |c.promises| && c.promises[id].era == c.era
      ensures OwnEntry(c, id) <==> !Gone(c.promises[id])
    {
      assert PromiseOk(c, id);
    }
    forall key | key in c.entries
      ensures EntryOk(c, key)
    {
    }
  }

  /** Without resets the identity check never fails: with it or without it, every run is the same. */
  lemma {:induction false} CheckNeverFails(events: seq<Event>)
    requires NoReset(events)
    ensures Execute(true, events) == Execute(false, events)
    ensures forall i: nat | Handles(Execute(true, events), i) :: OwnEntry(Execute(true, events), i)
  {
    if events != [] {
      CheckNeverFails(events[..|events| - 1]);
    }
    var c := Execute(true, events);
    ExecuteKeepsInv(true, events);
    EraCountsResets(true, events);
    forall i: nat | Handles(c, i)
      ensures OwnEntry(c, i)
    {
      assert PromiseOk(c, i);
    }
  }

  lemma ExecuteLast(checked: bool, events: seq<Event>, last: Event)
    ensures Execute(checked, events + [last]) == Apply(checked, Execute(checked, events), last)
  {
    assert (events + [last])[..|events|] == events;
  }

  // ---------------------------------------------------------------------------
  // How a promise settled, ever after
  // ---------------------------------------------------------------------------

  ghost predicate SettlesAt(checked: bool, events: seq<Event>, i: nat, id: nat) {
    && i < |events| && events[i].Settle? && events[i].id == id
    && id < |Execute(checked, events[..i]).promises|
  }

  /** Event `i` is the first settlement of this promise since it was made. */
  ghost predicate FirstSettlesAt(checked: bool, events: seq<Event>, i: nat, id: nat) {
    SettlesAt(checked, events, i, id) && forall j | 0 <= j < i :: !SettlesAt(checked, events, j, id)
  }

  lemma SettlesBefore(checked: bool, events: seq<Event>, i: nat, id: nat)
    requires i < |events| - 1
    ensures SettlesAt(checked, events[..|events| - 1], i, id) <==> SettlesAt(checked, events, i, id)
  {
    assert events[..|events| - 1][..i] == events[..i];
  }

  lemma {:induction false} UnsettledIsPending(checked: bool, events: seq<Event>, id: nat)
    requires id < |Execute(checked, events).promises|
    requires forall j | 0 <= j < |events| :: !SettlesAt(checked, events, j, id)
    ensures Execute(checked, events).promises[id].status.Pending? && !Execute(checked, events).promises[id].handled
  {
    var init := events[..|events| - 1];
    if id < |Execute(checked, init).promises| {
      forall j | 0 <= j < |init|
        ensures !SettlesAt(checked, init, j, id)
      {
        SettlesBefore(checked, events, j, id);
      }
      UnsettledIsPending(checked, init, id);
      assert !SettlesAt(checked, events, |init|, id);
    }
  }

  /** The first settlement decides: told to fulfil a promise is fulfilled ever after, and else it is rejected. */
  lemma {:induction false} FirstSettlementStays(checked: bool, events: seq<Event>, i: nat, id: nat)
    requires FirstSettlesAt(checked, events, i, id)
    ensures id < |Execute(checked, events).promises|
    ensures Execute(checked, events).promises[id].status == (if events[i].fulfils then Fulfilled else Rejected)
    ensures (forall j | i < j < |events| :: events[j] != Handle(id)) ==> !Execute(checked, events).promises[id].handled
  {
    var init := events[..|events| - 1];
    if i < |init| {
      forall j | 0 <= j <= i
        ensures SettlesAt(checked, init, j, id) <==> SettlesAt(checked, events, j, id)
      {
        SettlesBefore(checked, events, j, id);
      }
      FirstSettlementStays(checked, init, i, id);
    } else {
      forall j | 0 <= j < |init|
        ensures !SettlesAt(checked, init, j, id)
      {
        SettlesBefore(checked, events, j, id);
      }
      UnsettledIsPending(checked, init, id);
    }
  }

  /** Every promise was made for the key it is answered for, and a new one is pending. */
  lemma AskedIsAnswered(checked: bool, events: seq<Event>, key: string)
    requires Safe(checked, events)
    ensures var c, id := Execute(checked, events + [Ask(key)]), Answer(Execute(checked, events), key);
            && id < |c.promises| && c.promises[id].key == key && Answer(c, key) == id
            && (id == |Execute(checked, events).promises| ==> c.promises[id].status.Pending?)
  {
    ExecuteLast(checked, events, Ask(key));
    ExecuteKeepsInv(checked, events);
    var c := Execute(checked, events);
    if key in c.entries {
      assert EntryOk(c, key);
    }
  }

  /**
   Without resets a promise whose first settlement fulfilled it answers every later ask for its
   key: the ask makes no new promise and changes nothing.
   */
  lemma FulfilledIsKept(checked: bool, events: seq<Event>, i: nat, id: nat)
    requires NoReset(events) && FirstSettlesAt(checked, events, i, id) && events[i].fulfils
    ensures var c := Execute(checked, events);
            && id < |c.promises| && c.promises[id].status.Fulfilled?
            && Answer(c, c.promises[id].key) == id
            && Execute(checked, events + [Ask(c.promises[id].key)]) == c
  {
    FirstSettlementStays(checked, events, i, id);
    IsOwnUntilGone(checked, events, id);
    ExecuteLast(checked, events, Ask(Execute(checked, events).promises[id].key));
  }

  lemma IsOwnUntilGone(checked: bool, events: seq<Event>, id: nat)
    requires NoReset(events) && id < |Execute(checked, events).promises|
    ensures var c := Execute(checked, events); OwnEntry(c, id) <==> !Gone(c.promises[id])
  {
    ExecuteKeepsInv(checked, events);
    EraCountsResets(checked, events);
    assert PromiseOk(Execute(checked, events), id);
  }

  /** One whose first settlement rejected it answers until its handler runs; the next ask then makes a new one. */
  lemma RejectedIsRetried(checked: bool, events: seq<Event>, i: nat, id: nat)
    requires NoReset(events) && FirstSettlesAt(checked, events, i, id) && !events[i].fulfils
    requires forall j | i < j < |events| :: events[j] != Handle(id)
    ensures var c := Execute(checked, events);
            && id < |c.promises| && c.promises[id].status.Rejected?
            && Answer(c, c.promises[id].key) == id
            && Answer(Execute(checked, events + [Handle(id)]), c.promises[id].key) == |c.promises|
  {
    FirstSettlementStays(checked, events, i, id);
    IsOwnUntilGone(checked, events, id);
    ExecuteLast(checked, events, Handle(id));
  }

  /** With a reset and no check, a late rejection takes the retry's entry and a third read starts beside it. */
  lemma ResetNeedsTheCheck(key: string)
    ensures var events := [] + [Ask(key)] + [Reset] + [Ask(key)] + [Settle(0, false)] + [Handle(0)] + [Ask(key)];
            var c := Execute(false, events);
            && |c.promises| == 3 && c.promises[1].status.Pending? && c.promises[2].status.Pending?
            && c.promises[1].era == c.promises[2].era == c.era
  {
    var events: seq<Event> := [];
    ExecuteLast(false, events, Ask(key));
    ExecuteLast(false, events + [Ask(key)], Reset);
    ExecuteLast(false, events + [Ask(key)] + [Reset], Ask(key));
    ExecuteLast(false, events + [Ask(key)] + [Reset] + [Ask(key)], Settle(0, false));
    ExecuteLast(false, events + [Ask(key)] + [Reset] + [Ask(key)] + [Settle(0, false)], Handle(0));
    ExecuteLast(false, events + [Ask(key)] + [Reset] + [Ask(key)] + [Settle(0, false)] + [Handle(0)], Ask(key));
  }
}
