/**
 `redisStorage.increment` of `redis.ts`: INCR, then EXPIRE for the client that was answered 1.
 Any number of clients share one key, and their commands interleave.
 */
module RateCounter {
  import opened Prelude

  /** One life of the key: who opened it, what its INCRs returned, and who gave it a deadline, in order. */
  datatype Window = Window(opener: nat, returned: seq<nat>, setters: seq<nat>)

  /** `awaiting` holds the clients answered 1 that have not sent their EXPIRE yet. */
  datatype State = State(
    now: nat, value: Option<nat>, deadline: Option<nat>, windows: seq<Window>, awaiting: set<nat>)

  datatype Step =
    | Incr(client: nat)
    | Expire(client: nat, ttl: nat)
    | Tick
    | Lapse
    | Lose(client: nat)
    | Delete

  const EMPTY := State(0, None, None, [], {})

  function WithLast(windows: seq<Window>, window: Window): seq<Window>
    requires windows != []
  {
    windows[..|windows| - 1] + [window]
  }

  function Apply(s: State, step: Step): State {
    match step
    case Incr(client) =>
      if client in s.awaiting then s
      else if s.value.None? || s.windows == [] then
        s.(value := Some(1), deadline := None, windows := s.windows + [Window(client, [1], [])],
           awaiting := s.awaiting + {client})
      else
        var next, last := s.value.value + 1, s.windows[|s.windows| - 1];
        s.(value := Some(next), windows := WithLast(s.windows, last.(returned := last.returned + [next])))
    case Expire(client, ttl) =>
      if client !in s.awaiting then s
      else if s.value.None? || s.windows == [] then s.(awaiting := s.awaiting - {client})
      else
        var last := s.windows[|s.windows| - 1];
        s.(deadline := Some(s.now + ttl), awaiting := s.awaiting - {client},
           windows := WithLast(s.windows, last.(setters := last.setters + [client])))
    case Tick => s.(now := s.now + 1)
    case Lapse =>
      if s.deadline.Some? && s.deadline.value <= s.now then s.(value := None, deadline := None) else s
    case Lose(client) => s.(awaiting := s.awaiting - {client})
    case Delete => s.(value := None, deadline := None)
  }

  function Execute(s: State, steps: seq<Step>): State {
    if steps == [] then s
    else Apply(Execute(s, steps[..|steps| - 1]), steps[|steps| - 1])
  }

  /** The key as one Redis connection sees it, and the two commands of `increment` in order. */
  class RedisKey {
    var now: nat
    var value: Option<nat>
    var deadline: Option<nat>

    constructor (now: nat)
      ensures this.now == now && value == None && deadline == None
    {
      this.now, value, deadline := now, None, None;
    }

    method Incr() returns (n: nat)
      modifies this`value, this`deadline
      ensures n == old(value).GetOr(0) + 1 && value == Some(n)
      ensures deadline == if old(value).None? then None else old(deadline)
    {
      if value.None? {
        deadline := None;
      }
      n := value.GetOr(0) + 1;
      value := Some(n);
    }

    method Expire(ttl: nat) returns (applied: bool)
      modifies this`deadline
      ensures applied == value.Some?
      ensures deadline == if value.Some? then Some(now + ttl) else old(deadline)
    {
      if value.None? {
        return false;
      }
      deadline := Some(now + ttl);
      return true;
    }

    /** Uninterrupted: the count goes up by one, and only the first hit of a window touches its deadline. */
    method Increment(ttl: nat) returns (n: nat)
      modifies this`value, this`deadline
      ensures n == old(value).GetOr(0) + 1 && value == Some(n)
      ensures deadline == if n == 1 then Some(now + ttl) else old(deadline)
    {
      n := Incr();
      if n == 1 {
        var _ := Expire(ttl);
      }
    }
  }

  // ---------------------------------------------------------------------------
  // With no client lost or overtaken by a delete before its EXPIRE
  // ---------------------------------------------------------------------------

  /** No client that owes the deadline is lost, and none is owed when the key is deleted. */
  predicate Kept(s: State, step: Step) {
    && (step.Lose? ==> step.client !in s.awaiting)
    && (step.Delete? ==> s.awaiting == {})
  }

  predicate KeptRun(steps: seq<Step>) {
    steps != [] ==>
      && KeptRun(steps[..|steps| - 1])
      && Kept(Execute(EMPTY, steps[..|steps| - 1]), steps[|steps| - 1])
  }

  function Count(n: nat): seq<nat> {
    seq(n, i => i + 1)
  }

  ghost predicate Closed(window: Window) {
    window.returned == Count(|window.returned|) && window.returned != [] && window.setters == [window.opener]
  }

  /** The open window has its deadline, or its opener is about to set it; nobody else is. */
  ghost predicate OpenOk(s: State) {
    s.windows != [] &&
    var last := s.windows[|s.windows| - 1];
    && last.returned == Count(s.value.GetOr(0)) && last.returned != []
    && (if s.deadline.Some? then last.setters == [last.opener] && s.awaiting == {}
        else last.setters == [] && s.awaiting == {last.opener})
  }

  ghost predicate Inv(s: State) {
    && (forall i | 0 <= i < |s.windows| - 1 :: Closed(s.windows[i]))
    && (if s.value.Some? then OpenOk(s)
        else s.deadline.None? && s.awaiting == {} && (s.windows != [] ==> Closed(s.windows[|s.windows| - 1])))
  }

  /** Every command of every client and every expiry keeps the invariant, unless it is a loss or a delete too early. */
  lemma StepKeepsInv(s: State, step: Step)
    requires Inv(s) && Kept(s, step)
    ensures Inv(Apply(s, step))
  {
    var t := Apply(s, step);
    if step.Incr? && step.client !in s.awaiting {
      if s.value.Some? {
        assert Count(s.value.value + 1) == Count(s.value.value) + [s.value.value + 1];
      } else {
        assert Count(1) == [1];
        assert forall i | 0 <= i < |s.windows| :: Closed(s.windows[i]);
      }
    }
    if (step.Lapse? || step.Delete?) && t != s && s.windows != [] {
      assert Closed(s.windows[|s.windows| - 1]);
    }
  }

  lemma {:induction false} ExecuteKeepsInv(steps: seq<Step>)
    requires KeptRun(steps)
    ensures Inv(Execute(EMPTY, steps))
  {
    if steps != [] {
      ExecuteKeepsInv(steps[..|steps| - 1]);
      StepKeepsInv(Execute(EMPTY, steps[..|steps| - 1]), steps[|steps| - 1]);
    }
  }

  /**
   Each window returned 1, 2, 3, ... with no gap and no repeat; each finished window was given its
   deadline exactly once, by the client that saw 1; and the open one either has that deadline or
   is about to get it from that client alone.
   */
  ghost predicate WindowsCount(s: State) {
    && (forall i | 0 <= i < |s.windows| :: s.windows[i].returned == Count(|s.windows[i].returned|))
    && (forall i | 0 <= i < |s.windows| && (i < |s.windows| - 1 || s.value.None?) ::
          s.windows[i].setters == [s.windows[i].opener])
    && (s.value.Some? ==>
          s.windows != [] &&
          var last := s.windows[|s.windows| - 1];
          if s.deadline.Some? then last.setters == [last.opener] && s.awaiting == {}
          else last.setters == [] && s.awaiting == {last.opener})
  }

  lemma InvCounts(s: State)
    requires Inv(s)
    ensures WindowsCount(s)
  {
    forall i | 0 <= i < |s.windows|
      ensures s.windows[i].returned == Count(|s.windows[i].returned|)
      ensures i < |s.windows| - 1 || s.value.None? ==> s.windows[i].setters == [s.windows[i].opener]
    {
      if i < |s.windows| - 1 || s.value.None? {
        assert Closed(s.windows[i]);
      }
    }
  }

  /** However clients, expiry and time interleave, the windows count as they should. */
  lemma EveryWindowCounts(steps: seq<Step>)
    requires KeptRun(steps)
    ensures WindowsCount(Execute(EMPTY, steps))
  {
    ExecuteKeepsInv(steps);
    InvCounts(Execute(EMPTY, steps));
  }

  /** A loss or a delete too early spoils the windows at once. */
  lemma UnkeptStepSpoils(s: State, step: Step)
    requires Inv(s)
    ensures WindowsCount(Apply(s, step)) <==> Kept(s, step)
  {
    if Kept(s, step) {
      StepKeepsInv(s, step);
      InvCounts(Apply(s, step));
    } else {
      var t, last := Apply(s, step), |s.windows| - 1;
      assert t.windows == s.windows && s.windows[last].setters == [];
      if step.Lose? {
        assert s.windows[last].opener !in t.awaiting;
      }
    }
  }

  /** After these steps and after each before them. */
  ghost predicate CountThroughout(steps: seq<Step>) {
    WindowsCount(Execute(EMPTY, steps)) && (steps != [] ==> CountThroughout(steps[..|steps| - 1]))
  }

  /**
   The windows count as they should all through a run exactly when no client is lost while it
   owes the deadline and the key is never deleted while one does.
   */
  lemma {:induction false} WindowsCountIffKept(steps: seq<Step>)
    ensures CountThroughout(steps) <==> KeptRun(steps)
  {
    if steps != [] {
      var init, last := steps[..|steps| - 1], steps[|steps| - 1];
      WindowsCountIffKept(init);
      if KeptRun(init) {
        ExecuteKeepsInv(init);
        UnkeptStepSpoils(Execute(EMPTY, init), last);
      }
    }
  }

  /** A deadline, once set, is not moved by anything but the window's own end or a delete. */
  lemma LaterHitsDoNotExtend(s: State, step: Step)
    requires Inv(s) && s.deadline.Some?
    ensures Apply(s, step).deadline == s.deadline || step.Delete? || (step.Lapse? && s.deadline.value <= s.now)
  {
  }

  // ---------------------------------------------------------------------------
  // What a lost client and a delete do
  // ---------------------------------------------------------------------------

  /** A window nobody is going to give a deadline. */
  predicate Stranded(s: State) {
    s.value.Some? && s.deadline.None? && s.awaiting == {} && s.windows != []
  }

  /** Without its opener's EXPIRE a window never ends: it goes on counting for good. */
  lemma {:induction false} StrandedForEver(s: State, steps: seq<Step>)
    requires Stranded(s) && forall i | 0 <= i < |steps| :: !steps[i].Delete?
    ensures var t := Execute(s, steps);
            Stranded(t) && |t.windows| == |s.windows| && t.value.value >= s.value.value
  {
    if steps != [] {
      StrandedForEver(s, steps[..|steps| - 1]);
    }
  }

  /** Losing a client strands the window exactly when it is the one that saw 1 and has not set the deadline. */
  lemma LossStrandsIff(s: State, client: nat)
    requires Inv(s) && s.value.Some?
    ensures Stranded(Apply(s, Lose(client))) <==> client in s.awaiting
  {
    if s.deadline.None? {
      var opener := s.windows[|s.windows| - 1].opener;
      assert client != opener ==> opener in s.awaiting - {client};
      assert s.awaiting - {opener} == {};
    }
  }

  /** After a delete, the first opener's late EXPIRE moves the next window's deadline. */
  lemma DeleteLetsAStaleExpireExtend(a: nat, b: nat, ttl: nat)
    requires a != b
    ensures var s := Apply(Apply(Apply(Apply(EMPTY, Incr(a)), Delete), Incr(b)), Expire(b, ttl));
            var t := Apply(Apply(s, Tick), Expire(a, ttl));
            && s.deadline == Some(ttl) && t.deadline == Some(ttl + 1)
            && |t.windows| == 2 && t.windows[1].opener == b && t.windows[1].setters == [b, a]
  {
    var s1 := Apply(EMPTY, Incr(a));
    assert s1.windows == [Window(a, [1], [])] && s1.awaiting == {a};
    var s3 := Apply(Apply(s1, Delete), Incr(b));
    assert s3.windows == [Window(a, [1], []), Window(b, [1], [])] && s3.awaiting == {a, b};
    var s4 := Apply(s3, Expire(b, ttl));
    assert s3.windows[..1] == [Window(a, [1], [])];
    assert [] + [b] == [b];
    assert s4.windows[1] == Window(b, [1], [b]) && |s4.windows| == 2 && a in s4.awaiting;
  }
}
