/**
 `usePoll` of `poll.ts`. Each run of its effect has its own `stopped` flag, request and timer;
 the shared `generation` counts the runs. Requests settle, and timers fire, in any order.
 */
module Poll {
  import opened Prelude

  /** One run of the effect. `requests` are in flight, `timers` armed; nothing here bounds either to one. */
  datatype Effect = Effect(interval: nat, stopped: bool, requests: nat, timers: nat, answered: bool)

  datatype State<T> = State(
    data: Option<T>, error: Option<string>, loading: bool, generation: nat, effects: seq<Effect>)

  /** Runs are numbered from 1, as `mine` is. */
  datatype Event<T> =
    | Render(interval: nat)
    | Settle(mine: nat, outcome: Result<T, string>)
    | Fire(mine: nat)
    | Unmount

  function Initial<T>(): State<T> {
    State(None, None, true, 0, [])
  }

  /** The cleanup: a stopped run keeps its request, which nothing can recall, and loses the timer it knows. */
  function Cleaned(effect: Effect): Effect {
    effect.(stopped := true, timers := if effect.timers > 0 then effect.timers - 1 else 0)
  }

  function CleanedLast(effects: seq<Effect>): seq<Effect> {
    if effects == [] || effects[|effects| - 1].stopped then effects
    else effects[|effects| - 1 := Cleaned(effects[|effects| - 1])]
  }

  predicate Runs<T>(s: State<T>, mine: nat) {
    0 < mine <= |s.effects|
  }

  predicate Live<T>(s: State<T>, mine: nat)
    requires Runs(s, mine)
  {
    !s.effects[mine - 1].stopped && s.generation == mine
  }

  /** One event; one that cannot happen - no request to settle, no timer to fire - changes nothing. */
  function Apply<T>(s: State<T>, event: Event<T>): State<T> {
    match event
    case Render(interval) =>
      s.(generation := s.generation + 1,
         loading := true,
         effects := CleanedLast(s.effects) + [Effect(interval, false, 1, 0, false)])
    case Unmount => s.(effects := CleanedLast(s.effects))
    case Fire(mine) =>
      if !Runs(s, mine) || s.effects[mine - 1].timers == 0 then s
      else
        var effect := s.effects[mine - 1];
        s.(effects := s.effects[mine - 1 := effect.(timers := effect.timers - 1, requests := effect.requests + 1)])
    case Settle(mine, outcome) =>
      if !Runs(s, mine) || s.effects[mine - 1].requests == 0 then s
      else
        var effect := s.effects[mine - 1].(requests := s.effects[mine - 1].requests - 1);
        if !Live(s, mine) then s.(effects := s.effects[mine - 1 := effect])
        else
          var next := effect.(answered := true, timers := effect.timers + if effect.interval > 0 then 1 else 0);
          s.(data := if outcome.Ok? then Some(outcome.value) else s.data,
             error := if outcome.Ok? then None else Some(outcome.error),
             loading := false,
             effects := s.effects[mine - 1 := next])
  }

  function Execute<T>(s: State<T>, events: seq<Event<T>>): State<T> {
    if events == [] then s
    else Apply(Execute(s, events[..|events| - 1]), events[|events| - 1])
  }

  // ---------------------------------------------------------------------------
  // The hook itself
  // ---------------------------------------------------------------------------

  class Hook<T> {
    var data: Option<T>
    var error: Option<string>
    var loading: bool
    var generation: nat
    var effects: seq<Effect>

    function View(): State<T>
      reads this
    {
      State(data, error, loading, generation, effects)
    }

    constructor ()
      ensures View() == Initial()
    {
      data, error, loading, generation, effects := None, None, true, 0, [];
    }

    method Cleanup()
      modifies this`effects
      ensures effects == CleanedLast(old(effects))
    {
      if |effects| > 0 && !effects[|effects| - 1].stopped {
        var effect := effects[|effects| - 1].(stopped := true);
        if effect.timers > 0 {
          effect := effect.(timers := effect.timers - 1);
        }
        effects := effects[|effects| - 1 := effect];
      }
    }

    method RunEffect(interval: nat)
      modifies this
      ensures View() == Apply(old(View()), Render(interval))
    {
      Cleanup();
      generation := generation + 1;
      loading := true;
      effects := effects + [Effect(interval, false, 1, 0, false)];
    }

    method Settled(mine: nat, outcome: Result<T, string>)
      modifies this
      ensures View() == Apply(old(View()), Settle(mine, outcome))
    {
      if mine == 0 || mine > |effects| || effects[mine - 1].requests == 0 {
        return;
      }
      var effect := effects[mine - 1];
      effect := effect.(requests := effect.requests - 1);
      var live := !effect.stopped && generation == mine;
      if live {
        match outcome
        case Ok(next) =>
          data := Some(next);
          error := None;
        case Err(message) =>
          error := Some(message);
      }
      if live {
        loading := false;
        effect := effect.(answered := true);
        if effect.interval > 0 {
          effect := effect.(timers := effect.timers + 1);
        }
      }
      effects := effects[mine - 1 := effect];
    }

    method Fired(mine: nat)
      modifies this`effects
      ensures View() == Apply(old(View()), Fire(mine))
    {
      if 0 < mine <= |effects| && effects[mine - 1].timers > 0 {
        var effect := effects[mine - 1];
        effects := effects[mine - 1 := effect.(timers := effect.timers - 1, requests := effect.requests + 1)];
      }
    }

    method Unmounted()
      modifies this`effects
      ensures View() == Apply(old(View()), Unmount)
    {
      Cleanup();
    }
  }

  // ---------------------------------------------------------------------------
  // Every run
  // ---------------------------------------------------------------------------

  /** Exactly one of: a request in flight, a timer armed, or idle because polling is off and the answer is in. */
  ghost predicate OneOfThree(effect: Effect) {
    || (effect.requests == 1 && effect.timers == 0)
    || (effect.requests == 0 && effect.timers == 1 && effect.interval > 0 && effect.answered)
    || (effect.requests == 0 && effect.timers == 0 && effect.interval == 0 && effect.answered)
  }

  ghost predicate EffectOk<T>(s: State<T>, mine: nat)
    requires Runs(s, mine)
  {
    var effect := s.effects[mine - 1];
    && (mine < s.generation ==> effect.stopped)
    && (effect.stopped ==> effect.requests <= 1 && effect.timers == 0)
    && (!effect.stopped ==> OneOfThree(effect))
  }

  ghost predicate Inv<T>(s: State<T>) {
    && s.generation == |s.effects|
    && (forall mine | Runs(s, mine) :: EffectOk(s, mine))
    && (s.loading <==> s.effects == [] || !s.effects[|s.effects| - 1].answered)
  }

  lemma StepKeepsInv<T>(s: State<T>, event: Event<T>)
    requires Inv(s)
    ensures Inv(Apply(s, event))
  {
    var t := Apply(s, event);
    if event.Fire? || event.Settle? {
      if Runs(s, event.mine) {
        assert EffectOk(s, event.mine);
      }
    }
    forall mine | Runs(t, mine)
      ensures EffectOk(t, mine)
    {
      if Runs(s, mine) {
        assert EffectOk(s, mine);
      }
    }
  }

  lemma {:induction false} ExecuteKeepsInv<T>(events: seq<Event<T>>)
    ensures Inv(Execute(Initial<T>(), events))
  {
    if events != [] {
      ExecuteKeepsInv(events[..|events| - 1]);
      StepKeepsInv(Execute(Initial<T>(), events[..|events| - 1]), events[|events| - 1]);
    }
  }

  /**
   However renders, settlements, timers and unmounts interleave: at most the newest run is live and
   it is in exactly one of its three states, no stopped run has a timer, no run ever has two
   requests, and `loading` is true just while the newest run has had no answer.
   */
  lemma EveryRunIsOrderly<T>(events: seq<Event<T>>)
    ensures var s := Execute(Initial<T>(), events);
            && (forall mine | Runs(s, mine) && Live(s, mine) :: mine == |s.effects| && OneOfThree(s.effects[mine - 1]))
            && (forall mine | Runs(s, mine) && !Live(s, mine) ::
                  s.effects[mine - 1].stopped && s.effects[mine - 1].timers == 0)
            && (forall mine | Runs(s, mine) :: s.effects[mine - 1].requests <= 1)
            && (s.loading <==> s.effects == [] || !s.effects[|s.effects| - 1].answered)
  {
    ExecuteKeepsInv(events);
    var s := Execute(Initial<T>(), events);
    forall mine | Runs(s, mine)
      ensures s.effects[mine - 1].requests <= 1
      ensures !Live(s, mine) ==> s.effects[mine - 1].stopped && s.effects[mine - 1].timers == 0
      ensures Live(s, mine) ==> OneOfThree(s.effects[mine - 1])
    {
      assert EffectOk(s, mine);
    }
  }

  /** Only a settlement of the live run writes what is shown. */
  lemma OnlyTheLiveRunWrites<T>(s: State<T>, event: Event<T>)
    requires (Apply(s, event).data, Apply(s, event).error) != (s.data, s.error)
    ensures event.Settle? && Runs(s, event.mine) && Live(s, event.mine)
  {
  }

  /** Data survives: no sequence of events takes it away. */
  lemma {:induction false} DataSurvives<T>(s: State<T>, events: seq<Event<T>>)
    requires s.data.Some?
    ensures Execute(s, events).data.Some?
  {
    if events != [] {
      DataSurvives(s, events[..|events| - 1]);
    }
  }

  ghost predicate SettlesOnly<T>(events: seq<Event<T>>, upTo: nat) {
    forall i | 0 <= i < |events| && events[i].Settle? :: events[i].mine <= upTo
  }

  lemma {:induction false} SupersededStaysSuperseded<T>(s: State<T>, generation: nat, events: seq<Event<T>>)
    requires s.generation > generation && SettlesOnly(events, generation)
    ensures var t := Execute(s, events);
            t.generation >= s.generation && t.data == s.data && t.error == s.error
  {
    if events != [] {
      SupersededStaysSuperseded(s, generation, events[..|events| - 1]);
    }
  }

  /** After a render, however many earlier requests answer or fail, what is shown does not change. */
  lemma NoStaleRepaint<T>(s: State<T>, interval: nat, events: seq<Event<T>>)
    requires SettlesOnly(events, s.generation)
    ensures var rendered := Apply(s, Render(interval));
            Execute(rendered, events).data == s.data && Execute(rendered, events).error == s.error
  {
    SupersededStaysSuperseded(Apply(s, Render(interval)), s.generation, events);
  }

  // ---------------------------------------------------------------------------
  // What is shown
  // ---------------------------------------------------------------------------

  /** Event `i` settles a request of the run that is live. */
  ghost predicate LiveAnswerAt<T>(s: State<T>, events: seq<Event<T>>, i: nat) {
    && i < |events| && events[i].Settle?
    && var before := Execute(s, events[..i]);
       Runs(before, events[i].mine) && before.effects[events[i].mine - 1].requests > 0 && Live(before, events[i].mine)
  }

  lemma AnswersBefore<T>(s: State<T>, events: seq<Event<T>>, i: nat)
    requires i < |events| - 1
    ensures LiveAnswerAt(s, events[..|events| - 1], i) <==> LiveAnswerAt(s, events, i)
  {
    assert events[..|events| - 1][..i] == events[..i];
  }

  /**
   What is shown is what the live run was last answered: the error of a failure, or none after a
   success, and the value of the last success, whatever renders, timers and stale answers came since.
   */
  lemma {:induction false} LatestIsShown<T>(s: State<T>, events: seq<Event<T>>, i: nat)
    requires LiveAnswerAt(s, events, i)
    ensures (forall j | i < j < |events| :: !LiveAnswerAt(s, events, j)) ==>
              Execute(s, events).error == (if events[i].outcome.Ok? then None else Some(events[i].outcome.error))
    ensures events[i].outcome.Ok? &&
            (forall j | i < j < |events| && LiveAnswerAt(s, events, j) :: events[j].outcome.Err?) ==>
              Execute(s, events).data == Some(events[i].outcome.value)
    ensures (forall j | i < j < |events| :: !events[j].Render?) ==> !Execute(s, events).loading
  {
    var init, last := events[..|events| - 1], |events| - 1;
    if i < last {
      forall j: nat | j < last
        ensures LiveAnswerAt(s, init, j) <==> LiveAnswerAt(s, events, j)
      {
        AnswersBefore(s, events, j);
      }
      LatestIsShown(s, init, i);
      ShownOneMore(s, events);
    }
  }

  lemma ShownOneMore<T>(s: State<T>, events: seq<Event<T>>)
    requires events != []
    ensures var before, after, last := Execute(s, events[..|events| - 1]), Execute(s, events), |events| - 1;
            && (!LiveAnswerAt(s, events, last) ==> after.data == before.data && after.error == before.error)
            && (LiveAnswerAt(s, events, last) && events[last].outcome.Err? ==> after.data == before.data)
            && (!events[last].Render? && !before.loading ==> !after.loading)
            && (!LiveAnswerAt(s, events, last) && before.loading ==> after.loading)
  {
    if LiveAnswerAt(s, events, |events| - 1) {
      assert Live(Execute(s, events[..|events| - 1]), events[|events| - 1].mine);
    }
  }

  /** Until the live run is answered, what is shown is what was, and a render is still loading. */
  lemma {:induction false} UnansweredIsUnchanged<T>(s: State<T>, interval: nat, events: seq<Event<T>>)
    requires forall j | 0 <= j < |events| :: !LiveAnswerAt(Apply(s, Render(interval)), events, j)
    ensures var t := Execute(Apply(s, Render(interval)), events); t.data == s.data && t.error == s.error && t.loading
  {
    if events != [] {
      var init, rendered := events[..|events| - 1], Apply(s, Render(interval));
      forall j: nat | j < |init|
        ensures !LiveAnswerAt(rendered, init, j)
      {
        AnswersBefore(rendered, events, j);
      }
      UnansweredIsUnchanged(s, interval, init);
      ShownOneMore(rendered, events);
    }
  }

  /** Each run keeps the interval of the render it began with, and there are as many runs as renders. */
  lemma {:induction false} RunsKeepTheirInterval<T>(s: State<T>, interval: nat, events: seq<Event<T>>)
    ensures var run, t := |s.effects|, Execute(Apply(s, Render(interval)), events);
            && run < |t.effects| && t.effects[run].interval == interval
    ensures (forall j | 0 <= j < |events| :: !events[j].Render?) ==>
              |Execute(Apply(s, Render(interval)), events).effects| == |s.effects| + 1
  {
    if events != [] {
      RunsKeepTheirInterval(s, interval, events[..|events| - 1]);
    }
  }

  ghost predicate AllStopped<T>(s: State<T>) {
    forall i | 0 <= i < |s.effects| :: s.effects[i].stopped && s.effects[i].timers == 0
  }

  /** `t` shows what `s` does, and no run has more requests. */
  ghost predicate NothingNew<T>(s: State<T>, t: State<T>) {
    && t.data == s.data && t.error == s.error && t.loading == s.loading && |t.effects| == |s.effects|
    && forall i | 0 <= i < |s.effects| :: t.effects[i].requests <= s.effects[i].requests
  }

  lemma StoppedStaysQuiet<T>(s: State<T>, event: Event<T>)
    requires AllStopped(s) && !event.Render?
    ensures AllStopped(Apply(s, event)) && NothingNew(s, Apply(s, event))
  {
    if event.Unmount? {
      assert Apply(s, event) == s;
    } else if Runs(s, event.mine) {
      assert s.effects[event.mine - 1].stopped && s.effects[event.mine - 1].timers == 0;
    }
  }

  lemma UnmountStops<T>(s: State<T>)
    requires Inv(s)
    ensures AllStopped(Apply(s, Unmount)) && NothingNew(s, Apply(s, Unmount))
  {
    forall i | 0 <= i < |s.effects|
      ensures Apply(s, Unmount).effects[i].stopped && Apply(s, Unmount).effects[i].timers == 0
    {
      assert EffectOk(s, i + 1);
    }
  }

  /** After the unmount nothing shown changes and no new request starts, unless the component renders again. */
  lemma {:induction false} UnmountedIsQuiet<T>(s: State<T>, events: seq<Event<T>>)
    requires Inv(s) && forall j | 0 <= j < |events| :: !events[j].Render?
    ensures var t := Execute(Apply(s, Unmount), events); AllStopped(t) && NothingNew(s, t)
  {
    if events == [] {
      UnmountStops(s);
    } else {
      var init, last := events[..|events| - 1], events[|events| - 1];
      UnmountedIsQuiet(s, init);
      StoppedStaysQuiet(Execute(Apply(s, Unmount), init), last);
    }
  }
}
