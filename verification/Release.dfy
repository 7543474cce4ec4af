/**
 The release train of `version.ts` and `publish.ts`: any number of runs, each a checkout of main
 that bumps, publishes package by package and pushes last, interleaved in any order and
 stopping at any step. The registry only grows and refuses a version it holds; main accepts
 only a push that fast-forwards it.
 */
module Release {
  import opened Prelude
  import opened Semver

  datatype Release = Release(name: string, version: Version)

  /**
   One run. `before` is the tree it checked out at commit `base`, `after` the tree it wrote,
   `queue` what it has still to publish. `lockstep` is the shared version of an ordinary run;
   a forced run has none and does not ask the registry before it publishes.
   */
  datatype Run = Run(
    base: nat, before: seq<Manifest>, after: seq<Manifest>, queue: seq<Release>, lockstep: Option<Version>)

  datatype State = State(
    registry: map<Release, nat>,  // what is published, and the commit it was built from
    log: seq<Release>,            // every successful publish, oldest first
    head: nat,                    // main's commit
    manifests: seq<Manifest>,     // main's manifests
    lockstep: seq<Version>,       // the shared versions pushed to main, oldest first
    runs: map<nat, Run>)

  datatype Step =
    | Commit
    | Start(id: nat, bump: BumpType)
    | StartForced(id: nat, chosen: set<nat>, bumped: set<nat>, bump: BumpType)
    | Publish(id: nat, saysPublished: bool)
    | Push(id: nat)
    | Stop(id: nat)

  /** The releases of the chosen manifests, in order; a manifest without a version has none. */
  function ReleasesOf(manifests: seq<Manifest>, chosen: set<nat>): seq<Release> {
    if manifests == [] then []
    else
      var last := |manifests| - 1;
      ReleasesOf(manifests[..last], chosen) +
      if last in chosen && manifests[last].version.Some?
      then [Release(manifests[last].name, manifests[last].version.value)] else []
  }

  function All(manifests: seq<Manifest>): (indices: set<nat>)
    ensures forall i: nat :: i in indices <==> i < |manifests|
  {
    if manifests == [] then {} else All(manifests[1..]) + {|manifests| - 1}
  }

  function Forced(manifests: seq<Manifest>, bumped: set<nat>, bump: BumpType): seq<Manifest> {
    seq(|manifests|, i requires 0 <= i < |manifests| =>
      if i in bumped && manifests[i].version.Some? && IsPlain(manifests[i].version.value)
      then manifests[i].(version := Some(BumpVersion(manifests[i].version.value, bump).value))
      else manifests[i])
  }

  predicate Published(registry: map<Release, nat>, m: Manifest) {
    m.version.Some? ==> Release(m.name, m.version.value) in registry
  }

  /** `runForcePublish` bumps a chosen package only when the registry says its version is taken. */
  predicate MayForce(s: State, chosen: set<nat>, bumped: set<nat>) {
    && bumped <= chosen <= All(s.manifests)
    && forall i | i in bumped ::
         s.manifests[i].version.Some? && IsPlain(s.manifests[i].version.value) && Published(s.registry, s.manifests[i])
  }

  /** One step; a step that is not possible leaves the state as it is. */
  function Apply(s: State, step: Step): State {
    match step
    case Commit => s.(head := s.head + 1)
    case Start(id, bump) =>
      var shared := Shared(s.manifests, bump);
      if id in s.runs || shared.Err? || Versioned(s.manifests) == [] then s
      else
        var after := InLockstep(s.manifests, shared.value);
        s.(runs := s.runs[id := Run(s.head, s.manifests, after, ReleasesOf(after, All(after)), shared.ToOption())])
    case StartForced(id, chosen, bumped, bump) =>
      if id in s.runs || !MayForce(s, chosen, bumped) then s
      else
        var after := Forced(s.manifests, bumped, bump);
        s.(runs := s.runs[id := Run(s.head, s.manifests, after, ReleasesOf(after, chosen), None)])
    case Publish(id, saysPublished) =>
      if id !in s.runs || s.runs[id].queue == [] then s
      else
        var run := s.runs[id];
        var release, rest := run.queue[0], run.(queue := run.queue[1..]);
        if release !in s.registry then
          if run.lockstep.Some? && saysPublished then s
          else s.(registry := s.registry[release := run.base],
                  log := s.log + [release],
                  runs := s.runs[id := rest])
        else if run.lockstep.Some? && saysPublished then s.(runs := s.runs[id := rest])
        else s.(runs := s.runs - {id})
    case Push(id) =>
      if id !in s.runs || s.runs[id].queue != [] then s
      else
        var run := s.runs[id];
        if run.base != s.head || run.after == run.before then s.(runs := s.runs - {id})
        else s.(head := s.head + 1,
                manifests := run.after,
                lockstep := if run.lockstep.Some? then s.lockstep + [run.lockstep.value] else s.lockstep,
                runs := s.runs - {id})
    case Stop(id) => s.(runs := s.runs - {id})
  }

  function Execute(s: State, steps: seq<Step>): State {
    if steps == [] then s
    else Apply(Execute(s, steps[..|steps| - 1]), steps[|steps| - 1])
  }

  // ---------------------------------------------------------------------------
  // What every step keeps
  // ---------------------------------------------------------------------------

  ghost predicate NoRepeats(log: seq<Release>) {
    forall i, j | 0 <= i < j < |log| :: log[i] != log[j]
  }

  ghost predicate Ascending(versions: seq<Version>) {
    forall i, j | 0 <= i < j < |versions| :: Order(versions[j], versions[i]) == 1
  }

  ghost predicate NotBelow(after: seq<Manifest>, before: seq<Manifest>) {
    && |after| == |before|
    && forall i | 0 <= i < |after| ::
         && after[i].name == before[i].name
         && (after[i].version.Some? <==> before[i].version.Some?)
         && (after[i].version.Some? ==> Order(after[i].version.value, before[i].version.value) >= 0)
  }

  ghost predicate RunOk(s: State, run: Run) {
    && run.base <= s.head
    && (run.base == s.head ==> run.before == s.manifests)
    && NotBelow(run.after, run.before)
    && (forall m | m in run.before :: Published(s.registry, m))
    && (forall m | m in run.after && m.version.Some? ::
          Release(m.name, m.version.value) in s.registry || Release(m.name, m.version.value) in run.queue)
    && (run.lockstep.Some? ==>
          && run.after == InLockstep(run.before, run.lockstep.value)
          && (exists m | m in run.before :: m.version.Some?)
          && forall m | m in run.before && m.version.Some? :: Order(run.lockstep.value, m.version.value) == 1)
  }

  ghost predicate AllPublished(manifests: seq<Manifest>, registry: map<Release, nat>) {
    forall m | m in manifests :: Published(registry, m)
  }

  ghost predicate LogOk(log: seq<Release>, registry: map<Release, nat>) {
    NoRepeats(log) && forall r :: r in registry <==> r in log
  }

  ghost predicate AtLeast(manifests: seq<Manifest>, versions: seq<Version>) {
    forall v, m | v in versions && m in manifests && m.version.Some? :: Order(m.version.value, v) >= 0
  }

  ghost predicate Inv(s: State) {
    && AllPublished(s.manifests, s.registry)
    && LogOk(s.log, s.registry)
    && Ascending(s.lockstep)
    && AtLeast(s.manifests, s.lockstep)
    && forall id | id in s.runs :: RunOk(s, s.runs[id])
  }

  /** Before any run: main's versions are published, whatever else the registry holds. */
  ghost predicate Init(s: State) {
    && AllPublished(s.manifests, s.registry)
    && LogOk(s.log, s.registry)
    && s.lockstep == [] && s.runs == map[]
  }

  lemma {:induction false} QueueHolds(manifests: seq<Manifest>, chosen: set<nat>, i: nat)
    requires i < |manifests| && i in chosen && manifests[i].version.Some?
    ensures Release(manifests[i].name, manifests[i].version.value) in ReleasesOf(manifests, chosen)
  {
    if i < |manifests| - 1 {
      QueueHolds(manifests[..|manifests| - 1], chosen, i);
    }
  }

  lemma {:induction false} SomeVersioned(manifests: seq<Manifest>)
    ensures Versioned(manifests) != [] <==> exists m | m in manifests :: m.version.Some?
  {
    if manifests != [] {
      var last := |manifests| - 1;
      SomeVersioned(manifests[..last]);
      assert manifests == manifests[..last] + [manifests[last]];
    }
  }

  lemma LockstepRunOk(s: State, bump: BumpType)
    requires Inv(s) && Shared(s.manifests, bump).Ok? && Versioned(s.manifests) != []
    ensures var after := InLockstep(s.manifests, Shared(s.manifests, bump).value);
            RunOk(s, Run(s.head, s.manifests, after, ReleasesOf(after, All(after)), Shared(s.manifests, bump).ToOption()))
  {
    var shared := Shared(s.manifests, bump).value;
    var after := InLockstep(s.manifests, shared);
    SomeVersioned(s.manifests);
    forall i: nat | i < |after| && after[i].version.Some?
      ensures Order(shared, s.manifests[i].version.value) == 1
      ensures Release(after[i].name, after[i].version.value) in ReleasesOf(after, All(after))
    {
      SharedIsAboveAll(s.manifests, bump, i);
      QueueHolds(after, All(after), i);
    }
  }

  lemma ForcedRunOk(s: State, chosen: set<nat>, bumped: set<nat>, bump: BumpType)
    requires Inv(s) && MayForce(s, chosen, bumped)
    ensures var after := Forced(s.manifests, bumped, bump);
            RunOk(s, Run(s.head, s.manifests, after, ReleasesOf(after, chosen), None))
  {
    var after := Forced(s.manifests, bumped, bump);
    forall i: nat | i < |after| && after[i].version.Some?
      ensures Order(after[i].version.value, s.manifests[i].version.value) >= 0
    {
      OrderIsTransitive(after[i].version.value, after[i].version.value, after[i].version.value);
      if i in bumped {
        BumpIsNext(s.manifests[i].version.value, bump);
      }
    }
    forall m | m in after && m.version.Some?
      ensures Release(m.name, m.version.value) in s.registry ||
              Release(m.name, m.version.value) in ReleasesOf(after, chosen)
    {
      var i: nat :| i < |after| && after[i] == m;
      if i in bumped {
        QueueHolds(after, chosen, i);
      } else {
        assert m == s.manifests[i];
        assert Published(s.registry, s.manifests[i]);
      }
    }
  }

  /** A run stays sound while main moves away from its base and the registry grows. */
  lemma RunStaysOk(s: State, t: State, run: Run)
    requires RunOk(s, run)
    requires s.head <= t.head && (s.head == t.head ==> s.manifests == t.manifests)
    requires forall r | r in s.registry :: r in t.registry
    ensures RunOk(t, run)
  {
  }

  /** What a finished lockstep run brings to main is above every version main was given before. */
  lemma LockstepClimbs(s: State, run: Run)
    requires Inv(s) && RunOk(s, run) && run.base == s.head
    ensures AtLeast(run.after, s.lockstep)
    ensures run.lockstep.Some? ==>
              Ascending(s.lockstep + [run.lockstep.value]) && AtLeast(run.after, s.lockstep + [run.lockstep.value])
  {
    StillAtLeast(run.after, run.before, s.lockstep);
    if run.lockstep.Some? {
      var shared := run.lockstep.value;
      SharedTops(run.before, shared, s.lockstep);
      AscendingGrows(s.lockstep, shared);
      OrderIsTransitive(shared, shared, shared);
      assert AtLeast(run.after, [shared]);
      AtLeastBoth(run.after, s.lockstep, shared);
    }
  }

  lemma StillAtLeast(after: seq<Manifest>, before: seq<Manifest>, versions: seq<Version>)
    requires NotBelow(after, before) && AtLeast(before, versions)
    ensures AtLeast(after, versions)
  {
    forall v, m | v in versions && m in after && m.version.Some?
      ensures Order(m.version.value, v) >= 0
    {
      var i: nat :| i < |after| && after[i] == m;
      OrderIsTransitive(m.version.value, before[i].version.value, v);
    }
  }

  /** What is above every manifest is above whatever those are at or above. */
  lemma SharedTops(before: seq<Manifest>, shared: Version, versions: seq<Version>)
    requires AtLeast(before, versions) && exists m | m in before :: m.version.Some?
    requires forall m | m in before && m.version.Some? :: Order(shared, m.version.value) == 1
    ensures forall v | v in versions :: Order(shared, v) == 1
  {
    var m :| m in before && m.version.Some?;
    forall v | v in versions
      ensures Order(shared, v) == 1
    {
      OrderIsTransitive(shared, m.version.value, v);
    }
  }

  lemma AscendingGrows(versions: seq<Version>, top: Version)
    requires Ascending(versions) && forall v | v in versions :: Order(top, v) == 1
    ensures Ascending(versions + [top])
  {
  }

  lemma AtLeastBoth(manifests: seq<Manifest>, versions: seq<Version>, more: Version)
    requires AtLeast(manifests, versions) && AtLeast(manifests, [more])
    ensures AtLeast(manifests, versions + [more])
  {
  }

  lemma PushKeepsInv(s: State, id: nat)
    requires Inv(s) && id in s.runs && s.runs[id].queue == []
    ensures Inv(Apply(s, Push(id)))
  {
    var run, t := s.runs[id], Apply(s, Push(id));
    assert RunOk(s, run);
    if run.base == s.head && run.after != run.before {
      LockstepClimbs(s, run);
    }
    forall other | other in t.runs
      ensures RunOk(t, t.runs[other])
    {
      RunStaysOk(s, t, s.runs[other]);
    }
  }

  lemma PublishKeepsInv(s: State, id: nat, saysPublished: bool)
    requires Inv(s)
    ensures Inv(Apply(s, Publish(id, saysPublished)))
  {
    var t := Apply(s, Publish(id, saysPublished));
    if id in s.runs && s.runs[id].queue != [] {
      var run := s.runs[id];
      assert RunOk(s, run);
      assert run.queue == [run.queue[0]] + run.queue[1..];
      forall other | other in t.runs
        ensures RunOk(t, t.runs[other])
      {
        if other != id {
          RunStaysOk(s, t, s.runs[other]);
        }
      }
    }
  }

  /** A run joins the others. */
  lemma JoinKeepsInv(s: State, id: nat, run: Run)
    requires Inv(s) && RunOk(s, run)
    ensures Inv(s.(runs := s.runs[id := run]))
  {
    var t := s.(runs := s.runs[id := run]);
    forall other | other in t.runs
      ensures RunOk(t, t.runs[other])
    {
      RunStaysOk(s, t, t.runs[other]);
    }
  }

  lemma StartKeepsInv(s: State, id: nat, bump: BumpType)
    requires Inv(s)
    ensures Inv(Apply(s, Start(id, bump)))
  {
    var t := Apply(s, Start(id, bump));
    if t != s {
      LockstepRunOk(s, bump);
      JoinKeepsInv(s, id, t.runs[id]);
    }
  }

  lemma StartForcedKeepsInv(s: State, id: nat, chosen: set<nat>, bumped: set<nat>, bump: BumpType)
    requires Inv(s)
    ensures Inv(Apply(s, StartForced(id, chosen, bumped, bump)))
  {
    var t := Apply(s, StartForced(id, chosen, bumped, bump));
    if t != s {
      ForcedRunOk(s, chosen, bumped, bump);
      JoinKeepsInv(s, id, t.runs[id]);
    }
  }

  /** Every step keeps the invariant. */
  lemma StepKeepsInv(s: State, step: Step)
    requires Inv(s)
    ensures Inv(Apply(s, step))
  {
    match step
    case Start(id, bump) => StartKeepsInv(s, id, bump);
    case StartForced(id, chosen, bumped, bump) => StartForcedKeepsInv(s, id, chosen, bumped, bump);
    case Publish(id, saysPublished) => PublishKeepsInv(s, id, saysPublished);
    case Push(id) =>
      if id in s.runs && s.runs[id].queue == [] {
        PushKeepsInv(s, id);
      }
    case _ =>
      var t := Apply(s, step);
      forall other | other in t.runs
        ensures RunOk(t, t.runs[other])
      {
        RunStaysOk(s, t, s.runs[other]);
      }
  }

  // ---------------------------------------------------------------------------
  // Over every run
  // ---------------------------------------------------------------------------

  /** Whatever runs interleave and wherever they stop, the invariant holds. */
  lemma {:induction false} ExecuteKeepsInv(s: State, steps: seq<Step>)
    requires Init(s)
    ensures Inv(Execute(s, steps))
  {
    if steps != [] {
      ExecuteKeepsInv(s, steps[..|steps| - 1]);
      StepKeepsInv(Execute(s, steps[..|steps| - 1]), steps[|steps| - 1]);
    }
  }

  /**
   The release safety claim: what main carries is on the registry for every package, nothing was
   published twice, and the shared versions main was given strictly increase.
   */
  lemma ReleasesAreSafe(s: State, steps: seq<Step>)
    requires Init(s)
    ensures var t := Execute(s, steps);
            && (forall m | m in t.manifests && m.version.Some? :: Release(m.name, m.version.value) in t.registry)
            && (forall i, j | 0 <= i < j < |t.log| :: t.log[i] != t.log[j])
            && (forall i, j | 0 <= i < j < |t.lockstep| :: Order(t.lockstep[j], t.lockstep[i]) == 1)
            && (forall v, m | v in t.lockstep && m in t.manifests && m.version.Some? :: Order(m.version.value, v) >= 0)
  {
    ExecuteKeepsInv(s, steps);
    var t := Execute(s, steps);
    forall m | m in t.manifests && m.version.Some?
      ensures Release(m.name, m.version.value) in t.registry
    {
      assert Published(t.registry, m);
    }
  }

  lemma NotBelowItself(manifests: seq<Manifest>)
    ensures NotBelow(manifests, manifests)
  {
    forall i | 0 <= i < |manifests| && manifests[i].version.Some?
      ensures Order(manifests[i].version.value, manifests[i].version.value) == 0
    {
      OrderIsTransitive(manifests[i].version.value, manifests[i].version.value, manifests[i].version.value);
    }
  }

  lemma NotBelowClimbs(c: seq<Manifest>, b: seq<Manifest>, a: seq<Manifest>)
    requires NotBelow(c, b) && NotBelow(b, a)
    ensures NotBelow(c, a)
  {
    forall i | 0 <= i < |a| && c[i].version.Some?
      ensures Order(c[i].version.value, a[i].version.value) >= 0
    {
      OrderIsTransitive(c[i].version.value, b[i].version.value, a[i].version.value);
    }
  }

  /** One step never lowers a version on main nor takes anything off the registry. */
  lemma StepOnlyClimbs(s: State, step: Step)
    requires Inv(s)
    ensures NotBelow(Apply(s, step).manifests, s.manifests)
    ensures forall r | r in s.registry :: r in Apply(s, step).registry && Apply(s, step).registry[r] == s.registry[r]
  {
    NotBelowItself(s.manifests);
    if step.Push? && step.id in s.runs {
      assert RunOk(s, s.runs[step.id]);
    }
  }

  lemma {:induction false} MainOnlyClimbs(s: State, steps: seq<Step>, more: seq<Step>)
    requires Init(s)
    ensures NotBelow(Execute(s, steps + more).manifests, Execute(s, steps).manifests)
    ensures forall r | r in Execute(s, steps).registry :: r in Execute(s, steps + more).registry
  {
    if more == [] {
      assert steps + more == steps;
      NotBelowItself(Execute(s, steps).manifests);
    } else {
      var fewer, last := more[..|more| - 1], more[|more| - 1];
      assert (steps + more)[..|steps + more| - 1] == steps + fewer;
      MainOnlyClimbs(s, steps, fewer);
      ExecuteKeepsInv(s, steps + fewer);
      StepOnlyClimbs(Execute(s, steps + fewer), last);
      NotBelowClimbs(
        Execute(s, steps + more).manifests, Execute(s, steps + fewer).manifests, Execute(s, steps).manifests);
    }
  }

  // ---------------------------------------------------------------------------
  // A retry recovers, and what it ships
  // ---------------------------------------------------------------------------

  /** The rest of one run with no interruption and a registry that answers truthfully. */
  function Drain(s: State, id: nat): State
    decreases if id in s.runs then |s.runs[id].queue| else 0
  {
    if id !in s.runs then s
    else if s.runs[id].queue == [] then Apply(s, Push(id))
    else Drain(Apply(s, Publish(id, s.runs[id].queue[0] in s.registry)), id)
  }

  lemma {:induction false} DrainPublishes(s: State, id: nat)
    requires id in s.runs && s.runs[id].lockstep.Some?
    requires s.runs[id].base == s.head && s.runs[id].after != s.runs[id].before
    ensures var t, run := Drain(s, id), s.runs[id];
            && t.manifests == run.after
            && t.lockstep == s.lockstep + [run.lockstep.value]
            && t.head == s.head + 1
            && (forall r :: r in t.registry <==> r in s.registry || r in run.queue)
            && forall r | r in t.registry :: t.registry[r] == if r in s.registry then s.registry[r] else run.base
    decreases |s.runs[id].queue|
  {
    var run := s.runs[id];
    if run.queue != [] {
      assert run.queue == [run.queue[0]] + run.queue[1..];
      DrainPublishes(Apply(s, Publish(id, run.queue[0] in s.registry)), id);
    }
  }

  /** The releases of the chosen manifests that have a version, which stand at `at`: each once and in order. */
  ghost predicate AreChosen(manifests: seq<Manifest>, chosen: set<nat>, queue: seq<Release>, at: seq<nat>) {
    && Rising(at, |manifests|) && |at| == |queue|
    && (forall i: nat | i < |manifests| :: i in at <==> i in chosen && manifests[i].version.Some?)
    && forall k | 0 <= k < |at| ::
         && manifests[at[k]].version.Some?
         && queue[k] == Release(manifests[at[k]].name, manifests[at[k]].version.value)
  }

  lemma ChosenGrows(init: seq<Manifest>, last: Manifest, chosen: set<nat>, queue: seq<Release>, at: seq<nat>)
    requires AreChosen(init, chosen, queue, at)
    ensures if |init| in chosen && last.version.Some?
            then AreChosen(init + [last], chosen, queue + [Release(last.name, last.version.value)], at + [|init|])
            else AreChosen(init + [last], chosen, queue, at)
  {
    RisingGrows(at, |init|);
    forall i: nat | i <= |init|
      ensures i in at + [|init|] <==> i == |init| || i in at
      ensures i in at <==> i < |init| && i in chosen && init[i].version.Some?
    {
    }
  }

  /** A run's queue is the releases of the chosen manifests. */
  lemma {:induction false} QueueIsTheChosen(manifests: seq<Manifest>, chosen: set<nat>) returns (at: seq<nat>)
    ensures AreChosen(manifests, chosen, ReleasesOf(manifests, chosen), at)
  {
    at := [];
    if manifests != [] {
      var init, last := manifests[..|manifests| - 1], manifests[|manifests| - 1];
      var before := QueueIsTheChosen(init, chosen);
      assert manifests == init + [last];
      ChosenGrows(init, last, chosen, ReleasesOf(init, chosen), before);
      at := if |init| in chosen && last.version.Some? then before + [|init|] else before;
      assert ReleasesOf(init, chosen) + [] == ReleasesOf(init, chosen);
    }
  }

  /** No two chosen packages share a name. */
  ghost predicate DistinctNames(manifests: seq<Manifest>, chosen: set<nat>) {
    forall i, j | 0 <= i < j < |manifests| && i in chosen && j in chosen :: manifests[i].name != manifests[j].name
  }

  lemma QueueHasNoRepeats(manifests: seq<Manifest>, chosen: set<nat>)
    requires DistinctNames(manifests, chosen)
    ensures NoRepeats(ReleasesOf(manifests, chosen))
  {
    var at := QueueIsTheChosen(manifests, chosen);
    var queue := ReleasesOf(manifests, chosen);
    forall i, j | 0 <= i < j < |queue|
      ensures queue[i] != queue[j]
    {
      assert at[i] in at && at[j] in at && at[i] < at[j];
    }
  }

  /** A forced run from main's head whose releases are all still free. */
  ghost predicate IsFree(s: State, id: nat) {
    && id in s.runs && s.runs[id].lockstep.None? && s.runs[id].base == s.head && s.runs[id].before == s.manifests
    && NoRepeats(s.runs[id].queue)
    && forall k | 0 <= k < |s.runs[id].queue| :: s.runs[id].queue[k] !in s.registry
  }

  lemma FreePublishes(s: State, id: nat)
    requires IsFree(s, id) && s.runs[id].queue != []
    ensures var run, t := s.runs[id], Apply(s, Publish(id, s.runs[id].queue[0] in s.registry));
            && t == s.(registry := s.registry[run.queue[0] := run.base], log := s.log + [run.queue[0]],
                       runs := s.runs[id := run.(queue := run.queue[1..])])
            && IsFree(t, id)
  {
    var queue := s.runs[id].queue;
    var rest := queue[1..];
    forall i | 0 <= i < |rest|
      ensures rest[i] == queue[i + 1] && rest[i] != queue[0] && rest[i] !in s.registry
    {
    }
    forall i, j | 0 <= i < j < |rest|
      ensures rest[i] != rest[j]
    {
      assert queue[i + 1] != queue[j + 1];
    }
  }

  lemma {:induction false} FreeDrainMoves(s: State, id: nat)
    requires IsFree(s, id)
    ensures var t, run := Drain(s, id), s.runs[id];
            && t.manifests == run.after && t.lockstep == s.lockstep
            && t.head == if run.after == run.before then s.head else s.head + 1
    decreases |s.runs[id].queue|
  {
    if s.runs[id].queue != [] {
      FreePublishes(s, id);
      FreeDrainMoves(Apply(s, Publish(id, s.runs[id].queue[0] in s.registry)), id);
    }
  }

  lemma {:induction false} FreeDrainLogs(s: State, id: nat)
    requires IsFree(s, id)
    ensures Drain(s, id).log == s.log + s.runs[id].queue
    decreases |s.runs[id].queue|
  {
    var queue := s.runs[id].queue;
    if queue != [] {
      FreePublishes(s, id);
      FreeDrainLogs(Apply(s, Publish(id, queue[0] in s.registry)), id);
      assert s.log + [queue[0]] + queue[1..] == s.log + queue;
    } else {
      assert s.log + queue == s.log;
    }
  }

  lemma {:induction false} FreeDrainPublishes(s: State, id: nat, r: Release)
    requires IsFree(s, id)
    ensures var t, run := Drain(s, id), s.runs[id];
            && (r in t.registry <==> r in s.registry || r in run.queue)
            && (r in t.registry ==> t.registry[r] == if r in s.registry then s.registry[r] else run.base)
    decreases |s.runs[id].queue|
  {
    var queue := s.runs[id].queue;
    if queue != [] {
      FreePublishes(s, id);
      FreeDrainPublishes(Apply(s, Publish(id, queue[0] in s.registry)), id, r);
      assert r in queue <==> r == queue[0] || r in queue[1..];
    }
  }

  /** The bumped packages move to their next version; the others stay. */
  ghost predicate MovesTheBumped(before: seq<Manifest>, after: seq<Manifest>, bumped: set<nat>, bump: BumpType) {
    && |after| == |before|
    && forall i | 0 <= i < |before| ::
         && after[i].name == before[i].name
         && (if i in bumped then
               && before[i].version.Some? && after[i].version.Some?
               && IsNext(after[i].version.value, before[i].version.value, bump)
             else after[i].version == before[i].version)
  }

  lemma ForcedMoves(s: State, chosen: set<nat>, bumped: set<nat>, bump: BumpType)
    requires MayForce(s, chosen, bumped)
    ensures MovesTheBumped(s.manifests, Forced(s.manifests, bumped, bump), bumped, bump)
  {
    forall i | 0 <= i < |s.manifests| && i in bumped {
      BumpIsNext(s.manifests[i].version.value, bump);
    }
  }

  lemma ForcedStartIsFree(s: State, id: nat, chosen: set<nat>, bumped: set<nat>, bump: BumpType)
    requires id !in s.runs && MayForce(s, chosen, bumped) && DistinctNames(s.manifests, chosen)
    requires forall r | r in ReleasesOf(Forced(s.manifests, bumped, bump), chosen) :: r !in s.registry
    ensures var t, after := Apply(s, StartForced(id, chosen, bumped, bump)), Forced(s.manifests, bumped, bump);
            && IsFree(t, id) && t == s.(runs := t.runs)
            && t.runs[id] == Run(s.head, s.manifests, after, ReleasesOf(after, chosen), None)
  {
    var after := Forced(s.manifests, bumped, bump);
    ForcedMoves(s, chosen, bumped, bump);
    QueueHasNoRepeats(after, chosen);
    var queue := ReleasesOf(after, chosen);
    forall k | 0 <= k < |queue|
      ensures queue[k] !in s.registry
    {
      assert queue[k] in queue;
    }
  }

  /**
   Each chosen package's release stands in the log behind what was there, in order, and in the
   registry, from main's commit.
   */
  ghost predicate ShipsChosen(s: State, t: State, chosen: set<nat>, at: seq<nat>) {
    && s.log <= t.log && AreChosen(t.manifests, chosen, t.log[|s.log|..], at)
    && forall r | r in t.log[|s.log|..] :: r in t.registry && t.registry[r] == s.head
  }

  lemma DrainShipsChosen(s: State, t: State, chosen: set<nat>) returns (at: seq<nat>)
    requires t.log == s.log + ReleasesOf(t.manifests, chosen)
    requires forall r | r in ReleasesOf(t.manifests, chosen) :: r in t.registry && t.registry[r] == s.head
    ensures ShipsChosen(s, t, chosen, at)
  {
    at := QueueIsTheChosen(t.manifests, chosen);
    assert t.log[|s.log|..] == ReleasesOf(t.manifests, chosen);
  }

  /**
   A forced run that nothing interrupts, of chosen packages whose releases are still free, moves
   exactly the bumped ones to their next version, publishes each chosen one once and in order, from
   its own commit, and puts the result on main.
   */
  lemma ForcedRunShips(s: State, id: nat, chosen: set<nat>, bumped: set<nat>, bump: BumpType) returns (at: seq<nat>)
    requires id !in s.runs && MayForce(s, chosen, bumped) && DistinctNames(s.manifests, chosen)
    requires forall r | r in ReleasesOf(Forced(s.manifests, bumped, bump), chosen) :: r !in s.registry
    ensures var t := Drain(Apply(s, StartForced(id, chosen, bumped, bump)), id);
            MovesTheBumped(s.manifests, t.manifests, bumped, bump) && ShipsChosen(s, t, chosen, at)
  {
    var started := Apply(s, StartForced(id, chosen, bumped, bump));
    ForcedMoves(s, chosen, bumped, bump);
    ForcedStartIsFree(s, id, chosen, bumped, bump);
    FreeDrainMoves(started, id);
    FreeDrainLogs(started, id);
    forall r | r in started.runs[id].queue {
      FreeDrainPublishes(started, id, r);
    }
    at := DrainShipsChosen(s, Drain(started, id), chosen);
  }

  lemma {:induction false} QueueIsFromManifests(manifests: seq<Manifest>, chosen: set<nat>, r: Release)
    requires r in ReleasesOf(manifests, chosen)
    ensures exists m | m in manifests :: m.version.Some? && r == Release(m.name, m.version.value)
  {
    var last := |manifests| - 1;
    assert manifests == manifests[..last] + [manifests[last]];
    if r in ReleasesOf(manifests[..last], chosen) {
      QueueIsFromManifests(manifests[..last], chosen, r);
    }
  }

  /** The run a start leaves has something to publish, and every package's release is queued. */
  lemma StartedRun(s: State, id: nat, bump: BumpType)
    requires Inv(s) && id !in s.runs
    requires Shared(s.manifests, bump).Ok? && Versioned(s.manifests) != []
    ensures var started, shared := Apply(s, Start(id, bump)), Shared(s.manifests, bump).value;
            && id in started.runs && started == s.(runs := started.runs)
            && var run := started.runs[id];
            && run.base == s.head && run.lockstep == Some(shared)
            && run.after == InLockstep(s.manifests, shared) && run.after != run.before
            && run.queue == ReleasesOf(run.after, All(run.after))
  {
    SomeVersioned(s.manifests);
    var shared := Shared(s.manifests, bump).value;
    var i: nat :| i < |s.manifests| && s.manifests[i].version.Some?;
    SharedIsAboveAll(s.manifests, bump, i);
    OrderIsTransitive(shared, shared, shared);
    assert InLockstep(s.manifests, shared)[i] != s.manifests[i];
  }

  lemma EveryPackageIsQueued(manifests: seq<Manifest>, shared: Version, m: Manifest)
    requires m in manifests && m.version.Some?
    ensures var after := InLockstep(manifests, shared); Release(m.name, shared) in ReleasesOf(after, All(after))
  {
    var j: nat :| j < |manifests| && manifests[j] == m;
    var after := InLockstep(manifests, shared);
    QueueHolds(after, All(after), j);
  }

  /**
   From any reachable state, a run that nothing interrupts moves main to the shared version with
   every package published at it - whatever earlier runs had published and left behind. Each
   package ships from this run's commit unless an earlier run had already published it.
   */
  lemma RetryRecovers(s: State, id: nat, bump: BumpType)
    requires Inv(s) && id !in s.runs
    requires Shared(s.manifests, bump).Ok? && Versioned(s.manifests) != []
    ensures var shared, t := Shared(s.manifests, bump).value, Drain(Apply(s, Start(id, bump)), id);
            && t.manifests == InLockstep(s.manifests, shared)
            && IsNext(shared, Highest(s.manifests), bump)
            && t.lockstep == s.lockstep + [shared]
            && forall m | m in s.manifests && m.version.Some? ::
                 var release := Release(m.name, shared);
                 && release in t.registry
                 && t.registry[release] == if release in s.registry then s.registry[release] else s.head
  {
    var started, shared := Apply(s, Start(id, bump)), Shared(s.manifests, bump).value;
    StartedRun(s, id, bump);
    DrainPublishes(started, id);
    BumpIsNext(Highest(s.manifests), bump);
    forall m | m in s.manifests && m.version.Some? {
      EveryPackageIsQueued(s.manifests, shared, m);
    }
  }

  /** The packages of one release come from one commit exactly when no other commit published any of them before. */
  lemma OneReleaseOneCommit(s: State, id: nat, bump: BumpType)
    requires Inv(s) && id !in s.runs
    requires Shared(s.manifests, bump).Ok? && Versioned(s.manifests) != []
    ensures var shared, t := Shared(s.manifests, bump).value, Drain(Apply(s, Start(id, bump)), id);
            (forall m | m in s.manifests && m.version.Some? ::
               Release(m.name, shared) in t.registry && t.registry[Release(m.name, shared)] == s.head)
            <==>
            (forall m | m in s.manifests && m.version.Some? && Release(m.name, shared) in s.registry ::
               s.registry[Release(m.name, shared)] == s.head)
  {
    RetryRecovers(s, id, bump);
  }

  /** Two packages at 1.0.0, both published from commit 0. */
  const TWO_PACKAGES: seq<Manifest> := [Manifest("a", Some(Plain(1, 0, 0))), Manifest("b", Some(Plain(1, 0, 0)))]

  const AT_ONE := State(
    map[Release("a", Plain(1, 0, 0)) := 0, Release("b", Plain(1, 0, 0)) := 0],
    [Release("a", Plain(1, 0, 0)), Release("b", Plain(1, 0, 0))],
    0, TWO_PACKAGES, [], map[])

  /** A run publishes `a`, stops, and a commit lands before the retry. */
  const INTERRUPTED: seq<Step> := [Start(7, Patch), Publish(7, false), Stop(7), Commit]

  const A1 := Release("a", Plain(1, 0, 1))
  const B1 := Release("b", Plain(1, 0, 1))

  lemma TwoPackagesPlan()
    ensures Shared(TWO_PACKAGES, Patch) == Ok(Plain(1, 0, 1)) && Versioned(TWO_PACKAGES) != []
    ensures var after := InLockstep(TWO_PACKAGES, Plain(1, 0, 1)); ReleasesOf(after, All(after)) == [A1, B1]
  {
    var one := Manifest("a", Some(Plain(1, 0, 0)));
    assert TWO_PACKAGES[..1] == [one];
    assert Highest([one]) == Plain(1, 0, 0);
    assert Highest(TWO_PACKAGES) == Plain(1, 0, 0);
    var after := InLockstep(TWO_PACKAGES, Plain(1, 0, 1));
    assert after[..1] == [after[0]];
    assert 0 in All(after) && 1 in All(after);
    assert ReleasesOf([after[0]], All(after)) == [A1];
  }

  const SEVEN := Run(0, TWO_PACKAGES, InLockstep(TWO_PACKAGES, Plain(1, 0, 1)), [A1, B1], Some(Plain(1, 0, 1)))

  lemma ExecuteLast(s: State, steps: seq<Step>, last: Step)
    ensures Execute(s, steps + [last]) == Apply(Execute(s, steps), last)
  {
    assert (steps + [last])[..|steps|] == steps;
  }

  lemma StartedState()
    ensures Execute(AT_ONE, [Start(7, Patch)]) == AT_ONE.(runs := map[7 := SEVEN])
  {
    TwoPackagesPlan();
    ExecuteLast(AT_ONE, [], Start(7, Patch));
    assert [] + [Start(7, Patch)] == [Start(7, Patch)];
  }

  lemma PublishedState()
    ensures var s := Execute(AT_ONE, [Start(7, Patch), Publish(7, false)]);
            && s.head == 0 && s.manifests == TWO_PACKAGES
            && s.registry == AT_ONE.registry[A1 := 0] && s.runs == map[7 := SEVEN.(queue := [B1])]
  {
    StartedState();
    ExecuteLast(AT_ONE, [Start(7, Patch)], Publish(7, false));
    assert [Start(7, Patch)] + [Publish(7, false)] == [Start(7, Patch), Publish(7, false)];
    assert [A1, B1][1..] == [B1];
    assert A1 !in AT_ONE.registry;
  }

  lemma InterruptedState()
    ensures var s := Execute(AT_ONE, INTERRUPTED);
            && s.head == 1 && s.manifests == TWO_PACKAGES && s.runs == map[]
            && s.registry == AT_ONE.registry[A1 := 0]
  {
    PublishedState();
    var two, three := [Start(7, Patch), Publish(7, false)], [Start(7, Patch), Publish(7, false), Stop(7)];
    ExecuteLast(AT_ONE, two, Stop(7));
    assert two + [Stop(7)] == three;
    ExecuteLast(AT_ONE, three, Commit);
    assert three + [Commit] == INTERRUPTED;
  }

  /** A reachable release whose packages come from two commits: `a` from the interrupted run's, `b` from the retry's. */
  lemma ReleaseFromTwoCommits()
    ensures Init(AT_ONE)
    ensures var t := Drain(Apply(Execute(AT_ONE, INTERRUPTED), Start(8, Patch)), 8);
            && t.manifests == InLockstep(TWO_PACKAGES, Plain(1, 0, 1))
            && A1 in t.registry && t.registry[A1] == 0
            && B1 in t.registry && t.registry[B1] == 1
  {
    TwoPackagesPlan();
    InterruptedState();
    AtOneIsInitial();
    var s := Execute(AT_ONE, INTERRUPTED);
    ExecuteKeepsInv(AT_ONE, INTERRUPTED);
    RetryShips(s, A1, 0);
    RetryShips(s, B1, 1);
  }

  lemma AtOneIsInitial()
    ensures Init(AT_ONE)
  {
  }

  /** The package at place `i` of the two ships from where it was published first, or from the retry's commit. */
  lemma RetryShips(s: State, release: Release, i: nat)
    requires Inv(s) && s.manifests == TWO_PACKAGES && s.runs == map[]
    requires i < 2 && release == Release(TWO_PACKAGES[i].name, Plain(1, 0, 1))
    ensures var t := Drain(Apply(s, Start(8, Patch)), 8);
            && t.manifests == InLockstep(TWO_PACKAGES, Plain(1, 0, 1))
            && release in t.registry
            && t.registry[release] == if release in s.registry then s.registry[release] else s.head
  {
    TwoPackagesPlan();
    RetryRecovers(s, 8, Patch);
    assert TWO_PACKAGES[i] in s.manifests;
  }
}
