/**
 `waves` of `build-all.ts`: Kahn's algorithm emitted in rounds, over the dependencies that are
 themselves workspaces.
 */
module Waves {
  import opened Prelude

  datatype Workspace = Workspace(name: string, deps: seq<string>)

  function Names(all: seq<Workspace>): set<string> {
    set w | w in all :: w.name
  }

  predicate Distinct(all: seq<Workspace>) {
    forall i, j | 0 <= i < j < |all| :: all[i].name != all[j].name
  }

  /** For each name the workspaces it waits for. Of two entries with one name the later wins. */
  function Pending(all: seq<Workspace>, names: set<string>): map<string, set<string>> {
    if all == [] then map[]
    else
      var last := all[|all| - 1];
      Pending(all[..|all| - 1], names)[last.name := set d | d in last.deps && d in names]
  }

  type Graph = map<string, set<string>>

  function GraphOf(all: seq<Workspace>): Graph {
    Pending(all, Names(all))
  }

  ghost predicate Edge(g: Graph, from: string, to: string) {
    from in g && to in g[from]
  }

  /** A chain of dependencies, from a workspace to what it waits for. */
  ghost predicate Chain(g: Graph, chain: seq<string>) {
    && |chain| > 0
    && chain[0] in g
    && (|chain| > 1 ==> Edge(g, chain[0], chain[1]) && Chain(g, chain[1..]))
  }

  /** A cycle can be reached from `name`: some chain from it visits a workspace twice. */
  ghost predicate ReachesCycle(g: Graph, name: string) {
    exists chain, i, j :: Chain(g, chain) && chain[0] == name && 0 <= i < j < |chain| && chain[i] == chain[j]
  }

  ghost predicate Acyclic(g: Graph) {
    forall name | name in g :: !ReachesCycle(g, name)
  }

  lemma {:induction false} PendingIsClosed(all: seq<Workspace>, names: set<string>)
    ensures forall n :: n in Pending(all, names) <==> n in Names(all)
    ensures forall n | n in Pending(all, names) :: Pending(all, names)[n] <= names
  {
    if all != [] {
      var init, last := all[..|all| - 1], all[|all| - 1];
      PendingIsClosed(init, names);
      assert all == init + [last];
    }
  }

  /** The last workspace of a name, so each where names are distinct, waits for its own dependencies among `names`. */
  lemma {:induction false} PendingIsItsOwn(all: seq<Workspace>, names: set<string>, i: nat)
    requires i < |all| && forall j | i < j < |all| :: all[j].name != all[i].name
    ensures all[i].name in Pending(all, names)
    ensures Pending(all, names)[all[i].name] == set d | d in all[i].deps && d in names
  {
    if i < |all| - 1 {
      PendingIsItsOwn(all[..|all| - 1], names, i);
    }
  }

  // ---------------------------------------------------------------------------
  // Rounds
  // ---------------------------------------------------------------------------

  datatype Outcome = Rounds(rounds: seq<seq<Workspace>>) | Cycle(stuck: seq<string>)

  function Ready(all: seq<Workspace>, g: Graph, done: set<string>): seq<Workspace> {
    if all == [] then []
    else
      var init, last := all[..|all| - 1], all[|all| - 1];
      Ready(init, g, done) +
      if last.name !in done && (last.name in g ==> g[last.name] <= done) then [last] else []
  }

  function Stuck(all: seq<Workspace>, done: set<string>): seq<string> {
    if all == [] then []
    else
      var init, last := all[..|all| - 1], all[|all| - 1];
      Stuck(init, done) + if last.name !in done then [last.name] else []
  }

  /**
   The round of each workspace that is done. One in round `k` waits only for earlier rounds, and
   for something in the round just before it.
   */
  ghost predicate Leveled(g: Graph, level: map<string, nat>) {
    && level.Keys <= g.Keys
    && (forall n, d | n in level && d in g[n] :: d in level && level[d] < level[n])
    && (forall n {:trigger WaitsFor(g, level, n)} | n in level && level[n] > 0 :: WaitsFor(g, level, n))
  }

  ghost predicate WaitsFor(g: Graph, level: map<string, nat>, n: string) {
    exists d :: n in g && d in g[n] && n in level && d in level && level[d] + 1 == level[n]
  }

  ghost predicate InRound(level: map<string, nat>, n: string, k: nat) {
    n in level && level[n] == k
  }

  ghost predicate RoundsMatch(all: seq<Workspace>, rounds: seq<seq<Workspace>>, level: map<string, nat>) {
    && (forall k, w | 0 <= k < |rounds| && w in rounds[k] :: w in all && InRound(level, w.name, k))
    && (forall w | w in all && w.name in level :: level[w.name] < |rounds| && w in rounds[level[w.name]])
    && (forall k | 0 <= k < |rounds| :: rounds[k] != [])
  }

  ghost predicate Repeats(s: seq<string>) {
    exists i, j :: 0 <= i < j < |s| && s[i] == s[j]
  }

  lemma {:induction false} NoRepeatsFits(s: seq<string>, within: set<string>)
    requires forall i | 0 <= i < |s| :: s[i] in within
    requires !Repeats(s)
    ensures |s| <= |within|
  {
    if s != [] {
      var init, last := s[..|s| - 1], s[|s| - 1];
      forall i | 0 <= i < |init|
        ensures init[i] in within - {last}
      {
        assert init[i] == s[i] != last;
      }
      assert !Repeats(init);
      NoRepeatsFits(init, within - {last});
      assert |within - {last}| == |within| - 1;
    }
  }

  ghost predicate StuckOn(g: Graph, stuck: set<string>, n: string) {
    exists d :: n in g && d in g[n] && d in stuck
  }

  /** From any stuck workspace a chain of any length stays among the stuck ones. */
  lemma {:induction false} StuckChain(g: Graph, stuck: set<string>, name: string, length: nat)
    returns (chain: seq<string>)
    requires name in stuck && stuck <= g.Keys && length > 0
    requires forall n {:trigger StuckOn(g, stuck, n)} | n in stuck :: StuckOn(g, stuck, n)
    ensures Chain(g, chain) && chain[0] == name && |chain| == length
    ensures forall i | 0 <= i < |chain| :: chain[i] in stuck
    decreases length
  {
    if length == 1 {
      chain := [name];
    } else {
      assert StuckOn(g, stuck, name);
      var next :| next in g[name] && next in stuck;
      var rest := StuckChain(g, stuck, next, length - 1);
      chain := [name] + rest;
      assert chain[1..] == rest;
    }
  }

  lemma {:induction false} StuckReachesCycle(g: Graph, stuck: set<string>, name: string)
    requires name in stuck && stuck <= g.Keys
    requires forall n {:trigger StuckOn(g, stuck, n)} | n in stuck :: StuckOn(g, stuck, n)
    ensures ReachesCycle(g, name)
  {
    var chain := StuckChain(g, stuck, name, |stuck| + 1);
    if !Repeats(chain) {
      NoRepeatsFits(chain, stuck);
    }
  }

  /** Along a chain the rounds fall, so a chain is at most one longer than its first round. */
  lemma {:induction false} ChainFalls(g: Graph, level: map<string, nat>, chain: seq<string>, i: nat)
    requires Leveled(g, level) && Chain(g, chain) && chain[0] in level && i < |chain|
    ensures chain[i] in level && level[chain[i]] + i <= level[chain[0]]
  {
    if i > 0 {
      ChainFalls(g, level, chain[1..], i - 1);
    }
  }

  lemma {:induction false} ChainFrom(g: Graph, chain: seq<string>, i: nat)
    requires Chain(g, chain) && i < |chain|
    ensures Chain(g, chain[i..])
  {
    if i == 0 {
      assert chain[i..] == chain;
    } else {
      ChainFrom(g, chain[1..], i - 1);
      assert chain[1..][i - 1..] == chain[i..];
    }
  }

  lemma {:induction false} DoneReachesNoCycle(g: Graph, level: map<string, nat>, name: string)
    requires Leveled(g, level) && name in level
    ensures !ReachesCycle(g, name)
  {
    if ReachesCycle(g, name) {
      var chain, i, j :| Chain(g, chain) && chain[0] == name && 0 <= i < j < |chain| && chain[i] == chain[j];
      ChainFalls(g, level, chain, i);
      ChainFrom(g, chain, i);
      ChainFalls(g, level, chain[i..], j - i);
    }
  }

  lemma {:induction false} LongestChain(g: Graph, level: map<string, nat>, name: string) returns (chain: seq<string>)
    requires Leveled(g, level) && name in level
    ensures Chain(g, chain) && chain[0] == name && |chain| == level[name] + 1
    decreases level[name]
  {
    if level[name] == 0 {
      chain := [name];
    } else {
      assert WaitsFor(g, level, name);
      var next :| next in g[name] && next in level && level[next] + 1 == level[name];
      var rest := LongestChain(g, level, next);
      chain := [name] + rest;
      assert chain[1..] == rest;
    }
  }

  /** The round is exactly the length of the longest dependency chain, counted in steps. */
  ghost predicate IsDepth(g: Graph, name: string, depth: nat) {
    && (exists chain :: Chain(g, chain) && chain[0] == name && |chain| == depth + 1)
    && (forall chain | Chain(g, chain) && chain[0] == name :: |chain| <= depth + 1)
  }

  lemma RoundIsDepth(g: Graph, level: map<string, nat>, name: string)
    requires Leveled(g, level) && name in level
    ensures IsDepth(g, name, level[name])
  {
    var chain := LongestChain(g, level, name);
    forall other | Chain(g, other) && other[0] == name
      ensures |other| <= level[name] + 1
    {
      ChainFalls(g, level, other, |other| - 1);
    }
  }

  /** Any assignment of workspaces to `m` rounds in which dependencies come strictly earlier. */
  ghost predicate Layering(g: Graph, layer: map<string, nat>, m: nat) {
    && g.Keys <= layer.Keys
    && (forall n | n in g :: layer[n] < m)
    && forall n, d | n in g && d in g[n] && d in g :: layer[d] < layer[n]
  }

  lemma {:induction false} LayeringClimbs(g: Graph, layer: map<string, nat>, m: nat, chain: seq<string>)
    requires Layering(g, layer, m) && Chain(g, chain)
    ensures layer[chain[0]] >= |chain| - 1
  {
    if |chain| > 1 {
      LayeringClimbs(g, layer, m, chain[1..]);
    }
  }

  // ---------------------------------------------------------------------------
  // The loop
  // ---------------------------------------------------------------------------

  lemma {:induction false} ReadyIs(all: seq<Workspace>, g: Graph, done: set<string>)
    ensures forall w :: w in Ready(all, g, done) <==> w in all && w.name !in done && (w.name in g ==> g[w.name] <= done)
  {
    if all != [] {
      ReadyIs(all[..|all| - 1], g, done);
      assert all == all[..|all| - 1] + [all[|all| - 1]];
    }
  }

  /** The names, in input order, of the entries that are not done. */
  ghost predicate AreUndone(all: seq<Workspace>, done: set<string>, names: seq<string>, at: seq<nat>) {
    && |at| == |names| && Rising(at, |all|)
    && (forall k | 0 <= k < |at| :: names[k] == all[at[k]].name)
    && forall i: nat | i < |all| :: i in at <==> all[i].name !in done
  }

  lemma {:induction false} StuckAreUndone(all: seq<Workspace>, done: set<string>) returns (at: seq<nat>)
    ensures AreUndone(all, done, Stuck(all, done), at)
  {
    if all == [] {
      at := [];
    } else {
      var init, last := all[..|all| - 1], all[|all| - 1];
      var before := StuckAreUndone(init, done);
      assert all == init + [last];
      UndoneGrows(init, last, done, Stuck(init, done), before);
      at := if last.name in done then before else before + [|init|];
      assert Stuck(init, done) + [] == Stuck(init, done);
    }
  }

  lemma UndoneGrows(init: seq<Workspace>, last: Workspace, done: set<string>, names: seq<string>, at: seq<nat>)
    requires AreUndone(init, done, names, at)
    ensures last.name in done ==> AreUndone(init + [last], done, names, at)
    ensures last.name !in done ==> AreUndone(init + [last], done, names + [last.name], at + [|init|])
  {
    RisingGrows(at, |init|);
    forall i: nat | i <= |init|
      ensures i in at + [|init|] <==> i == |init| || i in at
      ensures i in at <==> i < |init| && init[i].name !in done
    {
    }
  }

  lemma NamesAppend(init: seq<Workspace>, last: Workspace)
    ensures Names(init + [last]) == Names(init) + {last.name}
    ensures Distinct(init + [last]) <==> Distinct(init) && last.name !in Names(init)
  {
    var all := init + [last];
    if last.name in Names(init) {
      var w :| w in init && w.name == last.name;
      var i :| 0 <= i < |init| && init[i] == w;
      assert all[i].name == all[|init|].name;
    }
    if Distinct(all) {
      forall i, j | 0 <= i < j < |init|
        ensures init[i].name != init[j].name
      {
        assert all[i].name != all[j].name;
      }
    }
    if Distinct(init) && last.name !in Names(init) {
      forall i, j | 0 <= i < j < |all|
        ensures all[i].name != all[j].name
      {
        assert init[i] in init;
      }
    }
  }

  lemma {:induction false} NamesCount(all: seq<Workspace>)
    ensures |Names(all)| <= |all|
    ensures |Names(all)| == |all| <==> Distinct(all)
  {
    if all != [] {
      var init, last := all[..|all| - 1], all[|all| - 1];
      assert all == init + [last];
      NamesCount(init);
      NamesAppend(init, last);
      if last.name in Names(init) {
        assert Names(all) == Names(init);
      }
    }
  }

  function Raise(level: map<string, nat>, ready: set<string>, round: nat): (next: map<string, nat>)
    ensures next.Keys == level.Keys + ready
    ensures (forall n | n in level :: level[n] < round) ==> forall n | n in next :: next[n] < round + 1
  {
    map n | n in level.Keys + ready :: if n in level then level[n] else round
  }

  /** Whatever is not done waits for something not done, or for something in the last round. */
  ghost predicate Blocked(g: Graph, level: map<string, nat>, rounds: nat) {
    rounds > 0 ==> forall n {:trigger BlockedBy(g, level, rounds, n)} | n in g && n !in level ::
      BlockedBy(g, level, rounds, n)
  }

  ghost predicate BlockedBy(g: Graph, level: map<string, nat>, rounds: nat, n: string) {
    exists d :: n in g && d in g[n] && (d !in level || level[d] == rounds - 1)
  }

  /** A ready workspace waits only for what is done; one that is neither ready nor done does not. */
  lemma ReadyByName(all: seq<Workspace>, g: Graph, done: set<string>, n: string)
    requires g == GraphOf(all) && n in g && n !in done
    ensures n in Names(Ready(all, g, done)) <==> g[n] <= done
  {
    PendingIsClosed(all, Names(all));
    ReadyIs(all, g, done);
    var w :| w in all && w.name == n;
  }

  lemma RaisedNamesAreReady(all: seq<Workspace>, g: Graph, done: set<string>)
    requires g == GraphOf(all)
    ensures Names(Ready(all, g, done)) <= g.Keys - done
  {
    PendingIsClosed(all, Names(all));
    ReadyIs(all, g, done);
  }

  ghost predicate AreReady(g: Graph, done: set<string>, ready: set<string>) {
    && ready <= g.Keys - done
    && forall n | n in g && n !in done :: n in ready <==> g[n] <= done
  }

  lemma ReadyNames(all: seq<Workspace>, done: set<string>)
    ensures AreReady(GraphOf(all), done, Names(Ready(all, GraphOf(all), done)))
  {
    var g := GraphOf(all);
    RaisedNamesAreReady(all, g, done);
    forall n | n in g && n !in done
      ensures n in Names(Ready(all, g, done)) <==> g[n] <= done
    {
      ReadyByName(all, g, done, n);
    }
  }

  lemma RoundKeepsLevels(g: Graph, level: map<string, nat>, ready: set<string>, round: nat)
    requires Leveled(g, level) && Blocked(g, level, round) && AreReady(g, level.Keys, ready)
    requires forall n | n in level :: level[n] < round
    ensures Leveled(g, Raise(level, ready, round))
  {
    RaisedWaits(g, level, ready, round);
    RaisedFalls(g, level, ready, round);
  }

  lemma RaisedWaits(g: Graph, level: map<string, nat>, ready: set<string>, round: nat)
    requires Leveled(g, level) && Blocked(g, level, round) && AreReady(g, level.Keys, ready)
    ensures var next := Raise(level, ready, round);
            forall n {:trigger WaitsFor(g, next, n)} | n in next && next[n] > 0 :: WaitsFor(g, next, n)
  {
    var next := Raise(level, ready, round);
    forall n | n in next && next[n] > 0
      ensures WaitsFor(g, next, n)
    {
      if n in level {
        OldStillWaits(g, level, ready, round, n);
      } else {
        NewWaits(g, level, ready, round, n);
      }
    }
  }

  lemma RaisedFalls(g: Graph, level: map<string, nat>, ready: set<string>, round: nat)
    requires Leveled(g, level) && AreReady(g, level.Keys, ready)
    requires forall n | n in level :: level[n] < round
    ensures var next := Raise(level, ready, round);
            forall n, d | n in next && d in g[n] :: d in next && next[d] < next[n]
  {
    var next := Raise(level, ready, round);
    forall n, d | n in next && d in g[n]
      ensures d in next && next[d] < next[n]
    {
      if n !in level {
        assert g[n] <= level.Keys;
      }
    }
  }

  lemma OldStillWaits(g: Graph, level: map<string, nat>, ready: set<string>, round: nat, n: string)
    requires Leveled(g, level) && n in level && level[n] > 0
    ensures WaitsFor(g, Raise(level, ready, round), n)
  {
    var next := Raise(level, ready, round);
    assert WaitsFor(g, level, n);
    var d :| d in g[n] && d in level && level[d] + 1 == level[n];
    assert next[d] + 1 == next[n];
  }

  lemma NewWaits(g: Graph, level: map<string, nat>, ready: set<string>, round: nat, n: string)
    requires Blocked(g, level, round) && AreReady(g, level.Keys, ready) && n in ready && round > 0
    ensures WaitsFor(g, Raise(level, ready, round), n)
  {
    var next := Raise(level, ready, round);
    assert BlockedBy(g, level, round, n);
    var d :| d in g[n] && (d !in level || level[d] == round - 1);
    assert next[d] + 1 == next[n];
  }

  lemma RoundKeepsBlocked(g: Graph, level: map<string, nat>, ready: set<string>, round: nat)
    requires AreReady(g, level.Keys, ready)
    ensures Blocked(g, Raise(level, ready, round), round + 1)
  {
    var next := Raise(level, ready, round);
    forall n | n in g && n !in next
      ensures BlockedBy(g, next, round + 1, n)
    {
      var d :| d in g[n] && d !in level;
      assert d !in next || next[d] == round;
    }
  }

  lemma RoundsGrow(
    all: seq<Workspace>, g: Graph, rounds: seq<seq<Workspace>>, level: map<string, nat>, ready: seq<Workspace>)
    requires RoundsMatch(all, rounds, level) && ready == Ready(all, g, level.Keys) && ready != []
    ensures RoundsMatch(all, rounds + [ready], Raise(level, Names(ready), |rounds|))
  {
    var more, next := rounds + [ready], Raise(level, Names(ready), |rounds|);
    forall k, w | 0 <= k < |more| && w in more[k]
      ensures w in all && InRound(next, w.name, k)
    {
      if k < |rounds| {
        assert w in rounds[k];
        assert InRound(level, w.name, k);
      } else {
        ReadyIs(all, g, level.Keys);
      }
    }
    forall w | w in all && w.name in next
      ensures next[w.name] < |more| && w in more[next[w.name]]
    {
      if w.name in level {
        assert w in rounds[level[w.name]];
      } else {
        ReadyToo(all, g, level.Keys, w);
      }
    }
  }

  /** Readiness is of a name: another entry with a ready name is ready too. */
  lemma ReadyToo(all: seq<Workspace>, g: Graph, done: set<string>, w: Workspace)
    requires w in all && w.name in Names(Ready(all, g, done))
    ensures w in Ready(all, g, done)
  {
    ReadyIs(all, g, done);
    var v :| v in Ready(all, g, done) && v.name == w.name;
  }

  /** The round number of a workspace: which round holds an entry of its name. */
  ghost predicate InRoundOf(rounds: seq<seq<Workspace>>, k: nat, w: Workspace) {
    k < |rounds| && w in rounds[k]
  }

  /** `stuck` are the entries at `at`: all those a cycle can be reached from, each once and in input order. */
  ghost predicate AreStuckAt(all: seq<Workspace>, stuck: seq<string>, at: seq<nat>) {
    && |at| == |stuck| && Rising(at, |all|)
    && (forall k | 0 <= k < |at| :: stuck[k] == all[at[k]].name)
    && forall i: nat | i < |all| :: i in at <==> ReachesCycle(GraphOf(all), all[i].name)
  }

  /** The workspaces a cycle can be reached from, in input order. */
  ghost predicate AreStuck(all: seq<Workspace>, stuck: seq<string>) {
    && (forall n :: n in stuck <==> n in Names(all) && ReachesCycle(GraphOf(all), n))
    && exists at :: AreStuckAt(all, stuck, at)
  }

  lemma StuckNames(all: seq<Workspace>, stuck: seq<string>, at: seq<nat>)
    requires AreStuckAt(all, stuck, at)
    ensures AreStuck(all, stuck)
  {
    forall n | n in stuck
      ensures n in Names(all) && ReachesCycle(GraphOf(all), n)
    {
      var k :| 0 <= k < |stuck| && stuck[k] == n;
      assert at[k] in at && all[at[k]] in all;
    }
    forall n | n in Names(all) && ReachesCycle(GraphOf(all), n)
      ensures n in stuck
    {
      var w :| w in all && w.name == n;
      var i :| 0 <= i < |all| && all[i] == w;
      assert i in at;
      var k :| 0 <= k < |at| && at[k] == i;
      assert stuck[k] == n;
    }
  }

  function Flat(rounds: seq<seq<Workspace>>): seq<Workspace> {
    if rounds == [] then [] else Flat(rounds[..|rounds| - 1]) + rounds[|rounds| - 1]
  }

  /** What the rounds are: the input, parted by dependency depth, in as few rounds as any layering. */
  ghost predicate AreDepths(all: seq<Workspace>, rounds: seq<seq<Workspace>>) {
    && multiset(Flat(rounds)) == multiset(all)
    && (forall w | w in all :: exists k :: InRoundOf(rounds, k, w))
    && (forall k, w | InRoundOf(rounds, k, w) :: w in all && IsDepth(GraphOf(all), w.name, k))
    && (forall j, k, w | InRoundOf(rounds, j, w) && InRoundOf(rounds, k, w) :: j == k)
    && (forall layer, m | Layering(GraphOf(all), layer, m) :: |rounds| <= m)
  }

  method Waves(all: seq<Workspace>) returns (r: Outcome)
    ensures r.Rounds? <==> Distinct(all) && Acyclic(GraphOf(all))
    ensures r.Cycle? ==> AreStuck(all, r.stuck)
    ensures r.Rounds? ==> AreDepths(all, r.rounds)
  {
    var names := Names(all);
    var pending := Pending(all, names);
    ghost var level: map<string, nat> := map[];
    var rounds, done: set<string> := [], {};
    NamesCount(all);
    NonePicked(all);
    while |done| < |all|
      invariant done == level.Keys && done <= names
      invariant Leveled(pending, level) && Blocked(pending, level, |rounds|)
      invariant forall n | n in level :: level[n] < |rounds|
      invariant RoundsMatch(all, rounds, level)
      invariant multiset(Flat(rounds)) == multiset(Picked(all, done))
      decreases |names| - |done|
    {
      var ready := Ready(all, pending, done);
      if ready == [] {
        CycleReport(all, level);
        CycleIsReal(all, level);
        return Cycle(Stuck(all, done));
      }
      RoundsGrow(all, pending, rounds, level, ready);
      ReadyNames(all, done);
      RoundKeepsLevels(pending, level, Names(ready), |rounds|);
      RoundKeepsBlocked(pending, level, Names(ready), |rounds|);
      DoneGrows(all, done);
      FlatGrows(all, rounds, done);
      level := Raise(level, Names(ready), |rounds|);
      rounds := rounds + [ready];
      done := done + Names(ready);
    }
    SmallerSet(done, names);
    PickedAll(all, done);
    RoundsReport(all, rounds, level);
    return Rounds(rounds);
  }

  /** The entries of the input that have one of these names. */
  function Picked(all: seq<Workspace>, names: set<string>): seq<Workspace> {
    if all == [] then []
    else
      var init, last := all[..|all| - 1], all[|all| - 1];
      Picked(init, names) + if last.name in names then [last] else []
  }

  lemma {:induction false} NonePicked(all: seq<Workspace>)
    ensures Picked(all, {}) == []
  {
    if all != [] {
      NonePicked(all[..|all| - 1]);
    }
  }

  lemma {:induction false} PickedAll(all: seq<Workspace>, names: set<string>)
    requires forall w | w in all :: w.name in names
    ensures Picked(all, names) == all
  {
    if all != [] {
      var init, last := all[..|all| - 1], all[|all| - 1];
      assert all == init + [last] && last in all;
      PickedAll(init, names);
    }
  }

  lemma {:induction false} PickedAdds(all: seq<Workspace>, a: set<string>, b: set<string>)
    requires a !! b
    ensures multiset(Picked(all, a + b)) == multiset(Picked(all, a)) + multiset(Picked(all, b))
  {
    if all != [] {
      PickedAdds(all[..|all| - 1], a, b);
    }
  }

  lemma {:induction false} ReadyIsPicked(all: seq<Workspace>, g: Graph, done: set<string>, names: set<string>)
    requires forall w | w in all :: w.name in names <==> w.name !in done && (w.name in g ==> g[w.name] <= done)
    ensures Ready(all, g, done) == Picked(all, names)
  {
    if all != [] {
      ReadyIsPicked(all[..|all| - 1], g, done, names);
    }
  }

  lemma FlatGrows(all: seq<Workspace>, rounds: seq<seq<Workspace>>, done: set<string>)
    requires multiset(Flat(rounds)) == multiset(Picked(all, done))
    ensures var ready := Ready(all, GraphOf(all), done);
            multiset(Flat(rounds + [ready])) == multiset(Picked(all, done + Names(ready)))
  {
    var g := GraphOf(all);
    var ready := Ready(all, g, done);
    ReadyIs(all, g, done);
    forall w | w in all
      ensures w.name in Names(ready) <==> w.name !in done && (w.name in g ==> g[w.name] <= done)
    {
      if w.name in Names(ready) {
        var v :| v in ready && v.name == w.name;
      }
    }
    ReadyIsPicked(all, g, done, Names(ready));
    PickedAdds(all, done, Names(ready));
    assert (rounds + [ready])[..|rounds|] == rounds;
  }

  lemma DoneGrows(all: seq<Workspace>, done: set<string>)
    requires done <= Names(all) && Ready(all, GraphOf(all), done) != []
    ensures var next := done + Names(Ready(all, GraphOf(all), done)); next <= Names(all) && |done| < |next| <= |Names(all)|
  {
    var ready := Ready(all, GraphOf(all), done);
    PendingIsClosed(all, Names(all));
    RaisedNamesAreReady(all, GraphOf(all), done);
    assert ready[0].name in Names(ready);
    SmallerSet(done, done + Names(ready));
    SmallerSet(done + Names(ready), Names(all));
  }

  lemma NothingReady(all: seq<Workspace>, g: Graph, done: set<string>, n: string)
    requires g == GraphOf(all) && Ready(all, g, done) == [] && n in g && n !in done
    ensures StuckOn(g, g.Keys - done, n)
  {
    ReadyByName(all, g, done, n);
    PendingIsClosed(all, Names(all));
    var d :| d in g[n] && d !in done;
    assert d in g.Keys - done;
  }

  lemma DoneIffNoCycle(all: seq<Workspace>, level: map<string, nat>, n: string)
    requires Leveled(GraphOf(all), level) && Ready(all, GraphOf(all), level.Keys) == [] && n in GraphOf(all)
    ensures n in level <==> !ReachesCycle(GraphOf(all), n)
  {
    var g := GraphOf(all);
    if n in level {
      DoneReachesNoCycle(g, level, n);
    } else {
      forall k | k in g.Keys - level.Keys
        ensures StuckOn(g, g.Keys - level.Keys, k)
      {
        NothingReady(all, g, level.Keys, k);
      }
      StuckReachesCycle(g, g.Keys - level.Keys, n);
    }
  }

  /** Nothing is ready: what is not done is stuck, and exactly that reaches a cycle. */
  lemma CycleReport(all: seq<Workspace>, level: map<string, nat>)
    requires Leveled(GraphOf(all), level) && Ready(all, GraphOf(all), level.Keys) == []
    ensures AreStuck(all, Stuck(all, level.Keys))
  {
    var at := StuckAreUndone(all, level.Keys);
    PendingIsClosed(all, Names(all));
    forall i: nat | i < |all|
      ensures i in at <==> ReachesCycle(GraphOf(all), all[i].name)
    {
      assert all[i] in all;
      DoneIffNoCycle(all, level, all[i].name);
    }
    StuckNames(all, Stuck(all, level.Keys), at);
  }

  lemma CycleIsReal(all: seq<Workspace>, level: map<string, nat>)
    requires Leveled(GraphOf(all), level) && Ready(all, GraphOf(all), level.Keys) == [] && |level.Keys| < |all|
    ensures !(Distinct(all) && Acyclic(GraphOf(all)))
  {
    NamesCount(all);
    if Acyclic(GraphOf(all)) {
      AcyclicIsDone(all, level);
      SmallerSet(Names(all), level.Keys);
    }
  }

  lemma AcyclicIsDone(all: seq<Workspace>, level: map<string, nat>)
    requires Leveled(GraphOf(all), level) && Ready(all, GraphOf(all), level.Keys) == [] && Acyclic(GraphOf(all))
    ensures Names(all) <= level.Keys
  {
    PendingIsClosed(all, Names(all));
    forall n | n in Names(all)
      ensures n in level
    {
      DoneIffNoCycle(all, level, n);
    }
  }

  lemma RoundsReport(all: seq<Workspace>, rounds: seq<seq<Workspace>>, level: map<string, nat>)
    requires Leveled(GraphOf(all), level) && RoundsMatch(all, rounds, level) && level.Keys == Names(all)
    requires |Names(all)| == |all| && multiset(Flat(rounds)) == multiset(all)
    ensures Distinct(all) && Acyclic(GraphOf(all)) && AreDepths(all, rounds)
  {
    var g := GraphOf(all);
    PendingIsClosed(all, Names(all));
    NamesCount(all);
    forall n | n in g
      ensures !ReachesCycle(g, n)
    {
      DoneReachesNoCycle(g, level, n);
    }
    forall w | w in all
      ensures exists k :: InRoundOf(rounds, k, w)
    {
      assert InRoundOf(rounds, level[w.name], w);
    }
    forall k, w | InRoundOf(rounds, k, w)
      ensures w in all && InRound(level, w.name, k) && IsDepth(g, w.name, k)
    {
      RoundIsDepth(g, level, w.name);
    }
    forall j, k, w | InRoundOf(rounds, j, w) && InRoundOf(rounds, k, w)
      ensures j == k
    {
      assert InRound(level, w.name, j) && InRound(level, w.name, k);
    }
    forall layer, m | Layering(g, layer, m)
      ensures |rounds| <= m
    {
      if |rounds| > 0 {
        var w := rounds[|rounds| - 1][0];
        assert InRoundOf(rounds, |rounds| - 1, w);
        var chain := LongestChain(g, level, w.name);
        LayeringClimbs(g, layer, m, chain);
      }
    }
  }
}
