/**
 `readTree` and `ResourceSampler` of `resources.ts`: one reading of a process tree from a frozen
 process table, and the running maximum over readings. A pid that is not in the table cannot be
 read.
 */
module ProcessTree {
  import opened Prelude

  datatype Process = Process(ticks: nat, rssPages: nat, children: seq<int>)

  type Table = map<int, Process>

  datatype Snapshot = Snapshot(rssBytes: nat, cpuMs: real, processes: nat)

  const PAGE_SIZE: nat := 4096
  const CLOCK_TICKS_PER_SECOND: real := 100.0

  /** Each pid of the trail is readable, and a child of the one before it. */
  ghost predicate IsTrail(table: Table, root: int, trail: seq<int>) {
    && |trail| > 0
    && trail[|trail| - 1] in table
    && (if |trail| == 1 then trail[0] == root
        else IsTrail(table, root, trail[..|trail| - 1]) && trail[|trail| - 1] in table[trail[|trail| - 2]].children)
  }

  ghost predicate Reached(table: Table, root: int, pid: int) {
    exists trail :: IsTrail(table, root, trail) && trail[|trail| - 1] == pid
  }

  /** The tree: every pid reached from the root through readable pids, each once. */
  ghost function Tree(table: Table, root: int): set<int> {
    set pid | pid in table && Reached(table, root, pid)
  }

  ghost function Pick<T>(s: set<T>): (x: T)
    requires s != {}
    ensures x in s
  {
    var x :| x in s; x
  }

  ghost function Total(table: Table, pids: set<int>, weight: Process -> nat): nat
    requires pids <= table.Keys
  {
    if pids == {} then 0
    else
      var pid := Pick(pids);
      weight(table[pid]) + Total(table, pids - {pid}, weight)
  }

  lemma {:induction false} TotalWith(table: Table, pids: set<int>, pid: int, weight: Process -> nat)
    requires pids <= table.Keys && pid in pids
    ensures Total(table, pids, weight) == weight(table[pid]) + Total(table, pids - {pid}, weight)
    decreases pids
  {
    var first := Pick(pids);
    if first != pid {
      TotalWith(table, pids - {first}, pid, weight);
      TotalWith(table, pids - {pid}, first, weight);
      assert pids - {first} - {pid} == pids - {pid} - {first};
    }
  }

  function Ticks(p: Process): nat { p.ticks }
  function Bytes(p: Process): nat { p.rssPages * PAGE_SIZE }

  lemma WeightsAre(p: Process)
    ensures Ticks(p) == p.ticks && Bytes(p) == p.rssPages * 4096
  {
  }

  /** Found so far, and everything a found pid's children lead to is found or waiting. */
  ghost predicate Walk(table: Table, root: int, seen: set<int>, pending: seq<int>) {
    && (root in seen || root in pending)
    && (forall pid | pid in seen && pid in table :: Reached(table, root, pid))
    && (forall pid | pid in pending && pid in table :: Reached(table, root, pid))
    && (forall pid, child | pid in seen && pid in table && child in table[pid].children ::
          child in seen || child in pending)
  }

  lemma WalkSkips(table: Table, root: int, seen: set<int>, pending: seq<int>)
    requires pending != [] && Walk(table, root, seen, pending)
    requires pending[|pending| - 1] in seen || pending[|pending| - 1] !in table
    ensures Walk(table, root, seen + {pending[|pending| - 1]}, pending[..|pending| - 1])
  {
    var last, rest := pending[|pending| - 1], pending[..|pending| - 1];
    assert pending == rest + [last];
  }

  lemma ChildReached(table: Table, root: int, pid: int, child: int)
    requires Reached(table, root, pid) && pid in table && child in table[pid].children && child in table
    ensures Reached(table, root, child)
  {
    var trail :| IsTrail(table, root, trail) && trail[|trail| - 1] == pid;
    var longer := trail + [child];
    assert longer[..|longer| - 1] == trail;
    assert longer[|longer| - 1] == child;
  }

  lemma WalkVisits(table: Table, root: int, seen: set<int>, pending: seq<int>)
    requires pending != [] && Walk(table, root, seen, pending)
    requires pending[|pending| - 1] in table
    ensures var pid := pending[|pending| - 1];
            Walk(table, root, seen + {pid}, pending[..|pending| - 1] + table[pid].children)
  {
    var pid, rest := pending[|pending| - 1], pending[..|pending| - 1];
    assert pending == rest + [pid];
    forall child | child in table[pid].children && child in table {
      ChildReached(table, root, pid, child);
    }
  }

  lemma {:induction false} TrailIsSeen(table: Table, root: int, seen: set<int>, trail: seq<int>)
    requires Walk(table, root, seen, []) && IsTrail(table, root, trail)
    ensures trail[|trail| - 1] in seen
  {
    var last := trail[|trail| - 1];
    if |trail| == 1 {
      assert last == root;
      assert root in seen;
    } else {
      var shorter := trail[..|trail| - 1];
      TrailIsSeen(table, root, seen, shorter);
      var parent := shorter[|shorter| - 1];
      assert parent == trail[|trail| - 2] && parent in table;
      assert last in table[parent].children;
    }
  }

  lemma WalkIsTree(table: Table, root: int, seen: set<int>)
    requires Walk(table, root, seen, [])
    ensures seen * table.Keys == Tree(table, root)
  {
    forall pid | pid in Tree(table, root)
      ensures pid in seen
    {
      var trail :| IsTrail(table, root, trail) && trail[|trail| - 1] == pid;
      TrailIsSeen(table, root, seen, trail);
    }
  }

  lemma RootReached(table: Table, root: int)
    ensures Walk(table, root, {}, [root])
    ensures {} * table.Keys == {} && Total(table, {}, Bytes) == 0 && Total(table, {}, Ticks) == 0
  {
    if root in table {
      assert IsTrail(table, root, [root]) && [root][|[root]| - 1] == root;
    }
  }

  lemma NothingNew(table: Table, seen: set<int>, pid: int)
    requires pid in seen || pid !in table
    ensures (seen + {pid}) * table.Keys == seen * table.Keys
    ensures table.Keys - (seen + {pid}) == table.Keys - seen
  {
  }

  lemma OneMore(table: Table, seen: set<int>, pid: int)
    requires pid in table && pid !in seen
    ensures var before, after := seen * table.Keys, (seen + {pid}) * table.Keys;
            && |after| == |before| + 1
            && Total(table, after, Bytes) == Total(table, before, Bytes) + Bytes(table[pid])
            && Total(table, after, Ticks) == Total(table, before, Ticks) + Ticks(table[pid])
    ensures table.Keys - (seen + {pid}) < table.Keys - seen
  {
    var before, after := seen * table.Keys, (seen + {pid}) * table.Keys;
    assert after == before + {pid} && after - {pid} == before;
    TotalWith(table, after, pid, Bytes);
    TotalWith(table, after, pid, Ticks);
    assert pid in table.Keys - seen;
  }

  /** Terminates and sums each reached pid exactly once, whatever cycles or repeats the child lists hold. */
  method ReadTree(table: Table, root: int) returns (snapshot: Option<Snapshot>)
    ensures snapshot.None? <==> root !in table
    ensures snapshot.Some? ==>
              && snapshot.value.processes == |Tree(table, root)|
              && snapshot.value.rssBytes == Total(table, Tree(table, root), Bytes)
              && snapshot.value.cpuMs == Total(table, Tree(table, root), Ticks) as real * 10.0
  {
    var pending, seen: set<int> := [root], {};
    var rssBytes, cpuTicks, processes: nat := 0, 0, 0;
    RootReached(table, root);
    while |pending| > 0
      invariant Walk(table, root, seen, pending)
      invariant processes == |seen * table.Keys|
      invariant rssBytes == Total(table, seen * table.Keys, Bytes)
      invariant cpuTicks == Total(table, seen * table.Keys, Ticks)
      decreases table.Keys - seen, |pending|
    {
      var pid := pending[|pending| - 1];
      if pid in seen || pid !in table {
        WalkSkips(table, root, seen, pending);
        NothingNew(table, seen, pid);
        pending, seen := pending[..|pending| - 1], seen + {pid};
      } else {
        WalkVisits(table, root, seen, pending);
        OneMore(table, seen, pid);
        seen := seen + {pid};
        cpuTicks := cpuTicks + table[pid].ticks;
        rssBytes := rssBytes + table[pid].rssPages * PAGE_SIZE;
        processes := processes + 1;
        pending := pending[..|pending| - 1] + table[pid].children;
      }
    }
    WalkIsTree(table, root, seen);
    RootIsRead(table, root);
    if processes == 0 {
      return None;
    }
    return Some(Snapshot(rssBytes, cpuTicks as real / CLOCK_TICKS_PER_SECOND * 1000.0, processes));
  }

  lemma {:induction false} TrailStartsReadable(table: Table, root: int, trail: seq<int>)
    requires IsTrail(table, root, trail)
    ensures root in table
  {
    if |trail| > 1 {
      TrailStartsReadable(table, root, trail[..|trail| - 1]);
    }
  }

  /** The tree is empty exactly when the root itself cannot be read. */
  lemma RootIsRead(table: Table, root: int)
    ensures |Tree(table, root)| == 0 <==> root !in table
  {
    if root in table {
      assert IsTrail(table, root, [root]) && [root][|[root]| - 1] == root;
      assert root in Tree(table, root);
    } else if |Tree(table, root)| > 0 {
      var pid := Pick(Tree(table, root));
      var trail :| IsTrail(table, root, trail) && trail[|trail| - 1] == pid;
      TrailStartsReadable(table, root, trail);
    }
  }

  // ---------------------------------------------------------------------------
  // The sampler
  // ---------------------------------------------------------------------------

  datatype Sample = Sample(rssPeakBytes: nat, cpuMs: real, readings: nat, processes: nat)

  function Largest(first: nat, rest: seq<nat>): nat {
    if rest == [] then first
    else
      var max := Largest(first, rest[..|rest| - 1]);
      if rest[|rest| - 1] > max then rest[|rest| - 1] else max
  }

  lemma {:induction false} LargestIsMaximum(first: nat, rest: seq<nat>)
    ensures first <= Largest(first, rest) && forall i | 0 <= i < |rest| :: rest[i] <= Largest(first, rest)
    ensures Largest(first, rest) == first || Largest(first, rest) in rest
  {
    if rest != [] {
      LargestIsMaximum(first, rest[..|rest| - 1]);
      assert rest == rest[..|rest| - 1] + [rest[|rest| - 1]];
    }
  }

  function BytesOf(readings: seq<Snapshot>): seq<nat> {
    seq(|readings|, i requires 0 <= i < |readings| => readings[i].rssBytes)
  }

  function ProcessesOf(readings: seq<Snapshot>): seq<nat> {
    seq(|readings|, i requires 0 <= i < |readings| => readings[i].processes)
  }

  /** `taken` are the readings that succeeded since `Start`. */
  class ResourceSampler {
    var opening: Option<Snapshot>
    var latest: Option<Snapshot>
    var peakBytes: nat
    var readings: nat
    var processes: nat
    ghost var taken: seq<Snapshot>

    ghost predicate Valid()
      reads this
    {
      var first := if opening.Some? then opening.value else Snapshot(0, 0.0, 0);
      && readings == |taken|
      && peakBytes == Largest(first.rssBytes, BytesOf(taken))
      && processes == Largest(first.processes, ProcessesOf(taken))
      && latest == if taken == [] then opening else Some(taken[|taken| - 1])
    }

    constructor ()
      ensures Valid() && opening == None && taken == []
    {
      opening, latest, peakBytes, readings, processes, taken := None, None, 0, 0, 0, [];
    }

    method Start(reading: Option<Snapshot>)
      modifies this
      ensures Valid() && opening == reading && taken == []
    {
      opening, latest := reading, reading;
      peakBytes := if reading.Some? then reading.value.rssBytes else 0;
      readings := 0;
      processes := if reading.Some? then reading.value.processes else 0;
      taken := [];
    }

    method Take(reading: Option<Snapshot>)
      requires Valid()
      modifies this
      ensures Valid() && opening == old(opening)
      ensures taken == old(taken) + if reading.Some? then [reading.value] else []
    {
      if reading.None? {
        return;
      }
      latest := reading;
      peakBytes := if reading.value.rssBytes > peakBytes then reading.value.rssBytes else peakBytes;
      readings := readings + 1;
      processes := if reading.value.processes > processes then reading.value.processes else processes;
      assert BytesOf(taken + [reading.value])[..|taken|] == BytesOf(taken);
      assert ProcessesOf(taken + [reading.value])[..|taken|] == ProcessesOf(taken);
      taken := taken + [reading.value];
    }

    /** Nothing without an opening reading and one after it; otherwise the peaks and the clamped difference. */
    method Stop(reading: Option<Snapshot>) returns (sample: Option<Sample>)
      requires Valid()
      modifies this
      ensures Valid() && opening == old(opening)
      ensures taken == old(taken) + if reading.Some? then [reading.value] else []
      ensures sample.None? <==> opening.None? || taken == []
      ensures sample.Some? ==>
                var last := taken[|taken| - 1];
                && sample.value.readings == |taken|
                && sample.value.rssPeakBytes == Largest(opening.value.rssBytes, BytesOf(taken))
                && sample.value.processes == Largest(opening.value.processes, ProcessesOf(taken))
                && sample.value.cpuMs >= 0.0
                && (last.cpuMs >= opening.value.cpuMs ==> sample.value.cpuMs == last.cpuMs - opening.value.cpuMs)
                && (last.cpuMs < opening.value.cpuMs ==> sample.value.cpuMs == 0.0)
    {
      Take(reading);
      if opening.None? || latest.None? || readings == 0 {
        return None;
      }
      var spent := latest.value.cpuMs - opening.value.cpuMs;
      return Some(Sample(peakBytes, if spent > 0.0 then spent else 0.0, readings, processes));
    }
  }
}
