/**
 Optional and failing results, used wherever the scripts return `undefined` or throw, the size of
 a subset and the places of a subsequence.
 */
module Prelude {

  datatype Option<+T> = None | Some(value: T) {
    predicate IsFailure() {
      None?
    }

    function PropagateFailure<U>(): Option<U>
      requires None?
    {
      None
    }

    function Extract(): T
      requires Some?
    {
      value
    }

    function GetOr(default: T): T {
      if Some? then value else default
    }
  }

  datatype Result<+T, +E> = Ok(value: T) | Err(error: E) {
    function ToOption(): Option<T> {
      if Ok? then Some(value) else None
    }
  }

  /** Indices below `n`, strictly rising. */
  ghost predicate Rising(at: seq<nat>, n: nat) {
    && (forall k | 0 <= k < |at| :: at[k] < n)
    && forall j, k | 0 <= j < k < |at| :: at[j] < at[k]
  }

  lemma RisingGrows(at: seq<nat>, n: nat)
    requires Rising(at, n)
    ensures Rising(at, n + 1) && Rising(at + [n], n + 1)
  {
  }

  function Shifted(at: seq<nat>): seq<nat> {
    seq(|at|, k requires 0 <= k < |at| => at[k] + 1)
  }

  lemma RisingShifts(at: seq<nat>, n: nat)
    requires Rising(at, n)
    ensures Rising(Shifted(at), n + 1) && Rising([0] + Shifted(at), n + 1)
    ensures forall i: nat :: i in Shifted(at) <==> i > 0 && i - 1 in at
    ensures forall i: nat :: i in [0] + Shifted(at) <==> i == 0 || i - 1 in at
  {
    var up := Shifted(at);
    forall i: nat
      ensures i in up <==> i > 0 && i - 1 in at
    {
      if i in up {
        var k :| 0 <= k < |up| && up[k] == i;
        assert at[k] in at;
      }
      if i > 0 && i - 1 in at {
        var k :| 0 <= k < |at| && at[k] == i - 1;
        assert up[k] == i;
      }
    }
  }

  lemma {:induction false} RisingFits(at: seq<nat>, n: nat)
    requires Rising(at, n)
    ensures |at| <= n
  {
    if at != [] {
      RisingFits(at[..|at| - 1], at[|at| - 1]);
    }
  }

  lemma CountOneMore<T>(s: seq<T>, last: T, x: T)
    ensures multiset(s + [last])[x] == multiset(s)[x] + if last == x then 1 else 0
  {
  }

  lemma SmallerSet<T>(a: set<T>, b: set<T>)
    requires a <= b
    ensures |a| <= |b| && (|a| == |b| ==> a == b)
  {
    assert b == a + (b - a);
  }
}
