/**
 Versions, their precedence (section 11 of Semantic Versioning 2.0.0) and the version
 arithmetic of `bump.ts`.
 */
module Semver {
  import opened Prelude

  datatype Identifier = Numeric(n: nat) | Alpha(s: string)

  datatype Version = Version(major: nat, minor: nat, patch: nat, pre: seq<Identifier>, build: seq<string>)

  datatype BumpType = Major | Minor | Patch

  function Plain(major: nat, minor: nat, patch: nat): Version {
    Version(major, minor, patch, [], [])
  }

  predicate IsPlain(v: Version) {
    v.pre == [] && v.build == []
  }

  const ZERO := Plain(0, 0, 0)

  // Each comparison is -1, 0 or 1, as `semver.order` answers.

  function CompareNat(a: nat, b: nat): (order: int)
    ensures -1 <= order <= 1
  {
    if a < b then -1 else if a > b then 1 else 0
  }

  function CompareText(a: string, b: string): (order: int)
    ensures -1 <= order <= 1
  {
    if a == "" || b == "" then CompareNat(|a|, |b|)
    else if a[0] != b[0] then (if a[0] < b[0] then -1 else 1)
    else CompareText(a[1..], b[1..])
  }

  /** Numeric identifiers have lower precedence than alphanumeric ones. */
  function CompareIdentifier(a: Identifier, b: Identifier): (order: int)
    ensures -1 <= order <= 1
  {
    match (a, b)
    case (Numeric(m), Numeric(n)) => CompareNat(m, n)
    case (Alpha(s), Alpha(t)) => CompareText(s, t)
    case (Numeric(_), Alpha(_)) => -1
    case (Alpha(_), Numeric(_)) => 1
  }

  /** Field by field; a longer list wins when every field of the shorter one is equal. */
  function CompareFields(a: seq<Identifier>, b: seq<Identifier>): (order: int)
    ensures -1 <= order <= 1
  {
    if a == [] || b == [] then CompareNat(|a|, |b|)
    else
      var head := CompareIdentifier(a[0], b[0]);
      if head != 0 then head else CompareFields(a[1..], b[1..])
  }

  /** A pre-release has lower precedence than the release it leads to. */
  function ComparePre(a: seq<Identifier>, b: seq<Identifier>): (order: int)
    ensures -1 <= order <= 1
  {
    if a == [] && b == [] then 0
    else if a == [] then 1
    else if b == [] then -1
    else CompareFields(a, b)
  }

  function Then(first: int, second: int): int {
    if first != 0 then first else second
  }

  /** Build metadata does not take part. */
  function Order(a: Version, b: Version): (order: int)
    ensures -1 <= order <= 1
  {
    Then(CompareNat(a.major, b.major),
      Then(CompareNat(a.minor, b.minor),
        Then(CompareNat(a.patch, b.patch), ComparePre(a.pre, b.pre))))
  }

  lemma {:induction false} TextOrder(a: string, b: string, c: string)
    ensures CompareText(a, b) == -CompareText(b, a)
    ensures CompareText(a, b) >= 0 && CompareText(b, c) >= 0 ==>
              CompareText(a, c) >= 0 && (CompareText(a, c) == 0 ==> CompareText(a, b) == CompareText(b, c) == 0)
  {
    if a != "" && b != "" && c != "" {
      TextOrder(a[1..], b[1..], c[1..]);
    } else if a != "" && b != "" {
      TextOrder(a[1..], b[1..], "");
    }
  }

  lemma IdentifierOrder(a: Identifier, b: Identifier, c: Identifier)
    ensures CompareIdentifier(a, b) == -CompareIdentifier(b, a)
    ensures CompareIdentifier(a, b) >= 0 && CompareIdentifier(b, c) >= 0 ==>
              && CompareIdentifier(a, c) >= 0
              && (CompareIdentifier(a, c) == 0 ==> CompareIdentifier(a, b) == CompareIdentifier(b, c) == 0)
  {
    if a.Alpha? && b.Alpha? {
      TextOrder(a.s, b.s, if c.Alpha? then c.s else "");
    }
  }

  lemma {:induction false} FieldsOrder(a: seq<Identifier>, b: seq<Identifier>, c: seq<Identifier>)
    ensures CompareFields(a, b) == -CompareFields(b, a)
    ensures CompareFields(a, b) >= 0 && CompareFields(b, c) >= 0 ==>
              CompareFields(a, c) >= 0 && (CompareFields(a, c) == 0 ==> CompareFields(a, b) == CompareFields(b, c) == 0)
  {
    if a != [] && b != [] && c != [] {
      IdentifierOrder(a[0], b[0], c[0]);
      FieldsOrder(a[1..], b[1..], c[1..]);
    } else if a != [] && b != [] {
      IdentifierOrder(a[0], b[0], b[0]);
      FieldsOrder(a[1..], b[1..], []);
    }
  }

  /** Precedence is antisymmetric and transitive, strictly so as soon as one step is strict. */
  lemma OrderIsTransitive(a: Version, b: Version, c: Version)
    ensures Order(a, b) == -Order(b, a)
    ensures Order(a, b) >= 0 && Order(b, c) >= 0 ==>
              Order(a, c) >= 0 && (Order(a, c) == 0 ==> Order(a, b) == Order(b, c) == 0)
  {
    FieldsOrder(a.pre, b.pre, c.pre);
  }

  // ---------------------------------------------------------------------------
  // Precedence as section 11 states it
  // ---------------------------------------------------------------------------

  /** In character order: up to `k` they are equal, and there `b` ends or has the lower character. */
  ghost predicate TextAboveAt(a: string, b: string, k: nat) {
    && k < |a| && k <= |b| && a[..k] == b[..k]
    && (k < |b| ==> a[k] > b[k])
  }

  ghost predicate IdentifierAbove(a: Identifier, b: Identifier) {
    match (a, b)
    case (Numeric(m), Numeric(n)) => m > n
    case (Alpha(s), Alpha(t)) => exists k: nat :: TextAboveAt(s, t, k)
    case (Alpha(_), Numeric(_)) => true
    case (Numeric(_), Alpha(_)) => false
  }

  /** The first identifiers that differ decide; if none do, the longer list is above. */
  ghost predicate FieldsAboveAt(a: seq<Identifier>, b: seq<Identifier>, k: nat) {
    && k < |a| && k <= |b| && a[..k] == b[..k]
    && (k < |b| ==> IdentifierAbove(a[k], b[k]))
  }

  /** The numbers from left to right, then the pre-release, which only a release or a higher pre-release is above. */
  ghost predicate Above(a: Version, b: Version) {
    || a.major > b.major
    || (a.major == b.major && a.minor > b.minor)
    || (a.major == b.major && a.minor == b.minor && a.patch > b.patch)
    || (a.major == b.major && a.minor == b.minor && a.patch == b.patch && b.pre != [] &&
        (a.pre == [] || exists k: nat :: FieldsAboveAt(a.pre, b.pre, k)))
  }

  lemma {:induction false} TextIsAbove(a: string, b: string)
    ensures CompareText(a, b) == 1 <==> exists k: nat :: TextAboveAt(a, b, k)
    ensures CompareText(a, b) == 0 <==> a == b
  {
    if a == "" || b == "" || a[0] != b[0] {
      assert CompareText(a, b) == 1 ==> TextAboveAt(a, b, 0);
    } else {
      TextIsAbove(a[1..], b[1..]);
      assert a == [a[0]] + a[1..] && b == [b[0]] + b[1..];
      if k: nat :| TextAboveAt(a, b, k) {
        assert a[1..][..k - 1] == a[..k][1..] && b[1..][..k - 1] == b[..k][1..];
        assert TextAboveAt(a[1..], b[1..], k - 1);
      }
      if k: nat :| TextAboveAt(a[1..], b[1..], k) {
        assert a[..k + 1] == [a[0]] + a[1..][..k] && b[..k + 1] == [b[0]] + b[1..][..k];
        assert TextAboveAt(a, b, k + 1);
      }
    }
  }

  lemma IdentifierIsAbove(a: Identifier, b: Identifier)
    ensures CompareIdentifier(a, b) == 1 <==> IdentifierAbove(a, b)
    ensures CompareIdentifier(a, b) == 0 <==> a == b
  {
    if a.Alpha? && b.Alpha? {
      TextIsAbove(a.s, b.s);
    }
  }

  lemma {:induction false} FieldsAreAbove(a: seq<Identifier>, b: seq<Identifier>)
    ensures CompareFields(a, b) == 1 <==> exists k: nat :: FieldsAboveAt(a, b, k)
    ensures CompareFields(a, b) == 0 <==> a == b
  {
    if a == [] || b == [] {
      assert CompareFields(a, b) == 1 ==> FieldsAboveAt(a, b, 0);
    } else {
      IdentifierIsAbove(a[0], b[0]);
      FieldsAreAbove(a[1..], b[1..]);
      assert a == [a[0]] + a[1..] && b == [b[0]] + b[1..];
      FieldsMove(a, b);
    }
  }

  /** Behind an equal first identifier the rest decides. */
  lemma FieldsMove(a: seq<Identifier>, b: seq<Identifier>)
    requires a != [] && b != []
    ensures (exists k: nat :: FieldsAboveAt(a, b, k)) <==>
            if a[0] == b[0] then exists k: nat :: FieldsAboveAt(a[1..], b[1..], k) else IdentifierAbove(a[0], b[0])
  {
    if k: nat :| FieldsAboveAt(a, b, k) {
      if k > 0 {
        assert a[0] == a[..k][0] == b[0];
        assert a[1..][..k - 1] == a[..k][1..] && b[1..][..k - 1] == b[..k][1..];
        assert FieldsAboveAt(a[1..], b[1..], k - 1);
      } else if a[0] == b[0] {
        NotAboveItself(a[0]);
      }
    }
    if a[0] == b[0] {
      if k: nat :| FieldsAboveAt(a[1..], b[1..], k) {
        assert a[..k + 1] == [a[0]] + a[1..][..k] && b[..k + 1] == [b[0]] + b[1..][..k];
        assert FieldsAboveAt(a, b, k + 1);
      }
    } else if IdentifierAbove(a[0], b[0]) {
      assert FieldsAboveAt(a, b, 0);
    }
  }

  lemma NotAboveItself(a: Identifier)
    ensures !IdentifierAbove(a, a)
  {
  }

  /** `order` is the precedence of section 11: 1 for above, 0 for equal but for build metadata. */
  lemma OrderIsPrecedence(a: Version, b: Version)
    ensures Order(a, b) == 1 <==> Above(a, b)
    ensures Order(a, b) == 0 <==> a.(build := []) == b.(build := [])
  {
    FieldsAreAbove(a.pre, b.pre);
  }

  /** `bumpVersion`: only three plain integers can be bumped; anything else throws. */
  function BumpVersion(v: Version, bump: BumpType): Result<Version, Version> {
    if !IsPlain(v) then Err(v)
    else
      match bump
      case Major => Ok(Plain(v.major + 1, 0, 0))
      case Minor => Ok(Plain(v.major, v.minor + 1, 0))
      case Patch => Ok(Plain(v.major, v.minor, v.patch + 1))
  }

  /** `w` is above `v` in the number the bump raises, and in no earlier one. */
  ghost predicate Raises(w: Version, v: Version, bump: BumpType) {
    match bump
    case Major => w.major > v.major
    case Minor => w.major == v.major && w.minor > v.minor
    case Patch => w.major == v.major && w.minor == v.minor && w.patch > v.patch
  }

  /** The least plain version above `v` in the number the bump raises. */
  ghost predicate IsNext(next: Version, v: Version, bump: BumpType) {
    && IsPlain(next) && Raises(next, v, bump) && Order(next, v) == 1
    && forall w | IsPlain(w) && Raises(w, v, bump) :: Order(w, next) >= 0
  }

  /** A plain version bumps to the least plain one above it in the number bumped; for a patch, the least above it at all. */
  lemma BumpIsNext(v: Version, bump: BumpType)
    ensures BumpVersion(v, bump).Ok? <==> IsPlain(v)
    ensures IsPlain(v) ==> IsNext(BumpVersion(v, bump).value, v, bump)
    ensures IsPlain(v) && bump == Patch ==>
              forall w | IsPlain(w) && Order(w, v) == 1 :: Order(w, BumpVersion(v, bump).value) >= 0
  {
  }

  // ---------------------------------------------------------------------------
  // The bump a range of commits asks for
  // ---------------------------------------------------------------------------

  /** A commit message as the patterns of `bump.ts` read it. */
  datatype Message = Message(breaking: bool, feature: bool)

  function Asks(message: Message): BumpType {
    if message.breaking then Major else if message.feature then Minor else Patch
  }

  function Weight(bump: BumpType): nat {
    match bump
    case Major => 2
    case Minor => 1
    case Patch => 0
  }

  /** `bumpTypeFrom`: the highest bump any commit asks for, whatever their order; an empty range is a patch. */
  method BumpTypeFrom(messages: seq<Message>) returns (highest: BumpType)
    ensures forall m | m in messages :: Weight(Asks(m)) <= Weight(highest)
    ensures highest == Patch || exists m | m in messages :: Asks(m) == highest
    ensures highest == Major <==> exists m | m in messages :: m.breaking
    ensures highest == Patch <==> forall m | m in messages :: !m.breaking && !m.feature
  {
    highest := Patch;
    var i := 0;
    while i < |messages|
      invariant 0 <= i <= |messages| && highest != Major
      invariant forall j | 0 <= j < i :: Weight(Asks(messages[j])) <= Weight(highest)
      invariant highest == Patch || exists m | m in messages :: Asks(m) == highest
      invariant forall j | 0 <= j < i :: !messages[j].breaking
      invariant highest == Minor ==> exists m | m in messages :: m.feature
    {
      if messages[i].breaking {
        assert Asks(messages[i]) == Major;
        return Major;
      }
      if messages[i].feature {
        assert Asks(messages[i]) == Minor;
        highest := Minor;
      }
      i := i + 1;
    }
  }

  // ---------------------------------------------------------------------------
  // Lockstep
  // ---------------------------------------------------------------------------

  /** The part of a `package.json` the bump reads; `name` and `version` only. */
  datatype Manifest = Manifest(name: string, version: Option<Version>)

  function Highest(manifests: seq<Manifest>): Version {
    if manifests == [] then ZERO
    else
      var max := Highest(manifests[..|manifests| - 1]);
      var version := manifests[|manifests| - 1].version.GetOr(ZERO);
      if Order(version, max) == 1 then version else max
  }

  lemma {:induction false} HighestIsHighest(manifests: seq<Manifest>, i: nat)
    requires i < |manifests|
    ensures Order(Highest(manifests), manifests[i].version.GetOr(ZERO)) >= 0
  {
    var last := |manifests| - 1;
    var max, version := Highest(manifests[..last]), manifests[last].version.GetOr(ZERO);
    OrderIsTransitive(version, max, max);
    OrderIsTransitive(version, version, version);
    if i < last {
      HighestIsHighest(manifests[..last], i);
      OrderIsTransitive(version, max, manifests[i].version.GetOr(ZERO));
    }
  }

  lemma {:induction false} HighestIsAtLeastZero(manifests: seq<Manifest>)
    ensures Order(Highest(manifests), ZERO) >= 0
  {
    if manifests != [] {
      var init, last := manifests[..|manifests| - 1], manifests[|manifests| - 1];
      HighestIsAtLeastZero(init);
      OrderIsTransitive(last.version.GetOr(ZERO), Highest(init), ZERO);
    }
  }

  /** The version of manifest `i`, above every one before it and at or above every one after. */
  ghost predicate IsFirstHighest(manifests: seq<Manifest>, i: nat, highest: Version) {
    && i < |manifests| && manifests[i].version == Some(highest)
    && (forall j | 0 <= j < i && manifests[j].version.Some? :: Order(highest, manifests[j].version.value) == 1)
    && forall j | i <= j < |manifests| && manifests[j].version.Some? :: Order(highest, manifests[j].version.value) >= 0
  }

  /** Where no version is above zero the reduction ends with the zero it starts from. */
  ghost predicate IsHighest(manifests: seq<Manifest>, highest: Version) {
    if forall j | 0 <= j < |manifests| && manifests[j].version.Some? :: Order(manifests[j].version.value, ZERO) < 1
    then highest == ZERO
    else exists i :: IsFirstHighest(manifests, i, highest)
  }

  /** Of equal ones, which may differ in build metadata, the reduction keeps the first. */
  lemma {:induction false} HighestIsFirst(manifests: seq<Manifest>)
    ensures IsHighest(manifests, Highest(manifests))
  {
    if manifests != [] {
      var init, last := manifests[..|manifests| - 1], manifests[|manifests| - 1];
      assert manifests == init + [last];
      HighestIsFirst(init);
      OneMoreHighest(init, last);
    }
  }

  lemma OneMoreHighest(init: seq<Manifest>, last: Manifest)
    requires IsHighest(init, Highest(init))
    ensures IsHighest(init + [last], Highest(init + [last]))
  {
    var max, version, all := Highest(init), last.version.GetOr(ZERO), init + [last];
    assert all[..|init|] == init;
    OrderIsTransitive(version, max, max);
    OrderIsTransitive(version, version, version);
    if Order(version, max) == 1 {
      NewHighest(init, last);
    } else if i :| IsFirstHighest(init, i, max) {
      assert IsFirstHighest(all, i, max);
    }
  }

  lemma NewHighest(init: seq<Manifest>, last: Manifest)
    requires Order(last.version.GetOr(ZERO), Highest(init)) == 1
    ensures IsHighest(init + [last], last.version.GetOr(ZERO))
  {
    var max, version, all := Highest(init), last.version.GetOr(ZERO), init + [last];
    OrderIsTransitive(version, version, version);
    forall j: nat | j < |init|
      ensures Order(version, init[j].version.GetOr(ZERO)) == 1
    {
      HighestIsHighest(init, j);
      OrderIsTransitive(version, max, init[j].version.GetOr(ZERO));
    }
    HighestIsAtLeastZero(init);
    OrderIsTransitive(version, max, ZERO);
    OrderIsTransitive(ZERO, max, ZERO);
    assert all[|init|] == last;
    assert IsFirstHighest(all, |init|, version);
  }

  function Shared(manifests: seq<Manifest>, bump: BumpType): Result<Version, Version> {
    BumpVersion(Highest(manifests), bump)
  }

  /** Every package that has a version moves to `version`; the others are left alone. */
  function InLockstep(manifests: seq<Manifest>, version: Version): seq<Manifest> {
    seq(|manifests|, i requires 0 <= i < |manifests| =>
      if manifests[i].version.Some? then manifests[i].(version := Some(version)) else manifests[i])
  }

  /** The shared version is above every version present: the "not greater" skip never fires. */
  lemma {:induction false} SharedIsAboveAll(manifests: seq<Manifest>, bump: BumpType, i: nat)
    requires i < |manifests| && manifests[i].version.Some?
    requires Shared(manifests, bump).Ok?
    ensures Order(Shared(manifests, bump).value, manifests[i].version.value) == 1
  {
    HighestIsHighest(manifests, i);
    BumpIsNext(Highest(manifests), bump);
    OrderIsTransitive(Shared(manifests, bump).value, Highest(manifests), manifests[i].version.value);
  }

  datatype Bumps = Bumps(version: Version, bumped: seq<nat>)

  function Versioned(manifests: seq<Manifest>): seq<nat> {
    if manifests == [] then []
    else
      var last := |manifests| - 1;
      Versioned(manifests[..last]) + if manifests[last].version.Some? then [last] else []
  }

  /** The places of the manifests that have a version, in order. */
  lemma {:induction false} VersionedAre(manifests: seq<Manifest>)
    ensures Rising(Versioned(manifests), |manifests|)
    ensures forall i: nat :: i in Versioned(manifests) <==> i < |manifests| && manifests[i].version.Some?
  {
    if manifests != [] {
      var n := |manifests| - 1;
      VersionedAre(manifests[..n]);
      RisingGrows(Versioned(manifests[..n]), n);
    }
  }

  /** The reduction over the packages read from disk. */
  method HighestOf(packages: array<Manifest>) returns (highest: Version)
    ensures highest == Highest(packages[..])
  {
    highest := ZERO;
    var i := 0;
    while i < packages.Length
      invariant 0 <= i <= packages.Length
      invariant highest == Highest(packages[..i])
    {
      var version := packages[i].version.GetOr(ZERO);
      assert packages[..i + 1][..i] == packages[..i];
      if Order(version, highest) == 1 {
        highest := version;
      }
      i := i + 1;
    }
    assert packages[..i] == packages[..];
  }

  /** A manifest moved to `version`; one without a version is left alone. */
  function Moved(manifest: Manifest, version: Version): Manifest {
    if manifest.version.Some? then manifest.(version := Some(version)) else manifest
  }

  /** The manifests once the first `n` are moved. */
  function MovedUpTo(manifests: seq<Manifest>, version: Version, n: nat): seq<Manifest>
    requires n <= |manifests|
  {
    InLockstep(manifests[..n], version) + manifests[n..]
  }

  lemma MovedOneMore(manifests: seq<Manifest>, version: Version, n: nat)
    requires n < |manifests|
    ensures MovedUpTo(manifests, version, n)[n] == manifests[n]
    ensures MovedUpTo(manifests, version, n + 1) == MovedUpTo(manifests, version, n)[n := Moved(manifests[n], version)]
  {
  }

  lemma AllMoved(manifests: seq<Manifest>, version: Version)
    ensures MovedUpTo(manifests, version, 0) == manifests
    ensures MovedUpTo(manifests, version, |manifests|) == InLockstep(manifests, version)
  {
    assert manifests[..|manifests|] == manifests;
  }

  lemma VersionedOneMore(manifests: seq<Manifest>, i: nat)
    requires i < |manifests|
    ensures Versioned(manifests[..i + 1]) ==
            if manifests[i].version.Some? then Versioned(manifests[..i]) + [i] else Versioned(manifests[..i])
  {
    assert manifests[..i + 1][..i] == manifests[..i];
  }

  /** The loop that rewrites: a version that is not greater would be skipped, a dry run writes nothing. */
  method MoveAll(packages: array<Manifest>, shared: Version, dryRun: bool) returns (bumped: seq<nat>)
    requires forall i | 0 <= i < packages.Length && packages[i].version.Some? ::
               Order(shared, packages[i].version.value) == 1
    modifies packages
    ensures packages[..] == if dryRun then old(packages[..]) else InLockstep(old(packages[..]), shared)
    ensures bumped == if dryRun then [] else Versioned(old(packages[..]))
  {
    ghost var before := packages[..];
    AllMoved(before, shared);
    bumped := [];
    var i := 0;
    while i < packages.Length
      invariant 0 <= i <= packages.Length
      invariant packages[..] == if dryRun then before else MovedUpTo(before, shared, i)
      invariant bumped == if dryRun then [] else Versioned(before[..i])
    {
      VersionedOneMore(before, i);
      MovedOneMore(before, shared, i);
      assert packages[i] == packages[..][i] == before[i];
      var current := packages[i].version;
      if current.Some? && Order(shared, current.value) == 1 {
        if !dryRun {
          packages[i] := packages[i].(version := Some(shared));
          bumped := bumped + [i];
        }
      }
      i := i + 1;
    }
    assert before[..i] == before;
  }

  /** `applyVersionBumps`: the manifests on disk are rewritten one by one, unless this is a dry run. */
  method ApplyVersionBumps(packages: array<Manifest>, bump: BumpType, dryRun: bool)
    returns (r: Result<Bumps, Version>)
    modifies packages
    ensures r.Err? <==> !IsPlain(Highest(old(packages[..])))
    ensures r.Err? || dryRun ==> packages[..] == old(packages[..])
    ensures r.Ok? ==> Ok(r.value.version) == Shared(old(packages[..]), bump)
    ensures r.Ok? && !dryRun ==> packages[..] == InLockstep(old(packages[..]), r.value.version)
    ensures r.Ok? ==> r.value.bumped == if dryRun then [] else Versioned(old(packages[..]))
    ensures r.Ok? ==> forall i | 0 <= i < packages.Length && old(packages[i].version).Some? ::
                        Order(r.value.version, old(packages[i].version.value)) == 1
    ensures r.Ok? ==> IsNext(r.value.version, Highest(old(packages[..])), bump)
    ensures r.Ok? && !dryRun ==> forall i | 0 <= i < packages.Length ::
              && packages[i].name == old(packages[i].name)
              && packages[i].version == if old(packages[i].version).Some? then Some(r.value.version) else None
    ensures r.Ok? ==> Rising(r.value.bumped, packages.Length)
    ensures r.Ok? ==> forall i: nat | i < packages.Length ::
                        i in r.value.bumped <==> !dryRun && old(packages[i].version).Some?
  {
    ghost var before := packages[..];
    var highest := HighestOf(packages);
    var next := BumpVersion(highest, bump);
    if next.Err? {
      return Err(next.error);
    }
    var shared := next.value;
    forall j: nat | j < |before| && before[j].version.Some?
      ensures Order(shared, before[j].version.value) == 1
    {
      SharedIsAboveAll(before, bump, j);
    }
    var bumped := MoveAll(packages, shared, dryRun);
    BumpIsNext(highest, bump);
    VersionedAre(before);
    return Ok(Bumps(shared, bumped));
  }
}
