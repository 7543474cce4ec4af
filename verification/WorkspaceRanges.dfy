/**
 `workspace-ranges.ts` and the publish step of `publish.ts`: workspace ranges rewritten in a
 manifest, asserted gone, published, and the file put back.
 */
module WorkspaceRanges {
  import opened Prelude
  import opened Text
  import opened Decimal
  import opened Semver
  import opened ReleaseNotes

  const WORKSPACE_PROTOCOL := "workspace:"

  predicate IsWorkspaceRange(range: string) {
    WORKSPACE_PROTOCOL <= range
  }

  function Specifier(range: string): string
    requires IsWorkspaceRange(range)
  {
    range[|WORKSPACE_PROTOCOL|..]
  }

  function ResolveRange(range: string, version: string): string
    requires IsWorkspaceRange(range)
  {
    var specifier := Specifier(range);
    if specifier == "*" || specifier == "" then "^" + version else specifier + version
  }

  /** The fields a consumer's installer reads. */
  datatype Field = Dependencies | PeerDependencies | OptionalDependencies

  const DEPENDENCY_FIELDS: seq<Field> := [Dependencies, PeerDependencies, OptionalDependencies]

  /** Where a field stands in the list. */
  function Rank(field: Field): (rank: nat)
    ensures rank < |DEPENDENCY_FIELDS| && DEPENDENCY_FIELDS[rank] == field
  {
    match field
    case Dependencies => 0
    case PeerDependencies => 1
    case OptionalDependencies => 2
  }

  type Deps = map<string, string>

  type Fields = map<Field, Deps>

  /** A lookup answers a usable version: present and not empty. */
  predicate Known(versions: map<string, string>, name: string) {
    name in versions && versions[name] != ""
  }

  function ResolveOne(versions: map<string, string>, name: string, range: string): string {
    if IsWorkspaceRange(range) && Known(versions, name) then ResolveRange(range, versions[name]) else range
  }

  function ResolveSome(deps: Deps, versions: map<string, string>, names: set<string>): Deps {
    map n | n in deps :: if n in names then ResolveOne(versions, n, deps[n]) else deps[n]
  }

  function ResolveDeps(deps: Deps, versions: map<string, string>): Deps {
    ResolveSome(deps, versions, deps.Keys)
  }

  /** The first `n` fields of the list resolved. */
  function ResolveFirst(fields: Fields, versions: map<string, string>, n: nat): Fields {
    map f | f in fields :: if Rank(f) < n then ResolveDeps(fields[f], versions) else fields[f]
  }

  function ResolveFields(fields: Fields, versions: map<string, string>): Fields {
    map f | f in fields :: ResolveDeps(fields[f], versions)
  }

  predicate HasRange(deps: Deps) {
    exists n | n in deps :: IsWorkspaceRange(deps[n])
  }

  predicate HasUnknown(deps: Deps, versions: map<string, string>) {
    exists n | n in deps :: IsWorkspaceRange(deps[n]) && !Known(versions, n)
  }

  /** Some field holds a workspace range. */
  predicate AnyRange(fields: Fields) {
    exists f | f in fields :: HasRange(fields[f])
  }

  predicate AnyUnknown(fields: Fields, versions: map<string, string>) {
    exists f | f in fields :: HasUnknown(fields[f], versions)
  }

  datatype Rewrite = Rewrite(name: string, from: string, to: string)

  /** `w` reports one entry's rewrite. */
  predicate Reports(deps: Deps, versions: map<string, string>, w: Rewrite) {
    && w.name in deps && w.from == deps[w.name] && IsWorkspaceRange(w.from)
    && Known(versions, w.name) && w.to == ResolveRange(w.from, versions[w.name])
  }

  predicate ReportsAmong(deps: Deps, versions: map<string, string>, names: set<string>, w: Rewrite) {
    w.name in names && Reports(deps, versions, w)
  }

  lemma ResolvedOneName(deps: Deps, versions: map<string, string>, done: set<string>, name: string)
    requires name in deps && name !in done
    ensures ResolveSome(deps, versions, done)[name] == deps[name]
    ensures ResolveSome(deps, versions, done + {name}) ==
            ResolveSome(deps, versions, done)[name := ResolveOne(versions, name, deps[name])]
    ensures ResolveOne(versions, name, deps[name]) == deps[name] ==>
              ResolveSome(deps, versions, done + {name}) == ResolveSome(deps, versions, done)
  {
  }

  lemma ReportedOneName(deps: Deps, versions: map<string, string>, done: set<string>, name: string)
    requires name in deps
    ensures forall w :: ReportsAmong(deps, versions, done + {name}, w) <==>
              || ReportsAmong(deps, versions, done, w)
              || (IsWorkspaceRange(deps[name]) && Known(versions, name) &&
                  w == Rewrite(name, deps[name], ResolveRange(deps[name], versions[name])))
  {
  }

  /** The report is empty exactly when there was nothing to rewrite. */
  lemma ReportIsEmpty(deps: Deps, versions: map<string, string>, report: seq<Rewrite>)
    requires !HasUnknown(deps, versions)
    requires forall w: Rewrite :: w in report <==> Reports(deps, versions, w)
    ensures report == [] <==> !HasRange(deps)
  {
    if n :| n in deps && IsWorkspaceRange(deps[n]) {
      assert Reports(deps, versions, Rewrite(n, deps[n], ResolveRange(deps[n], versions[n])));
    }
    if report != [] {
      assert report[0] in report;
    }
  }

  datatype Offender = Offender(field: Field, name: string, range: string)

  predicate Offends(fields: Fields, o: Offender) {
    && o.field in fields && o.name in fields[o.field]
    && o.range == fields[o.field][o.name] && IsWorkspaceRange(o.range)
  }

  class Manifest {
    var fields: Fields

    constructor (fields: Fields)
      ensures this.fields == fields
    {
      this.fields := fields;
    }

    /** One field's entries, in some order; the first unknown name stops the rewrite where it is. */
    method ResolveField(field: Field, versions: map<string, string>) returns (r: Result<seq<Rewrite>, string>)
      requires field in fields
      modifies this
      ensures fields.Keys == old(fields).Keys && forall f | f in fields && f != field :: fields[f] == old(fields)[f]
      ensures r.Err? <==> HasUnknown(old(fields)[field], versions)
      ensures r.Ok? ==> fields[field] == ResolveDeps(old(fields)[field], versions)
      ensures r.Ok? ==> forall w: Rewrite :: w in r.value <==> Reports(old(fields)[field], versions, w)
    {
      ghost var deps := fields[field];
      ghost var done: set<string> := {};
      var todo, rewritten := fields[field].Keys, [];
      while todo != {}
        invariant fields.Keys == old(fields).Keys && forall f | f in fields && f != field :: fields[f] == old(fields)[f]
        invariant todo <= deps.Keys && done == deps.Keys - todo
        invariant fields[field] == ResolveSome(deps, versions, done)
        invariant forall n | n in done && IsWorkspaceRange(deps[n]) :: Known(versions, n)
        invariant forall w: Rewrite :: w in rewritten <==> ReportsAmong(deps, versions, done, w)
      {
        var name :| name in todo;
        ResolvedOneName(deps, versions, done, name);
        ReportedOneName(deps, versions, done, name);
        todo := todo - {name};
        done := done + {name};
        var range := fields[field][name];
        if !IsWorkspaceRange(range) {
          continue;
        }
        if !Known(versions, name) {
          return Err(name);
        }
        var to := ResolveRange(range, versions[name]);
        fields := fields[field := fields[field][name := to]];
        rewritten := rewritten + [Rewrite(name, range, to)];
      }
      assert done == deps.Keys;
      return Ok(rewritten);
    }

    /** Throws exactly when some workspace range names no workspace package. */
    method ResolveWorkspaceDeps(versions: map<string, string>) returns (r: Result<seq<Rewrite>, string>)
      modifies this
      ensures r.Err? <==> AnyUnknown(old(fields), versions)
      ensures r.Ok? ==> fields == ResolveFields(old(fields), versions)
      ensures r.Ok? ==> forall w: Rewrite ::
                w in r.value <==> exists f | f in old(fields) :: Reports(old(fields)[f], versions, w)
    {
      ghost var before := fields;
      var rewritten, i := [], 0;
      while i < |DEPENDENCY_FIELDS|
        invariant 0 <= i <= |DEPENDENCY_FIELDS|
        invariant fields == ResolveFirst(before, versions, i)
        invariant forall f | f in before && Rank(f) < i :: !HasUnknown(before[f], versions)
        invariant forall w: Rewrite :: w in rewritten <==> ReportsFirst(before, versions, i, w)
      {
        var field := DEPENDENCY_FIELDS[i];
        FieldAt(i);
        if field in fields {
          assert fields[field] == before[field];
          var one := ResolveField(field, versions);
          if one.Err? {
            return Err(one.error);
          }
          rewritten := rewritten + one.value;
        }
        ReportsOneMore(before, versions, i);
        ResolvedOneMore(before, versions, i, fields);
        i := i + 1;
      }
      AllResolved(before, versions);
      AllReported(before, versions);
      return Ok(rewritten);
    }

    /** The last thing before a tarball: the offenders are the workspace ranges that are left. */
    method AssertNoWorkspaceRanges() returns (offenders: seq<Offender>)
      ensures forall o: Offender :: o in offenders <==> Offends(fields, o)
    {
      offenders := [];
      var i := 0;
      while i < |DEPENDENCY_FIELDS|
        invariant 0 <= i <= |DEPENDENCY_FIELDS|
        invariant forall o: Offender :: o in offenders <==> Offends(fields, o) && Rank(o.field) < i
      {
        var field := DEPENDENCY_FIELDS[i];
        FieldAt(i);
        if field in fields {
          var left := OffendersIn(fields, field);
          offenders := offenders + left;
        }
        i := i + 1;
      }
    }
  }

  lemma FieldAt(i: nat)
    requires i < |DEPENDENCY_FIELDS|
    ensures Rank(DEPENDENCY_FIELDS[i]) == i
    ensures forall f | Rank(f) == i :: f == DEPENDENCY_FIELDS[i]
  {
  }

  lemma ResolvedOneMore(before: Fields, versions: map<string, string>, i: nat, next: Fields)
    requires i < |DEPENDENCY_FIELDS| && next.Keys == before.Keys
    requires var field := DEPENDENCY_FIELDS[i];
             forall f | f in before ::
               next[f] == if f == field then ResolveDeps(before[f], versions) else ResolveFirst(before, versions, i)[f]
    ensures next == ResolveFirst(before, versions, i + 1)
  {
    FieldAt(i);
    forall f | f in before
      ensures next[f] == ResolveFirst(before, versions, i + 1)[f]
    {
      if Rank(f) == i {
        assert f == DEPENDENCY_FIELDS[i];
      }
    }
  }

  lemma AllResolved(before: Fields, versions: map<string, string>)
    ensures ResolveFirst(before, versions, |DEPENDENCY_FIELDS|) == ResolveFields(before, versions)
  {
  }

  method OffendersIn(fields: Fields, field: Field) returns (offenders: seq<Offender>)
    requires field in fields
    ensures forall o: Offender :: o in offenders <==> o.field == field && Offends(fields, o)
  {
    offenders := [];
    var deps := fields[field];
    var todo := deps.Keys;
    while todo != {}
      invariant todo <= deps.Keys
      invariant forall o: Offender :: o in offenders <==> o.field == field && Offends(fields, o) && o.name !in todo
    {
      var name :| name in todo;
      todo := todo - {name};
      if IsWorkspaceRange(deps[name]) {
        offenders := offenders + [Offender(field, name, deps[name])];
      }
    }
  }

  /** Some entry offends exactly when a range is left. */
  lemma NoOffender(fields: Fields, offenders: seq<Offender>)
    requires forall o: Offender :: o in offenders <==> Offends(fields, o)
    ensures offenders == [] <==> !AnyRange(fields)
  {
    if f :| f in fields && HasRange(fields[f]) {
      var n :| n in fields[f] && IsWorkspaceRange(fields[f][n]);
      assert Offends(fields, Offender(f, n, fields[f][n]));
    }
    if offenders != [] {
      assert offenders[0] in offenders;
      assert HasRange(fields[offenders[0].field]);
    }
  }

  /** A rewrite in one of the first `n` fields. */
  ghost predicate ReportsFirst(fields: Fields, versions: map<string, string>, n: nat, w: Rewrite) {
    exists f | f in fields :: Rank(f) < n && Reports(fields[f], versions, w)
  }

  lemma ReportsOneMore(fields: Fields, versions: map<string, string>, i: nat)
    requires i < |DEPENDENCY_FIELDS|
    ensures var field := DEPENDENCY_FIELDS[i];
            forall w: Rewrite :: ReportsFirst(fields, versions, i + 1, w) <==>
              ReportsFirst(fields, versions, i, w) || (field in fields && Reports(fields[field], versions, w))
  {
    FieldAt(i);
  }

  lemma AllReported(fields: Fields, versions: map<string, string>)
    ensures forall w: Rewrite :: ReportsFirst(fields, versions, |DEPENDENCY_FIELDS|, w) <==>
              exists f | f in fields :: Reports(fields[f], versions, w)
  {
    forall f | f in fields
      ensures Rank(f) < |DEPENDENCY_FIELDS|
    {
    }
  }

  // ---------------------------------------------------------------------------
  // Publishing with the ranges resolved
  // ---------------------------------------------------------------------------

  /** A manifest file: as someone wrote it, or as `JSON.stringify` wrote it. */
  datatype Content = Original(fields: Fields) | Restyled(fields: Fields)

  datatype Outcome = Published | PublishFailed | UnknownPackage | RangesLeft

  class Package {
    var file: Content
    var shipped: seq<Fields>

    constructor (file: Content)
      ensures this.file == file && shipped == []
    {
      this.file, shipped := file, [];
    }

    /** npm packs what is in the file, if it publishes at all. */
    method Npm(succeeds: bool)
      modifies this`shipped
      ensures shipped == if succeeds then old(shipped) + [file.fields] else old(shipped)
    {
      if succeeds {
        shipped := shipped + [file.fields];
      }
    }

    /**
     `withResolvedWorkspaceDeps`: whatever happens - an unknown package, a range the assertion
     refuses, a publish that throws - the file ends as it began; and what ships has every range
     resolved and none left.
     */
    method WithResolvedWorkspaceDeps(versions: map<string, string>, npmSucceeds: bool) returns (outcome: Outcome)
      modifies this
      ensures file == old(file)
      ensures outcome == Published ==>
                && shipped == old(shipped) + [ResolveFields(old(file.fields), versions)]
                && !AnyRange(shipped[|shipped| - 1])
      ensures outcome != Published ==> shipped == old(shipped)
      ensures outcome == UnknownPackage <==> AnyUnknown(old(file.fields), versions)
      ensures outcome == RangesLeft <==>
                !AnyUnknown(old(file.fields), versions) && AnyRange(ResolveFields(old(file.fields), versions))
      ensures outcome == PublishFailed ==> !npmSucceeds
    {
      var original := file;
      var pkg := new Manifest(original.fields);
      var rewritten := pkg.ResolveWorkspaceDeps(versions);
      if rewritten.Err? {
        return UnknownPackage;
      }
      if rewritten.value == [] {
        NothingReported(original.fields, versions, rewritten.value);
        NothingToResolve(original.fields, versions);
        var offenders := pkg.AssertNoWorkspaceRanges();
        NoOffender(pkg.fields, offenders);
        if offenders != [] {
          return RangesLeft;
        }
        Npm(npmSucceeds);
        return if npmSucceeds then Published else PublishFailed;
      }
      file := Restyled(pkg.fields);
      var offenders := pkg.AssertNoWorkspaceRanges();
      NoOffender(pkg.fields, offenders);
      if offenders != [] {
        outcome := RangesLeft;
      } else {
        Npm(npmSucceeds);
        outcome := if npmSucceeds then Published else PublishFailed;
      }
      file := original;
    }
  }

  lemma NothingReported(fields: Fields, versions: map<string, string>, report: seq<Rewrite>)
    requires !AnyUnknown(fields, versions) && report == []
    requires forall w: Rewrite :: w in report <==> exists f | f in fields :: Reports(fields[f], versions, w)
    ensures !AnyRange(fields)
  {
    forall f | f in fields
      ensures !HasRange(fields[f])
    {
      assert !HasUnknown(fields[f], versions);
      forall w: Rewrite
        ensures !Reports(fields[f], versions, w)
      {
        assert w !in report;
      }
      ReportIsEmpty(fields[f], versions, []);
    }
  }

  lemma NothingToResolve(fields: Fields, versions: map<string, string>)
    requires !AnyRange(fields)
    ensures ResolveFields(fields, versions) == fields
  {
    forall f | f in fields
      ensures ResolveDeps(fields[f], versions) == fields[f]
    {
      assert !HasRange(fields[f]);
    }
  }

  /**
   What becomes of one entry: a range that is no workspace range stays, `*` or nothing means a
   caret, and any other specifier is kept as written.
   */
  lemma ResolvedEntry(deps: Deps, versions: map<string, string>, name: string, specifier: string)
    requires name in deps
    ensures name in ResolveDeps(deps, versions)
    ensures !IsWorkspaceRange(deps[name]) ==> ResolveDeps(deps, versions)[name] == deps[name]
    ensures Known(versions, name) && deps[name] == "workspace:" + specifier ==>
              ResolveDeps(deps, versions)[name] ==
              (if specifier == "*" || specifier == "" then "^" else specifier) + versions[name]
  {
    assert WORKSPACE_PROTOCOL <= "workspace:" + specifier;
    assert ("workspace:" + specifier)[|WORKSPACE_PROTOCOL|..] == specifier;
  }

  // ---------------------------------------------------------------------------
  // When a range survives the rewrite
  // ---------------------------------------------------------------------------

  /** A resolved range is still a workspace range exactly when its specifier was one itself. */
  lemma OnlyNestedRangesSurvive(range: string, version: string)
    requires IsWorkspaceRange(range)
    requires version != "" && IsDigit(version[0])
    ensures IsWorkspaceRange(ResolveRange(range, version)) <==> IsWorkspaceRange(Specifier(range))
  {
    var specifier, resolved := Specifier(range), ResolveRange(range, version);
    var k := |specifier|;
    assert WORKSPACE_PROTOCOL[0] == 'w';
    if specifier == "*" || specifier == "" {
      assert resolved[0] == '^';
    } else if k < |WORKSPACE_PROTOCOL| {
      assert resolved[k] == version[0];
      assert !IsDigit(WORKSPACE_PROTOCOL[k]);
    } else {
      assert resolved[..|WORKSPACE_PROTOCOL|] == specifier[..|WORKSPACE_PROTOCOL|];
    }
  }

  /** The final assertion refuses a manifest whose names are all known exactly when one of its specifiers is nested. */
  lemma AssertionFailsOnlyForNested(fields: Fields, versions: map<string, string>)
    requires !AnyUnknown(fields, versions)
    requires forall n | Known(versions, n) :: IsDigit(versions[n][0])
    ensures AnyRange(ResolveFields(fields, versions)) <==>
            exists f, n :: f in fields && n in fields[f] && IsWorkspaceRange(fields[f][n]) &&
                           IsWorkspaceRange(Specifier(fields[f][n]))
  {
    var resolved := ResolveFields(fields, versions);
    forall f, n | f in fields && n in fields[f] && IsWorkspaceRange(fields[f][n])
      ensures Known(versions, n)
      ensures IsWorkspaceRange(resolved[f][n]) <==> IsWorkspaceRange(Specifier(fields[f][n]))
    {
      assert !HasUnknown(fields[f], versions);
      OnlyNestedRangesSurvive(fields[f][n], versions[n]);
    }
    if AnyRange(resolved) {
      var f :| f in resolved && HasRange(resolved[f]);
      var n :| n in resolved[f] && IsWorkspaceRange(resolved[f][n]);
      assert f in fields && n in fields[f] && IsWorkspaceRange(fields[f][n]);
    }
    if f, n :| f in fields && n in fields[f] && IsWorkspaceRange(fields[f][n]) &&
               IsWorkspaceRange(Specifier(fields[f][n])) {
      assert IsWorkspaceRange(resolved[f][n]);
      assert HasRange(resolved[f]);
    }
  }

  // ---------------------------------------------------------------------------
  // In a lockstep release
  // ---------------------------------------------------------------------------

  /** `readWorkspaceVersions`: of two manifests with one name the later counts. */
  function VersionsOf(manifests: seq<Semver.Manifest>): map<string, string> {
    if manifests == [] then map[]
    else
      var last := manifests[|manifests| - 1];
      var before := VersionsOf(manifests[..|manifests| - 1]);
      if last.version.Some? then before[last.name := ShowVersion(last.version.value)] else before
  }

  lemma {:induction false} LockstepVersions(manifests: seq<Semver.Manifest>, shared: Version, i: nat)
    requires i < |manifests| && manifests[i].version.Some?
    ensures manifests[i].name in VersionsOf(InLockstep(manifests, shared))
    ensures VersionsOf(InLockstep(manifests, shared))[manifests[i].name] == ShowVersion(shared)
  {
    var last := |manifests| - 1;
    assert InLockstep(manifests, shared)[..last] == InLockstep(manifests[..last], shared);
    if i < last {
      LockstepVersions(manifests[..last], shared, i);
    }
  }

  /**
   After a lockstep bump a `workspace:*` or bare `workspace:` range becomes `^` of the shared
   version, and an explicit specifier is kept before it.
   */
  lemma LockstepRangeIsCaret(manifests: seq<Semver.Manifest>, bump: BumpType, i: nat, specifier: string)
    requires i < |manifests| && manifests[i].version.Some? && Shared(manifests, bump).Ok?
    ensures var shared := Shared(manifests, bump).value;
            var versions := VersionsOf(InLockstep(manifests, shared));
            ResolveOne(versions, manifests[i].name, WORKSPACE_PROTOCOL + specifier) ==
            (if specifier == "*" || specifier == "" then "^" else specifier) + ShowVersion(shared)
  {
    var shared := Shared(manifests, bump).value;
    LockstepVersions(manifests, shared, i);
    assert ShowVersion(shared) != "";
    assert Specifier(WORKSPACE_PROTOCOL + specifier) == specifier;
  }
}
