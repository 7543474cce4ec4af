/**
 Re-homing step by step: once the root is followed to what it hoists, every schema a call of
 `convert.ts` leaves behind unfolds in the component store as it did before, titles included, and
 no reference lands nowhere.
 */
module ConvertMeaning {
  import opened Prelude
  import opened Refs
  import opened Convert

  /** Every reference the document holds. */
  ghost function AllRefs(draft: Draft): set<string> {
    CollectRefs(draft.root) + set k, r | k in draft.defs && r in CollectRefs(draft.defs[k]) :: r
  }

  /** The references of what the call stores or answers: the root, followed once, and the kept definitions. */
  ghost function LiveRefs(draft: Draft): set<string> {
    CollectRefs(draft.Rest()) + set k, r | k in draft.Kept() && r in CollectRefs(draft.defs[k]) :: r
  }

  /** The vendor's document is whole: its own references land in it, and none is already a component's. */
  ghost predicate WellEmitted(draft: Draft) {
    forall r | r in AllRefs(draft) ::
      match After(DEFS_PREFIX, r)
      case Some(key) => key in draft.defs
      case None => After(COMPONENTS_PREFIX, r).None?
  }

  /** A definition that is stored refers back to a self-hoisted root that does not refer to itself directly. */
  ghost predicate RefersBack(draft: Draft) {
    && draft.SelfHoisted().Some?
    && !draft.Cyclic()
    && exists k | k in draft.Kept() :: DEFS_PREFIX + draft.SelfHoisted().value in CollectRefs(draft.defs[k])
  }

  ghost predicate KeptAreFree(draft: Draft, before: map<string, JsonSchema>) {
    forall k | k in draft.Kept() :: !Collides(before, k, draft.Rewritten(draft.defs[k]))
  }

  ghost predicate NameIsFree(draft: Draft, before: map<string, JsonSchema>) {
    && !Collides(before, draft.Name(), draft.Rewritten(draft.Rest()))
    && (draft.Name() in draft.defs ==>
          TitledAs(draft.Name(), draft.Rewritten(draft.defs[draft.Name()])) ==
          TitledAs(draft.Name(), draft.Rewritten(draft.Rest())))
  }

  ghost predicate SkippedIsFree(draft: Draft, before: map<string, JsonSchema>) {
    RefersBack(draft) ==> !Collides(before, draft.SelfHoisted().value, draft.Rewritten(draft.Rest()))
  }

  /** No component the call's references reach is claimed by two different schemas, in the document or by an earlier one. */
  ghost predicate CollisionFree(draft: Draft, before: map<string, JsonSchema>, registers: bool) {
    && KeptAreFree(draft, before)
    && SkippedIsFree(draft, before)
    && (registers || "#" in LiveRefs(draft) ==> NameIsFree(draft, before))
  }

  /**
   The two guards a caller could test before the call: a skipped root that something refers back
   to is stored under its own key anyway, and a `#` has a component to be repointed at.
   */
  ghost predicate Lands(draft: Draft, before: map<string, JsonSchema>, registers: bool) {
    && (RefersBack(draft) ==>
          draft.SelfHoisted().value in before || (registers && draft.Name() == draft.SelfHoisted().value))
    && ("#" in LiveRefs(draft) ==>
          registers || draft.Name() in before || draft.Name() in draft.Kept())
  }

  function Source(draft: Draft): Scope {
    Emitted(draft.Name(), draft.Rest(), draft.defs)
  }

  const ROOT_REF: JsonSchema := Obj(map["$ref" := Str("#")])

  // ---------------------------------------------------------------------------
  // References and prefixes
  // ---------------------------------------------------------------------------

  lemma ComponentRef(name: string)
    ensures After(COMPONENTS_PREFIX, COMPONENTS_PREFIX + name) == Some(name)
    ensures After(DEFS_PREFIX, COMPONENTS_PREFIX + name) == None
    ensures After(DEFS_PREFIX, DEFS_PREFIX + name) == Some(name)
    ensures DEFS_PREFIX + name != "#" && After(DEFS_PREFIX, "#") == None
  {
    var ref := COMPONENTS_PREFIX + name;
    assert ref[|COMPONENTS_PREFIX|..] == name;
    assert ref[2] == 'c' && DEFS_PREFIX[2] == '$';
    assert (DEFS_PREFIX + name)[|DEFS_PREFIX|..] == name;
  }

  lemma DefRef(ref: string)
    requires After(DEFS_PREFIX, ref).Some?
    ensures ref == DEFS_PREFIX + After(DEFS_PREFIX, ref).value
    ensures ref != "#"
  {
  }

  lemma RootRefIsRepointed(draft: Draft)
    ensures draft.Rewritten(ROOT_REF) == RefTo(draft.Name())
  {
    ComponentRef(draft.Name());
    assert draft.Rewritten(ROOT_REF).fields == RefTo(draft.Name()).fields;
  }

  lemma LiveIsEmitted(draft: Draft)
    ensures LiveRefs(draft) <= AllRefs(draft)
  {
  }

  // ---------------------------------------------------------------------------
  // The store holds each definition the live references name
  // ---------------------------------------------------------------------------

  /** The definitions the live references can name: the kept ones, and a skipped root referred back to. */
  ghost predicate IsLiveKey(draft: Draft, key: string) {
    key in draft.Kept() || (RefersBack(draft) && key == draft.SelfHoisted().value)
  }

  lemma StoredDef(draft: Draft, before: map<string, JsonSchema>, registers: bool, key: string)
    requires CollisionFree(draft, before, registers) && IsLiveKey(draft, key)
    ensures key in draft.Stored(before, registers) ==>
              draft.Stored(before, registers)[key] == TitledAs(key, draft.Rewritten(draft.defs[key]))
    ensures key in draft.Stored(before, registers) <==>
              key in draft.Kept() || key in before || (registers && key == draft.Name())
  {
  }

  lemma StoredRoot(draft: Draft, before: map<string, JsonSchema>, registers: bool)
    requires KeptAreFree(draft, before) && NameIsFree(draft, before)
    ensures draft.Name() in draft.Stored(before, registers) ==>
              draft.Stored(before, registers)[draft.Name()] == TitledAs(draft.Name(), draft.Rewritten(draft.Rest()))
    ensures draft.Name() in draft.Stored(before, registers) <==>
              registers || draft.Name() in draft.Kept() || draft.Name() in before
  {
  }

  lemma LiveKey(draft: Draft, ref: string)
    requires ref in LiveRefs(draft) && After(DEFS_PREFIX, ref).Some? && After(DEFS_PREFIX, ref).value in draft.defs
    ensures IsLiveKey(draft, After(DEFS_PREFIX, ref).value)
  {
    var key := After(DEFS_PREFIX, ref).value;
    DefRef(ref);
    if key !in draft.Kept() {
      assert draft.SelfHoisted() == Some(key) && !draft.Cyclic();
      assert ref !in CollectRefs(draft.Rest());
    }
  }

  lemma LiveRefIsLinked(draft: Draft, before: map<string, JsonSchema>, registers: bool, ref: string)
    requires WellEmitted(draft) && CollisionFree(draft, before, registers) && Lands(draft, before, registers)
    requires ref in LiveRefs(draft) || (registers && ref == "#")
    ensures Linked(Source(draft), Components(draft.Stored(before, registers)), draft.Repoint, ref)
  {
    if ref == "#" {
      ComponentRef(draft.Name());
      StoredRoot(draft, before, registers);
      TitleThenRewrite(draft.Name(), draft.Rest(), draft.Repoint);
    } else {
      LiveIsEmitted(draft);
      if After(DEFS_PREFIX, ref).Some? {
        LiveDefIsLinked(draft, before, registers, ref);
      }
    }
  }

  lemma LiveDefIsLinked(draft: Draft, before: map<string, JsonSchema>, registers: bool, ref: string)
    requires WellEmitted(draft) && CollisionFree(draft, before, registers) && Lands(draft, before, registers)
    requires ref in LiveRefs(draft) && ref != "#" && After(DEFS_PREFIX, ref).Some?
    ensures Linked(Source(draft), Components(draft.Stored(before, registers)), draft.Repoint, ref)
  {
    var key := After(DEFS_PREFIX, ref).value;
    LiveIsEmitted(draft);
    DefRef(ref);
    LiveKey(draft, ref);
    ComponentRef(key);
    StoredDef(draft, before, registers, key);
    TitleThenRewrite(key, draft.defs[key], draft.Repoint);
  }

  lemma LiveRefsAreClosed(draft: Draft)
    ensures ClosedUnder(Source(draft), LiveRefs(draft) + {"#"})
    ensures ClosedUnder(Source(draft), LiveRefs(draft))
  {
    forall r | Resolve(Source(draft), r).Some?
      ensures CollectRefs(Resolve(Source(draft), r).value) <= LiveRefs(draft)
    {
      if r == "#" {
        TitleKeepsRefs(draft.Name(), draft.Rest());
      } else {
        var key := After(DEFS_PREFIX, r).value;
        TitleKeepsRefs(key, draft.defs[key]);
      }
    }
  }

  // ---------------------------------------------------------------------------
  // Meaning is kept exactly when the guards hold
  // ---------------------------------------------------------------------------

  lemma {:induction false} LiveValueKeepsMeaning(
    draft: Draft, before: map<string, JsonSchema>, registers: bool, value: Json, depth: nat)
    requires WellEmitted(draft) && CollisionFree(draft, before, registers) && Lands(draft, before, registers)
    requires CollectRefs(value) <= LiveRefs(draft) + if registers then {"#"} else {}
    ensures Unfold(Components(draft.Stored(before, registers)), RewriteRefs(value, draft.Repoint), depth) ==
            Unfold(Source(draft), value, depth)
  {
    var refs := LiveRefs(draft) + if registers then {"#"} else {};
    forall r | r in refs
      ensures Linked(Source(draft), Components(draft.Stored(before, registers)), draft.Repoint, r)
    {
      LiveRefIsLinked(draft, before, registers, r);
    }
    LiveRefsAreClosed(draft);
    assert ClosedUnder(Source(draft), refs) by {
      assert refs == LiveRefs(draft) || refs == LiveRefs(draft) + {"#"};
    }
    SameMeaning(Source(draft), Components(draft.Stored(before, registers)), draft.Repoint, refs, value, depth);
  }

  lemma KeptKeepsMeaning(draft: Draft, before: map<string, JsonSchema>, registers: bool, k: string, depth: nat)
    requires WellEmitted(draft) && CollisionFree(draft, before, registers) && Lands(draft, before, registers)
    requires k in draft.Kept()
    ensures k in draft.Stored(before, registers)
    ensures Unfold(Components(draft.Stored(before, registers)), draft.Stored(before, registers)[k], depth) ==
            Unfold(Source(draft), TitledAs(k, draft.defs[k]), depth)
  {
    StoredDef(draft, before, registers, k);
    TitleKeepsRefs(k, draft.defs[k]);
    TitleThenRewrite(k, draft.defs[k], draft.Repoint);
    LiveValueKeepsMeaning(draft, before, registers, TitledAs(k, draft.defs[k]), depth);
  }

  lemma RestKeepsMeaning(draft: Draft, before: map<string, JsonSchema>, registers: bool, depth: nat)
    requires WellEmitted(draft) && CollisionFree(draft, before, registers) && Lands(draft, before, registers)
    ensures Unfold(Components(draft.Stored(before, registers)), draft.Rewritten(draft.Rest()), depth) ==
            Unfold(Source(draft), draft.Rest(), depth)
  {
    RestIsLive(draft);
    LiveValueKeepsMeaning(draft, before, registers, draft.Rest(), depth);
  }

  lemma NameKeepsMeaning(draft: Draft, before: map<string, JsonSchema>, depth: nat)
    requires WellEmitted(draft) && CollisionFree(draft, before, true) && Lands(draft, before, true)
    ensures Unfold(Components(draft.Stored(before, true)), RefTo(draft.Name()), depth) ==
            Unfold(Source(draft), ROOT_REF, depth)
  {
    RootRefIsRepointed(draft);
    LiveValueKeepsMeaning(draft, before, true, ROOT_REF, depth);
  }

  lemma RestIsLive(draft: Draft)
    ensures CollectRefs(draft.Rest()) <= LiveRefs(draft)
  {
  }

  /** The references of what the call leaves behind: its stored definitions, its root and the root's component. */
  ghost predicate Leaves(draft: Draft, before: map<string, JsonSchema>, registers: bool, ref: string) {
    || ref in CollectRefs(draft.Rewritten(draft.Rest()))
    || exists k | k in draft.Kept() :: ref in CollectRefs(draft.Stored(before, registers)[k])
  }

  ghost predicate NothingDangles(draft: Draft, before: map<string, JsonSchema>, registers: bool) {
    forall r | Leaves(draft, before, registers, r) && After(COMPONENTS_PREFIX, r).Some? ::
      After(COMPONENTS_PREFIX, r).value in draft.Stored(before, registers)
  }

  lemma {:induction false} KeptRefs(draft: Draft, before: map<string, JsonSchema>, registers: bool, k: string)
    requires CollisionFree(draft, before, registers)
    requires k in draft.Kept()
    ensures CollectRefs(draft.Stored(before, registers)[k]) ==
            set r | r in CollectRefs(draft.defs[k]) :: draft.Repoint(r)
  {
    StoredDef(draft, before, registers, k);
    TitleKeepsRefs(k, draft.Rewritten(draft.defs[k]));
    RewrittenRefs(draft.defs[k], draft.Repoint);
  }

  lemma {:induction false} LiveIsLeft(draft: Draft, before: map<string, JsonSchema>, registers: bool, ref: string)
    requires CollisionFree(draft, before, registers)
    requires ref in LiveRefs(draft)
    ensures Leaves(draft, before, registers, draft.Repoint(ref))
  {
    RewrittenRefs(draft.Rest(), draft.Repoint);
    if ref !in CollectRefs(draft.Rest()) {
      var k :| k in draft.Kept() && ref in CollectRefs(draft.defs[k]);
      KeptRefs(draft, before, registers, k);
    }
  }

  lemma {:induction false} LeftIsLive(draft: Draft, before: map<string, JsonSchema>, registers: bool, left: string)
    returns (ref: string)
    requires CollisionFree(draft, before, registers)
    requires Leaves(draft, before, registers, left)
    ensures ref in LiveRefs(draft) && left == draft.Repoint(ref)
  {
    RewrittenRefs(draft.Rest(), draft.Repoint);
    if left in CollectRefs(draft.Rewritten(draft.Rest())) {
      ref :| ref in CollectRefs(draft.Rest()) && left == draft.Repoint(ref);
    } else {
      var k :| k in draft.Kept() && left in CollectRefs(draft.Stored(before, registers)[k]);
      KeptRefs(draft, before, registers, k);
      ref :| ref in CollectRefs(draft.defs[k]) && left == draft.Repoint(ref);
    }
  }

  /** No reference is left dangling if and only if the two guards hold. */
  lemma {:induction false} NothingDanglesIffLands(draft: Draft, before: map<string, JsonSchema>, registers: bool)
    requires WellEmitted(draft) && CollisionFree(draft, before, registers)
    ensures NothingDangles(draft, before, registers) <==> Lands(draft, before, registers)
  {
    if Lands(draft, before, registers) {
      forall q | Leaves(draft, before, registers, q) && After(COMPONENTS_PREFIX, q).Some? {
        LeftLands(draft, before, registers, q);
      }
    }
    if NothingDangles(draft, before, registers) {
      NothingDanglesLands(draft, before, registers);
    }
  }

  lemma LeftLands(draft: Draft, before: map<string, JsonSchema>, registers: bool, left: string)
    requires WellEmitted(draft) && CollisionFree(draft, before, registers) && Lands(draft, before, registers)
    requires Leaves(draft, before, registers, left) && After(COMPONENTS_PREFIX, left).Some?
    ensures After(COMPONENTS_PREFIX, left).value in draft.Stored(before, registers)
  {
    var ref := LeftIsLive(draft, before, registers, left);
    LiveRefIsLinked(draft, before, registers, ref);
    LiveIsEmitted(draft);
    UnresolvedIsForeign(draft, ref);
    LinkedLands(Source(draft), draft.Stored(before, registers), draft.Repoint, ref);
  }

  lemma UnresolvedIsForeign(draft: Draft, ref: string)
    requires WellEmitted(draft) && ref in AllRefs(draft)
    ensures Resolve(Source(draft), ref).None? ==> After(COMPONENTS_PREFIX, draft.Repoint(ref)).None?
  {
  }

  lemma LinkedLands(from: Scope, schemas: map<string, JsonSchema>, repoint: string -> string, ref: string)
    requires Linked(from, Components(schemas), repoint, ref) && Resolve(from, ref).Some?
    ensures After(COMPONENTS_PREFIX, repoint(ref)).Some? ==> After(COMPONENTS_PREFIX, repoint(ref)).value in schemas
  {
  }

  lemma NothingDanglesLands(draft: Draft, before: map<string, JsonSchema>, registers: bool)
    requires CollisionFree(draft, before, registers) && NothingDangles(draft, before, registers)
    ensures Lands(draft, before, registers)
  {
    if RefersBack(draft) {
      var key := draft.SelfHoisted().value;
      ComponentRef(key);
      LiveIsLeft(draft, before, registers, DEFS_PREFIX + key);
      StoredDef(draft, before, registers, key);
    }
    if "#" in LiveRefs(draft) {
      ComponentRef(draft.Name());
      LiveIsLeft(draft, before, registers, "#");
      StoredRoot(draft, before, registers);
    }
  }

  // ---------------------------------------------------------------------------
  // What a silent call says of collisions
  // ---------------------------------------------------------------------------

  lemma SilentKept(draft: Draft, before: map<string, JsonSchema>)
    ensures draft.Clashes(before, draft.Kept()) == {} <==> KeptAreFree(draft, before)
  {
    if !KeptAreFree(draft, before) {
      var k :| k in draft.Kept() && Collides(before, k, draft.Rewritten(draft.defs[k]));
      assert SameName(k) in draft.Clashes(before, draft.Kept());
    }
  }

  lemma SilentName(draft: Draft, before: map<string, JsonSchema>)
    requires KeptAreFree(draft, before)
    ensures Collides(draft.WithDefs(before), draft.Name(), draft.Rewritten(draft.Rest())) <==> !NameIsFree(draft, before)
  {
    var name := draft.Name();
    if name in draft.defs && name !in draft.Kept() {
      assert draft.defs[name] == draft.Rest();
    }
  }

  /**
   A call that warns of nothing collides with nothing, but for two names it does not look at: a
   skipped root that something refers back to, and the name a `#` is repointed at when the call
   does not register it.
   */
  lemma SilenceIff(draft: Draft, before: map<string, JsonSchema>, registers: bool)
    ensures CollisionFree(draft, before, registers) <==>
            && draft.Warned(before, registers) == {}
            && SkippedIsFree(draft, before)
            && (!registers && "#" in LiveRefs(draft) ==> NameIsFree(draft, before))
  {
    SilentKept(draft, before);
    if KeptAreFree(draft, before) {
      SilentName(draft, before);
      assert draft.Warned(before, registers) ==
             if registers && !NameIsFree(draft, before) then {SameName(draft.Name())} else {};
    } else {
      assert draft.Clashes(before, draft.Kept()) <= draft.Warned(before, registers);
    }
  }

  /** The shapes for which the guards hold on any store: what zod emits for ordinary schemas. */
  lemma OrdinarySchemaLands(draft: Draft, before: map<string, JsonSchema>)
    requires draft.SelfHoisted().Some? && draft.id.Some? ==> draft.id == draft.SelfHoisted()
    requires draft.id.None? ==> !RefersBack(draft)
    requires "$ref" !in draft.Rest().fields
    requires "#" in LiveRefs(draft) ==> draft.id.Some? || "#" in CollectRefs(draft.Rest())
    ensures Lands(draft, before, draft.SchemaRegisters(before))
  {
  }
}
