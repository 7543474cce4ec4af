/**
 `convert.ts`: a vendor's JSON Schema with its own `$defs` and self-references, re-homed in the
 shared component store. The methods are the source's own steps over the store; the functions
 of `Draft` say what they compute; the lemmas say what the result means.
 */
module Convert {
  import opened Prelude
  import opened Refs

  /** What `toJSONSchema` gave, or why it gave nothing. `$schema` is already taken off. */
  datatype Emission =
    | Foreign(vendor: string)
    | NotInstalled
    | Rejected(reason: string)
    | Document(root: JsonSchema, defs: map<string, JsonSchema>)

  const ZOD := "zod"

  const UNDOCUMENTED := "Not documented: \""
  const ACCEPTS_ANYTHING :=
    "\" schemas cannot be converted to JSON Schema, so anything is accepted here as far as this document is concerned."

  function Permissive(vendor: string): JsonSchema {
    Obj(map["description" := Str(UNDOCUMENTED + vendor + ACCEPTS_ANYTHING)])
  }

  /** One emitted document with the names it is to be stored under. */
  datatype Draft = Draft(root: JsonSchema, defs: map<string, JsonSchema>, id: Option<string>, fallback: string) {

    /** `vendorRootKey`: the definition a bare root `$ref` points at. */
    function SelfHoisted(): Option<string> {
      if "$ref" !in root.fields || !root.fields["$ref"].Str? || |root.fields| != 1 then None
      else
        var key := After(DEFS_PREFIX, root.fields["$ref"].s);
        if key.Some? && key.value in defs then key else None
    }

    function Rest(): JsonSchema {
      if SelfHoisted().Some? then defs[SelfHoisted().value] else root
    }

    predicate Cyclic() {
      SelfHoisted().Some? && DEFS_PREFIX + SelfHoisted().value in CollectRefs(Rest())
    }

    function Name(): string {
      id.GetOr(fallback)
    }

    function Repoint(ref: string): string {
      var key := After(DEFS_PREFIX, ref);
      if key.Some? then COMPONENTS_PREFIX + key.value
      else if ref == "#" then COMPONENTS_PREFIX + Name()
      else ref
    }

    function Rewritten(schema: JsonSchema): JsonSchema {
      RewriteRefs(schema, Repoint)
    }

    predicate SelfReferential() {
      "#" in CollectRefs(Rest()) || Cyclic()
    }

    function RootId(): Option<string> {
      if id.Some? || SelfReferential() then Some(Name()) else None
    }

    /** The definitions the loop stores: all but a self-hoisted root that does not refer to itself. */
    function Kept(): set<string> {
      if SelfHoisted().Some? && !Cyclic() then defs.Keys - {SelfHoisted().value} else defs.Keys
    }

    /** The store once the definitions called `names` are added to it, in whatever order. */
    function With(names: set<string>, before: map<string, JsonSchema>): map<string, JsonSchema>
      requires names <= defs.Keys
    {
      (map k | k in names :: TitledAs(k, Rewritten(defs[k]))) + before
    }

    function WithDefs(before: map<string, JsonSchema>): map<string, JsonSchema> {
      With(Kept(), before)
    }

    function Clashes(before: map<string, JsonSchema>, among: set<string>): set<Warning>
      requires among <= defs.Keys
    {
      set k | k in among && Collides(before, k, Rewritten(defs[k])) :: SameName(k)
    }

    /** The store after a call: the kept definitions, and the root under its name if it registers one. */
    function Stored(before: map<string, JsonSchema>, registers: bool): map<string, JsonSchema> {
      if registers then Added(WithDefs(before), Name(), Rewritten(Rest())) else WithDefs(before)
    }

    /** What a call warns about: a kept definition, or the root it registers, whose name another schema holds. */
    function Warned(before: map<string, JsonSchema>, registers: bool): set<Warning> {
      Clashes(before, Kept()) +
      if registers && Collides(WithDefs(before), Name(), Rewritten(Rest())) then {SameName(Name())} else {}
    }

    predicate SchemaRegisters(before: map<string, JsonSchema>) {
      RootId().Some? && Resolved(Rewritten(Rest()), WithDefs(before)).None?
    }

    function SchemaAnswer(before: map<string, JsonSchema>): JsonSchema {
      if SchemaRegisters(before) then RefTo(Name()) else Rewritten(Rest())
    }

    /** The object whose `properties` become parameters. */
    function ObjectRead(before: map<string, JsonSchema>): JsonSchema {
      Resolved(Rewritten(Rest()), Stored(before, SelfReferential())).GetOr(Rewritten(Rest()))
    }
  }

  /** The stored definition a root `$ref` points at, if any. */
  function Resolved(root: JsonSchema, schemas: map<string, JsonSchema>): Option<JsonSchema> {
    if "$ref" in root.fields && root.fields["$ref"].Str? then
      Resolve(Components(schemas), root.fields["$ref"].s)
    else
      None
  }

  // ---------------------------------------------------------------------------
  // The source's steps over the store
  // ---------------------------------------------------------------------------

  datatype RootConversion = RootConversion(
    root: Option<JsonSchema>, id: Option<string>, selfReferential: bool, unconverted: Option<string>)

  lemma StoreOneMore(draft: Draft, names: set<string>, key: string, before: map<string, JsonSchema>)
    requires names <= draft.defs.Keys && key in draft.defs && key !in names
    ensures Added(draft.With(names, before), key, draft.Rewritten(draft.defs[key])) ==
            draft.With(names + {key}, before)
    ensures Collides(draft.With(names, before), key, draft.Rewritten(draft.defs[key])) ==
            Collides(before, key, draft.Rewritten(draft.defs[key]))
  {
    var one := Added(draft.With(names, before), key, draft.Rewritten(draft.defs[key]));
    var all := draft.With(names + {key}, before);
    assert one.Keys == all.Keys;
    forall k | k in one
      ensures one[k] == all[k]
    {
    }
  }

  lemma ClashOneMore(draft: Draft, names: set<string>, key: string, before: map<string, JsonSchema>)
    requires names <= draft.defs.Keys && key in draft.defs
    ensures draft.Clashes(before, names + {key}) ==
            draft.Clashes(before, names) +
            if Collides(before, key, draft.Rewritten(draft.defs[key])) then {SameName(key)} else {}
  {
    var added := draft.Clashes(before, names + {key});
    forall w | w in draft.Clashes(before, names)
      ensures w in added
    {
    }
    if Collides(before, key, draft.Rewritten(draft.defs[key])) {
      assert SameName(key) in added;
    }
  }

  method StoreDefs(draft: Draft, store: SchemaStore)
    modifies store
    ensures store.schemas == draft.WithDefs(old(store.schemas))
    ensures forall w :: w in store.warnings <==>
              w in old(store.warnings) || w in draft.Clashes(old(store.schemas), draft.Kept())
  {
    var todo := draft.defs.Keys;
    ghost var before, done: set<string> := store.schemas, {};
    while todo != {}
      invariant todo <= draft.defs.Keys
      invariant done == draft.Kept() - todo
      invariant store.schemas == draft.With(done, before)
      invariant forall w :: w in store.warnings <==> w in old(store.warnings) || w in draft.Clashes(before, done)
    {
      var key :| key in todo;
      todo := todo - {key};
      if draft.SelfHoisted() == Some(key) && !draft.Cyclic() {
        continue;
      }
      StoreOneMore(draft, done, key, before);
      ClashOneMore(draft, done, key, before);
      var _ := store.Add(key, draft.Rewritten(draft.defs[key]));
      done := done + {key};
    }
    assert done == draft.Kept();
  }

  method ConvertRoot(emission: Emission, id: Option<string>, fallback: string, store: SchemaStore)
    returns (r: RootConversion)
    modifies store
    ensures emission.Document? ==>
              var draft := Draft(emission.root, emission.defs, id, fallback);
              && r == RootConversion(Some(draft.Rewritten(draft.Rest())), draft.RootId(), draft.SelfReferential(), None)
              && store.schemas == draft.WithDefs(old(store.schemas))
              && forall w :: w in store.warnings <==>
                   w in old(store.warnings) || w in draft.Clashes(old(store.schemas), draft.Kept())
    ensures !emission.Document? ==>
              && r == RootConversion(None, None, false, Some(if emission.Foreign? then emission.vendor else ZOD))
              && store.schemas == old(store.schemas)
              && store.warnings == Noted(old(store.warnings), Degraded(emission, fallback))
  {
    match emission
    case Foreign(vendor) =>
      store.Warn(UnknownVendor(fallback, vendor));
      r := RootConversion(None, None, false, Some(vendor));
    case NotInstalled =>
      store.Warn(VendorMissing(fallback));
      r := RootConversion(None, None, false, Some(ZOD));
    case Rejected(reason) =>
      store.Warn(Refused(fallback, reason));
      r := RootConversion(None, None, false, Some(ZOD));
    case Document(root, defs) =>
      var draft := Draft(root, defs, id, fallback);
      StoreDefs(draft, store);
      r := RootConversion(Some(draft.Rewritten(draft.Rest())), draft.RootId(), draft.SelfReferential(), None);
  }

  function Degraded(emission: Emission, fallback: string): Warning
    requires !emission.Document?
  {
    match emission
    case Foreign(vendor) => UnknownVendor(fallback, vendor)
    case NotInstalled => VendorMissing(fallback)
    case Rejected(reason) => Refused(fallback, reason)
  }

  datatype Converted = Converted(schema: JsonSchema, unconverted: Option<string>)

  method ConvertSchema(emission: Emission, id: Option<string>, fallback: string, store: SchemaStore)
    returns (r: Converted)
    modifies store
    ensures emission.Document? ==>
              var draft, before := Draft(emission.root, emission.defs, id, fallback), old(store.schemas);
              && r == Converted(draft.SchemaAnswer(before), None)
              && store.schemas == draft.Stored(before, draft.SchemaRegisters(before))
              && forall w :: w in store.warnings <==>
                   w in old(store.warnings) || w in draft.Warned(before, draft.SchemaRegisters(before))
    ensures !emission.Document? ==>
              var vendor := if emission.Foreign? then emission.vendor else ZOD;
              && r == Converted(Permissive(vendor), Some(vendor)) && r.schema.fields.Keys == {"description"}
              && store.schemas == old(store.schemas)
              && store.warnings == Noted(old(store.warnings), Degraded(emission, fallback))
  {
    var conversion := ConvertRoot(emission, id, fallback, store);
    if conversion.root.None? {
      return Converted(Permissive(conversion.unconverted.GetOr(ZOD)), conversion.unconverted);
    }
    if conversion.id.None? || Resolved(conversion.root.value, store.schemas).Some? {
      return Converted(conversion.root.value, None);
    }
    var name := store.Add(conversion.id.value, conversion.root.value);
    return Converted(RefTo(name), None);
  }

  /** A schema that has a name, or refers to itself, is answered with a reference that resolves in the store. */
  lemma NamedIsAReference(draft: Draft, before: map<string, JsonSchema>)
    requires draft.id.Some? || draft.SelfReferential()
    ensures var name, answer := draft.id.GetOr(draft.fallback), draft.SchemaAnswer(before);
            var after := draft.Stored(before, draft.SchemaRegisters(before));
            && Resolved(answer, after).Some?
            && (draft.SchemaRegisters(before) ==>
                  name in after && answer == Obj(map["$ref" := Str("#/components/schemas/" + name)]))
  {
    RefResolves(draft.Name());
  }

  lemma RefResolves(name: string)
    ensures After(COMPONENTS_PREFIX, COMPONENTS_PREFIX + name) == Some(name)
  {
    assert (COMPONENTS_PREFIX + name)[|COMPONENTS_PREFIX|..] == name;
  }

  /** It registers unless its root is a reference that resolves already, and any other schema never does. */
  lemma RegistersIff(draft: Draft, before: map<string, JsonSchema>)
    ensures draft.SchemaRegisters(before) <==>
            (draft.id.Some? || draft.SelfReferential()) &&
            Resolved(draft.Rewritten(draft.Rest()), draft.WithDefs(before)).None?
    ensures !draft.SchemaRegisters(before) ==>
              && draft.SchemaAnswer(before) == draft.Rewritten(draft.Rest())
              && draft.Stored(before, false).Keys == before.Keys + draft.Kept()
  {
  }

  datatype ObjectShape = ObjectShape(properties: Json, required: seq<string>, unconverted: Option<string>)

  const NO_PARAMETERS := ObjectShape(Obj(map[]), [], None)

  predicate HasProperties(schema: JsonSchema) {
    "properties" in schema.fields && (schema.fields["properties"].Obj? || schema.fields["properties"].Arr?)
  }

  /** What the schema lists as required, if that is a list. */
  function RequiredEntries(schema: JsonSchema): seq<Json> {
    if "required" in schema.fields && schema.fields["required"].Arr? then schema.fields["required"].items else []
  }

  /** `required` keeps its strings and drops anything else. */
  function RequiredOf(entries: seq<Json>): seq<string> {
    if entries == [] then []
    else
      var init, last := entries[..|entries| - 1], entries[|entries| - 1];
      RequiredOf(init) + if last.Str? then [last.s] else []
  }

  /** The strings among `entries` stand at `at`, none left out, and `names` are they. */
  ghost predicate AreStringsAt(names: seq<string>, entries: seq<Json>, at: seq<nat>) {
    && |at| == |names| && Rising(at, |entries|)
    && (forall k | 0 <= k < |at| :: entries[at[k]] == Str(names[k]))
    && forall i: nat | i < |entries| && entries[i].Str? :: i in at
  }

  ghost predicate AreStringsOf(names: seq<string>, entries: seq<Json>) {
    exists at :: AreStringsAt(names, entries, at)
  }

  lemma OneMoreString(names: seq<string>, entries: seq<Json>, at: seq<nat>, name: string)
    requires AreStringsAt(names, entries, at)
    ensures AreStringsAt(names + [name], entries + [Str(name)], at + [|entries|])
  {
    RisingGrows(at, |entries|);
    var more := at + [|entries|];
    forall i: nat | i < |entries| + 1 && (entries + [Str(name)])[i].Str?
      ensures i in more
    {
      if i < |entries| {
        assert entries[i].Str?;
      } else {
        assert more[|at|] == i;
      }
    }
  }

  lemma OneMoreOther(names: seq<string>, entries: seq<Json>, at: seq<nat>, other: Json)
    requires AreStringsAt(names, entries, at) && !other.Str?
    ensures AreStringsAt(names, entries + [other], at)
  {
    RisingGrows(at, |entries|);
    forall i: nat | i < |entries| + 1 && (entries + [other])[i].Str?
      ensures i in at
    {
      assert entries[i].Str?;
    }
  }

  lemma {:induction false} RequiredAreStrings(entries: seq<Json>) returns (at: seq<nat>)
    ensures AreStringsAt(RequiredOf(entries), entries, at)
  {
    if entries == [] {
      at := [];
    } else {
      var init, last := entries[..|entries| - 1], entries[|entries| - 1];
      var before := RequiredAreStrings(init);
      assert entries == init + [last];
      if last.Str? {
        OneMoreString(RequiredOf(init), init, before, last.s);
        at := before + [|init|];
      } else {
        OneMoreOther(RequiredOf(init), init, before, last);
        at := before;
      }
    }
  }

  /** Without its last string, or its last entry that is none. */
  lemma OneStringLess(names: seq<string>, entries: seq<Json>, at: seq<nat>)
    requires entries != [] && AreStringsAt(names, entries, at)
    ensures var n := |entries| - 1;
            if entries[n].Str?
            then names != [] && Str(names[|names| - 1]) == entries[n]
                 && AreStringsAt(names[..|names| - 1], entries[..n], at[..|at| - 1])
            else AreStringsAt(names, entries[..n], at)
  {
    var n := |entries| - 1;
    if entries[n].Str? {
      assert n in at;
      assert at[|at| - 1] == n;
      forall i: nat | i < n && entries[..n][i].Str?
        ensures i in at[..|at| - 1]
      {
        assert entries[i].Str? && i in at;
      }
    } else {
      forall k | 0 <= k < |at|
        ensures at[k] < n
      {
        assert entries[at[k]].Str?;
      }
      forall i: nat | i < n && entries[..n][i].Str?
        ensures i in at
      {
        assert entries[i].Str?;
      }
    }
  }

  lemma {:induction false} StringsAreCountedAt(names: seq<string>, entries: seq<Json>, at: seq<nat>, name: string)
    requires AreStringsAt(names, entries, at)
    ensures multiset(names)[name] == multiset(entries)[Str(name)]
    decreases |entries|
  {
    if entries != [] {
      var init, last := entries[..|entries| - 1], entries[|entries| - 1];
      OneStringLess(names, entries, at);
      assert entries == init + [last];
      if last.Str? {
        var k := |names| - 1;
        assert names == names[..k] + [names[k]];
        StringsAreCountedAt(names[..k], init, at[..|at| - 1], name);
      } else {
        StringsAreCountedAt(names, init, at, name);
      }
    }
  }

  lemma {:induction false} AllStringsAt(names: seq<string>, entries: seq<Json>, at: seq<nat>, i: nat)
    requires AreStringsAt(names, entries, at) && forall j | 0 <= j < |entries| :: entries[j].Str?
    ensures |names| == |entries|
    ensures i < |entries| ==> entries[i] == Str(names[i])
    decreases |entries|
  {
    RisingFits(at, |entries|);
    if entries != [] {
      var init := entries[..|entries| - 1];
      OneStringLess(names, entries, at);
      assert forall j | 0 <= j < |init| :: init[j] == entries[j];
      AllStringsAt(names[..|names| - 1], init, at[..|at| - 1], i);
    }
  }

  /** Each string is among the names as often as it is listed, and a list of strings is the names in order. */
  lemma StringsAreCounted(names: seq<string>, entries: seq<Json>)
    requires AreStringsOf(names, entries)
    ensures forall name :: multiset(names)[name] == multiset(entries)[Str(name)]
    ensures (forall i | 0 <= i < |entries| :: entries[i].Str?) ==>
              |names| == |entries| && forall i | 0 <= i < |entries| :: entries[i] == Str(names[i])
  {
    var at :| AreStringsAt(names, entries, at);
    forall name {
      StringsAreCountedAt(names, entries, at, name);
    }
    if forall i | 0 <= i < |entries| :: entries[i].Str? {
      AllStringsAt(names, entries, at, 0);
      forall i: nat | i < |entries|
        ensures entries[i] == Str(names[i])
      {
        AllStringsAt(names, entries, at, i);
      }
    }
  }

  /** The parameters an object describes: its properties as they stand and its required names; without properties none. */
  ghost predicate IsShapeOf(shape: ObjectShape, schema: JsonSchema) {
    if HasProperties(schema) then
      && shape.properties == schema.fields["properties"] && shape.unconverted == None
      && AreStringsOf(shape.required, RequiredEntries(schema))
    else
      shape == NO_PARAMETERS
  }

  method ConvertObject(emission: Emission, id: Option<string>, fallback: string, store: SchemaStore)
    returns (r: ObjectShape)
    modifies store
    ensures emission.Document? ==>
              var draft, before := Draft(emission.root, emission.defs, id, fallback), old(store.schemas);
              && IsShapeOf(r, draft.ObjectRead(before))
              && store.schemas == draft.Stored(before, draft.SelfReferential())
              && forall w :: w in store.warnings <==>
                   || w in old(store.warnings) || w in draft.Warned(before, draft.SelfReferential())
                   || (!HasProperties(draft.ObjectRead(before)) && w == NotAnObject(fallback))
    ensures !emission.Document? ==>
              && r == NO_PARAMETERS.(unconverted := Some(if emission.Foreign? then emission.vendor else ZOD))
              && store.schemas == old(store.schemas)
              && store.warnings == Noted(old(store.warnings), Degraded(emission, fallback))
  {
    var conversion := ConvertRoot(emission, id, fallback, store);
    if conversion.root.None? {
      return ObjectShape(Obj(map[]), [], conversion.unconverted);
    }
    if conversion.selfReferential && conversion.id.Some? {
      var _ := store.Add(conversion.id.value, conversion.root.value);
    }
    var read := Resolved(conversion.root.value, store.schemas).GetOr(conversion.root.value);
    if "properties" !in read.fields || !(read.fields["properties"].Obj? || read.fields["properties"].Arr?) {
      store.Warn(NotAnObject(fallback));
      return ObjectShape(Obj(map[]), [], None);
    }
    var required: seq<string> := [];
    if "required" in read.fields && read.fields["required"].Arr? {
      required := RequiredOf(read.fields["required"].items);
    }
    ghost var _ := RequiredAreStrings(RequiredEntries(read));
    return ObjectShape(read.fields["properties"], required, None);
  }
}
