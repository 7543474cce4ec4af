/** Documents that `convert.ts` does not keep the meaning of: one family for each condition. */
module ConvertLimits {
  import opened Prelude
  import opened Refs
  import opened Meaning
  import opened Convert
  import opened ConvertMeaning
  import opened VendorMeaning
  import opened Documents

  // ---------------------------------------------------------------------------
  // References that are lost
  // ---------------------------------------------------------------------------

  function Bare(ref: string): JsonSchema {
    Obj(map["$ref" := Str(ref)])
  }

  function ListOf(ref: string): JsonSchema {
    Obj(map["items" := Bare(ref)])
  }

  lemma ListRefs(ref: string)
    ensures CollectRefs(Bare(ref)) == {ref} && CollectRefs(ListOf(ref)) == {ref}
  {
    assert |"items"| != |"$ref"|;
    assert ListOf(ref).fields["items"] == Bare(ref);
    assert forall r | r in CollectRefs(Bare(ref)) :: r in CollectRefs(ListOf(ref));
  }

  /** Two definitions that only refer to each other, the first self-hoisted as the root. */
  function MutualDraft(a: string, b: string, id: Option<string>, fallback: string): Draft {
    Draft(Bare(DEFS_PREFIX + a), map[a := ListOf(DEFS_PREFIX + b), b := ListOf(DEFS_PREFIX + a)], id, fallback)
  }

  lemma MutualDraftIsHoisted(a: string, b: string, id: Option<string>, fallback: string)
    requires a != b
    ensures var draft := MutualDraft(a, b, id, fallback);
            && draft.SelfHoisted() == Some(a) && !draft.Cyclic() && RefersBack(draft)
            && draft.Rest() == ListOf(DEFS_PREFIX + b) && draft.Kept() == {b}
  {
    MutualDraftIsSkipped(a, b, id, fallback);
    ListRefs(DEFS_PREFIX + a);
    var draft := MutualDraft(a, b, id, fallback);
    assert b in draft.Kept() && DEFS_PREFIX + a in CollectRefs(draft.defs[b]);
  }

  lemma MutualDraftIsSkipped(a: string, b: string, id: Option<string>, fallback: string)
    requires a != b
    ensures var draft := MutualDraft(a, b, id, fallback);
            && draft.SelfHoisted() == Some(a) && !draft.Cyclic()
            && draft.Rest() == ListOf(DEFS_PREFIX + b) && draft.Kept() == {b}
  {
    var draft := MutualDraft(a, b, id, fallback);
    BareIsHoisted(draft, a);
    ListRefs(DEFS_PREFIX + b);
    DefinitionsApart(a, b);
    assert draft.Rest() == ListOf(DEFS_PREFIX + b) && !draft.Cyclic();
  }

  lemma BareIsHoisted(draft: Draft, key: string)
    requires draft.root == Bare(DEFS_PREFIX + key) && key in draft.defs
    ensures draft.SelfHoisted() == Some(key)
  {
    ComponentRef(key);
    assert |draft.root.fields| == 1;
  }

  lemma DefinitionsApart(a: string, b: string)
    ensures DEFS_PREFIX + a == DEFS_PREFIX + b ==> a == b
  {
    assert (DEFS_PREFIX + a)[|DEFS_PREFIX|..] == a && (DEFS_PREFIX + b)[|DEFS_PREFIX|..] == b;
  }

  lemma RefsWithin(draft: Draft, allowed: set<string>)
    requires CollectRefs(draft.root) <= allowed
    requires forall k | k in draft.defs :: CollectRefs(draft.defs[k]) <= allowed
    ensures AllRefs(draft) <= allowed && LiveRefs(draft) <= allowed
  {
  }

  lemma MutualDraftRefs(a: string, b: string, id: Option<string>, fallback: string)
    ensures AllRefs(MutualDraft(a, b, id, fallback)) <= {DEFS_PREFIX + a, DEFS_PREFIX + b}
    ensures LiveRefs(MutualDraft(a, b, id, fallback)) <= {DEFS_PREFIX + a, DEFS_PREFIX + b}
  {
    ListRefs(DEFS_PREFIX + a);
    ListRefs(DEFS_PREFIX + b);
    RefsWithin(MutualDraft(a, b, id, fallback), {DEFS_PREFIX + a, DEFS_PREFIX + b});
  }

  /** Over an empty store only the root's own name can collide, with a definition that is not the root. */
  lemma EmptyStoreIsFree(draft: Draft, registers: bool)
    requires registers || "#" in LiveRefs(draft) ==>
               draft.Name() in draft.defs ==> draft.defs[draft.Name()] == draft.Rest()
    ensures CollisionFree(draft, map[], registers)
  {
  }

  lemma MutualDraftFacts(a: string, b: string, id: Option<string>, fallback: string)
    ensures var draft := MutualDraft(a, b, id, fallback); WellEmitted(draft) && "#" !in LiveRefs(draft)
  {
    var draft := MutualDraft(a, b, id, fallback);
    MutualDraftRefs(a, b, id, fallback);
    DefinitionIsWhole(draft, a);
    DefinitionIsWhole(draft, b);
    AllWhole(draft, {DEFS_PREFIX + a, DEFS_PREFIX + b});
  }

  lemma DefinitionIsWhole(draft: Draft, key: string)
    requires key in draft.defs
    ensures IsWhole(draft, DEFS_PREFIX + key) && DEFS_PREFIX + key != "#"
  {
    ComponentRef(key);
    ReferenceIsWhole(draft, DEFS_PREFIX + key);
  }

  /** A reference that lands in the document, or is none of a component's. */
  predicate IsWhole(draft: Draft, ref: string) {
    match After(DEFS_PREFIX, ref)
    case Some(key) => key in draft.defs
    case None => After(COMPONENTS_PREFIX, ref).None?
  }

  lemma ReferenceIsWhole(draft: Draft, ref: string)
    requires After(DEFS_PREFIX, ref).Some? && After(DEFS_PREFIX, ref).value in draft.defs
    ensures IsWhole(draft, ref)
  {
  }

  lemma AllWhole(draft: Draft, allowed: set<string>)
    requires AllRefs(draft) <= allowed && forall r | r in allowed :: IsWhole(draft, r)
    ensures WellEmitted(draft)
  {
    forall r | r in AllRefs(draft)
      ensures IsWhole(draft, r)
    {
    }
  }

  lemma MutualDraftIsFree(a: string, b: string, id: Option<string>, fallback: string, registers: bool)
    requires a != b && (registers ==> id == Some(a))
    ensures CollisionFree(MutualDraft(a, b, id, fallback), map[], registers)
  {
    MutualDraftIsHoisted(a, b, id, fallback);
    MutualDraftFacts(a, b, id, fallback);
    EmptyStoreIsFree(MutualDraft(a, b, id, fallback), registers);
  }

  /** An anonymous schema that is recursive only through another definition loses its root. */
  lemma AnonymousMutualRecursionDangles(a: string, b: string, fallback: string)
    requires a != b && fallback != a
    ensures var draft := MutualDraft(a, b, None, fallback);
            && WellEmitted(draft) && CollisionFree(draft, map[], draft.SchemaRegisters(map[]))
            && !NothingDangles(draft, map[], draft.SchemaRegisters(map[]))
  {
    var draft := MutualDraft(a, b, None, fallback);
    MutualDraftIsHoisted(a, b, None, fallback);
    MutualDraftFacts(a, b, None, fallback);
    MutualDraftIsFree(a, b, None, fallback, draft.SchemaRegisters(map[]));
    NothingDanglesIffLands(draft, map[], draft.SchemaRegisters(map[]));
  }

  /** A named one converts, and the same document read as parameters dangles. */
  lemma NamedMutualRecursion(a: string, b: string, fallback: string)
    requires a != b && fallback != a
    ensures var draft := MutualDraft(a, b, Some(a), fallback);
            && WellEmitted(draft)
            && CollisionFree(draft, map[], draft.SchemaRegisters(map[]))
            && CollisionFree(draft, map[], draft.SelfReferential())
            && NothingDangles(draft, map[], draft.SchemaRegisters(map[]))
            && !NothingDangles(draft, map[], draft.SelfReferential())
  {
    var draft := MutualDraft(a, b, Some(a), fallback);
    MutualDraftIsHoisted(a, b, Some(a), fallback);
    MutualDraftFacts(a, b, Some(a), fallback);
    MutualDraftIsFree(a, b, Some(a), fallback, draft.SchemaRegisters(map[]));
    MutualDraftIsFree(a, b, Some(a), fallback, draft.SelfReferential());
    assert "$ref" !in draft.Rest().fields by {
      assert |"items"| != |"$ref"|;
    }
    OrdinarySchemaLands(draft, map[]);
    NothingDanglesIffLands(draft, map[], draft.SchemaRegisters(map[]));
    NothingDanglesIffLands(draft, map[], draft.SelfReferential());
  }

  function HashDraft(key: string, fallback: string): Draft {
    Draft(ListOf(DEFS_PREFIX + key), map[key := ListOf("#")], None, fallback)
  }

  lemma HashDraftFacts(key: string, fallback: string)
    ensures var draft := HashDraft(key, fallback);
            && WellEmitted(draft) && draft.SelfHoisted().None? && !draft.SelfReferential()
            && draft.Kept() == {key} && "#" in LiveRefs(draft)
  {
    var draft := HashDraft(key, fallback);
    ListRefs(DEFS_PREFIX + key);
    ListRefs("#");
    ComponentRef(key);
    assert |"items"| != |"$ref"|;
    assert draft.SelfHoisted().None? && draft.Rest() == draft.root;
    assert "#" in CollectRefs(draft.defs[key]);
    HashDraftIsWhole(key, fallback);
  }

  lemma HashDraftIsWhole(key: string, fallback: string)
    ensures WellEmitted(HashDraft(key, fallback))
  {
    var draft := HashDraft(key, fallback);
    ListRefs(DEFS_PREFIX + key);
    ListRefs("#");
    RefsWithin(draft, {DEFS_PREFIX + key, "#"});
    DefinitionIsWhole(draft, key);
    ComponentRef(key);
    assert IsWhole(draft, "#");
    AllWhole(draft, {DEFS_PREFIX + key, "#"});
  }

  /** `#` inside a definition of an anonymous schema whose root does not use it has nowhere to point. */
  lemma AnonymousHashInDefinitionDangles(key: string, fallback: string)
    requires fallback != key
    ensures var draft := HashDraft(key, fallback);
            && WellEmitted(draft) && CollisionFree(draft, map[], draft.SchemaRegisters(map[]))
            && !NothingDangles(draft, map[], draft.SchemaRegisters(map[]))
  {
    var draft := HashDraft(key, fallback);
    HashDraftFacts(key, fallback);
    EmptyStoreIsFree(draft, draft.SchemaRegisters(map[]));
    NothingDanglesIffLands(draft, map[], draft.SchemaRegisters(map[]));
  }

  // ---------------------------------------------------------------------------
  // Two schemas, one name
  // ---------------------------------------------------------------------------

  function Typed(name: string): JsonSchema {
    Obj(map["type" := Str(name)])
  }

  lemma ReadsTyped(scope: Scope, name: string, depth: nat)
    ensures Reading(scope, Typed(name), depth) == Node(map["type" := Leaf(Str(name))])
  {
    assert |"type"| != |"title"|;
    assert "$ref" !in Typed(name).fields by {
      assert "type"[0] != "$ref"[0];
    }
    ReadsFields(scope, Typed(name), depth);
    assert Reading(scope, Str(name), depth) == Leaf(Str(name));
    assert Reading(scope, Typed(name), depth).children == map["type" := Leaf(Str(name))];
  }

  /**
   The answer of the second of two schemas claiming one name means exactly what the first means:
   it means the vendor's root if and only if that one does, in the store as it was before.
   */
  lemma SecondClaimIsTheFirst(draft: Draft, before: map<string, JsonSchema>)
    requires draft.SchemaRegisters(before) && draft.Name() in before
    ensures draft.SchemaAnswer(before) == RefTo(draft.Name())
    ensures var after := Components(draft.Stored(before, true));
            MeansAs(Vendor(draft), draft.root, after, draft.SchemaAnswer(before)) <==>
            MeansAs(Vendor(draft), draft.root, after, before[draft.Name()])
    ensures StoreClosed(before) ==>
              (MeansAs(Vendor(draft), draft.root, Components(draft.Stored(before, true)), draft.SchemaAnswer(before)) <==>
               MeansAs(Vendor(draft), draft.root, Components(before), before[draft.Name()]))
  {
    var after := Components(draft.Stored(before, true));
    ComponentRef(draft.Name());
    assert IsBare(RefTo(draft.Name())) && Resolve(after, COMPONENTS_PREFIX + draft.Name()) == Some(before[draft.Name()]);
    MeansAsTarget(Vendor(draft), draft.root, after, RefTo(draft.Name()));
    if StoreClosed(before) {
      FirstMeansAsBefore(draft, before);
    }
  }

  lemma FirstMeansAsBefore(draft: Draft, before: map<string, JsonSchema>)
    requires draft.Name() in before && StoreClosed(before)
    ensures MeansAs(Vendor(draft), draft.root, Components(draft.Stored(before, true)), before[draft.Name()]) <==>
            MeansAs(Vendor(draft), draft.root, Components(before), before[draft.Name()])
  {
    var first, after := before[draft.Name()], draft.Stored(before, true);
    forall e: nat
      ensures Unfold(Components(before), first, e) == Unfold(Components(after), first, e)
    {
      GrowthKeepsMeaning(before, after, first, e);
    }
    if MeansAs(Vendor(draft), draft.root, Components(after), first) {
      MeansAsUnfolded(Vendor(draft), draft.root, Components(after), first, Components(before), first);
    }
    if MeansAs(Vendor(draft), draft.root, Components(before), first) {
      MeansAsUnfolded(Vendor(draft), draft.root, Components(before), first, Components(after), first);
    }
  }

  lemma TypesDisagree(here: Scope, there: Scope)
    ensures !Agree(Either, Reading(here, Typed("string"), 0), Reading(there, Typed("number"), 0))
  {
    ReadsTyped(here, "string", 0);
    ReadsTyped(there, "number", 0);
    assert "string"[0] != "number"[0];
    DisagreesUnder(Reading(here, Typed("string"), 0), Reading(there, Typed("number"), 0), "type");
  }

  lemma NamedTypeFacts(name: string, fallback: string)
    ensures var draft, before := Draft(Typed("string"), map[], Some(name), fallback), map[name := Typed("number")];
            && draft.Rest() == Typed("string") && draft.WithDefs(before) == before
            && WellEmitted(draft) && draft.SchemaRegisters(before) && SameName(name) in draft.Warned(before, true)
  {
    var draft, before := Draft(Typed("string"), map[], Some(name), fallback), map[name := Typed("number")];
    TypedIsPlain("string", draft);
    assert draft.SelfHoisted().None? && draft.Rest() == Typed("string");
    assert draft.WithDefs(before) == before;
    TitledDiffer(name);
  }

  /** A string named as a number was: the call warns, and its answer means the number. */
  lemma SecondClaimChangesMeaning(name: string, fallback: string)
    ensures var draft, before := Draft(Typed("string"), map[], Some(name), fallback), map[name := Typed("number")];
            && WellEmitted(draft) && draft.SchemaRegisters(before)
            && SameName(name) in draft.Warned(before, true)
            && !MeansAs(Vendor(draft), draft.root, Components(draft.Stored(before, true)), draft.SchemaAnswer(before))
  {
    var draft, before := Draft(Typed("string"), map[], Some(name), fallback), map[name := Typed("number")];
    NamedTypeFacts(name, fallback);
    SecondClaimIsTheFirst(draft, before);
    TypesDisagree(Vendor(draft), Components(draft.Stored(before, true)));
  }

  lemma TypedIsPlain(name: string, draft: Draft)
    ensures CollectRefs(Typed(name)) == {} && "$ref" !in Typed(name).fields
    ensures draft.Rewritten(Typed(name)) == Typed(name)
  {
    assert "type"[0] != "$ref"[0];
    var rewritten := draft.Rewritten(Typed(name));
    assert rewritten.fields["type"] == RewriteRefs(Str(name), draft.Repoint) == Str(name);
    assert rewritten.fields == Typed(name).fields;
    assert CollectRefs(Str(name)) == {};
  }

  lemma TitledDiffer(name: string)
    ensures Typed("number") != TitledAs(name, Typed("string"))
  {
    assert |"type"| != |"title"|;
    assert TitledAs(name, Typed("string")).fields["type"] == Str("string");
    assert "string"[0] != "number"[0];
  }

  lemma TitledListFields(name: Option<string>, ref: string)
    ensures var titled := Titled(name, ListOf(ref)).fields;
            "$ref" !in titled && "items" in titled && titled["items"] == Bare(ref)
    ensures IsBare(Bare(ref))
  {
    assert |"items"| != |"$ref"| && |"title"| != |"$ref"| && "items"[0] != "title"[0];
  }

  /** A list reads as what its items refer to, one reference deeper. */
  lemma ReadsList(scope: Scope, name: Option<string>, ref: string, target: JsonSchema)
    requires Resolve(scope, ref) == Some(target)
    ensures var read := Reading(scope, Titled(name, ListOf(ref)), 1);
            && read.Node? && "items" in read.children
            && read.children["items"] == Reading(scope, target, 0)
  {
    var titled := Titled(name, ListOf(ref));
    TitledListFields(name, ref);
    ReadsFields(scope, titled, 1);
    assert ReadField(scope, "items", Bare(ref), 1) == Reading(scope, Bare(ref), 1);
    OneHopDeeper(scope, Bare(ref), 1);
  }

  lemma ListIsRepointed(draft: Draft, ref: string)
    ensures draft.Rewritten(ListOf(ref)) == ListOf(draft.Repoint(ref))
  {
    assert |"items"| != |"$ref"|;
    var rewritten := draft.Rewritten(ListOf(ref));
    assert rewritten.fields["items"] == RewriteRefs(Bare(ref), draft.Repoint);
    assert rewritten.fields["items"].fields == Bare(draft.Repoint(ref)).fields;
    assert rewritten.fields == ListOf(draft.Repoint(ref)).fields;
  }

  /** The one definition the store gains, beside the stranger it holds. */
  lemma StrangerStays(a: string, b: string, fallback: string)
    requires a != b
    ensures var draft, before := MutualDraft(a, b, Some(a), fallback), map[a := Typed("string")];
            draft.Stored(before, false) == before[b := Titled(Some(b), ListOf(COMPONENTS_PREFIX + a))]
  {
    var draft, before := MutualDraft(a, b, Some(a), fallback), map[a := Typed("string")];
    MutualDraftIsHoisted(a, b, Some(a), fallback);
    ComponentRef(a);
    ListIsRepointed(draft, DEFS_PREFIX + a);
    assert draft.Stored(before, false) == draft.With({b}, before);
  }

  /** A list of lists is not a list of strings. */
  lemma ListsDisagree(here: Scope, ref: string, inner: string, there: Scope, name: Option<string>, other: string)
    requires Resolve(here, ref) == Some(ListOf(inner)) && Resolve(there, other) == Some(Typed("string"))
    ensures !Agree(Either, Reading(here, ListOf(ref), 1), Reading(there, Titled(name, ListOf(other)), 1))
  {
    ReadsList(here, None, ref, ListOf(inner));
    ReadsList(there, name, other, Typed("string"));
    ListIsNoString(here, inner, there);
    var a, b := Reading(here, ListOf(ref), 1), Reading(there, Titled(name, ListOf(other)), 1);
    assert !Agree(Either, a.children["items"], b.children["items"]);
    DisagreesUnder(a, b, "items");
  }

  lemma ListIsNoString(here: Scope, ref: string, there: Scope)
    ensures !Agree(Either, Reading(here, ListOf(ref), 0), Reading(there, Typed("string"), 0))
  {
    ReadsTyped(there, "string", 0);
    ListHasItems(here, ref);
    assert "items"[0] != "type"[0] && "items"[0] != "title"[0];
    DisagreesAt(Reading(here, ListOf(ref), 0), Reading(there, Typed("string"), 0), "items");
  }

  lemma ListHasItems(scope: Scope, ref: string)
    ensures Reading(scope, ListOf(ref), 0).Node? && "items" in Reading(scope, ListOf(ref), 0).children
  {
    assert |"items"| != |"$ref"|;
    assert "$ref" !in ListOf(ref).fields;
    ReadsFields(scope, ListOf(ref), 0);
  }

  /**
   A named root read as parameters is skipped, so nothing compares it with what the store holds
   under its key: the call is silent, nothing dangles, and the definition that refers back to the
   root now refers to a stranger.
   */
  lemma SilentStranger(a: string, b: string, fallback: string)
    requires a != b
    ensures var draft, before := MutualDraft(a, b, Some(a), fallback), map[a := Typed("string")];
            var after := draft.Stored(before, false);
            && WellEmitted(draft) && !draft.SelfReferential()
            && draft.Warned(before, false) == {} && Lands(draft, before, false)
            && b in draft.Kept() && !MeansAs(Vendor(draft), draft.defs[b], Components(after), after[b])
  {
    var draft, before := MutualDraft(a, b, Some(a), fallback), map[a := Typed("string")];
    MutualDraftIsHoisted(a, b, Some(a), fallback);
    MutualDraftFacts(a, b, Some(a), fallback);
    ComponentRef(a);
    ComponentRef(b);
    StrangerStays(a, b, fallback);
    var after := draft.Stored(before, false);
    ListsDisagree(
      Vendor(draft), DEFS_PREFIX + a, DEFS_PREFIX + b, Components(after), Some(b), COMPONENTS_PREFIX + a);
    assert draft.Clashes(before, {b}) == {};
    assert !draft.SelfReferential() by {
      assert "#" !in CollectRefs(draft.Rest());
    }
  }

  // ---------------------------------------------------------------------------
  // Properties beside a reference
  // ---------------------------------------------------------------------------

  function HasProperty(name: string): JsonSchema {
    Obj(map["properties" := Obj(map[name := Obj(map[])])])
  }

  function BesideRef(key: string, p: string, q: string, fallback: string): Draft {
    Draft(Obj(HasProperty(p).fields["$ref" := Str(DEFS_PREFIX + key)]), map[key := HasProperty(q)], None, fallback)
  }

  lemma BesideRefFacts(key: string, p: string, q: string, fallback: string)
    ensures var draft := BesideRef(key, p, q, fallback);
            && draft.root.fields.Keys == {"$ref", "properties"}
            && draft.root.fields["$ref"] == Str(DEFS_PREFIX + key)
            && draft.root.fields["properties"] == HasProperty(p).fields["properties"]
            && CollectRefs(draft.root) == {DEFS_PREFIX + key}
            && CollectRefs(draft.defs[key]) == {}
  {
    assert |"properties"| != |"$ref"|;
    PropertyRefs(p);
    PropertyRefs(q);
  }

  lemma BesideRefLands(key: string, p: string, q: string, fallback: string)
    ensures var draft := BesideRef(key, p, q, fallback);
            && WellEmitted(draft) && draft.SelfHoisted().None? && !draft.SelfReferential()
            && CollisionFree(draft, map[], false) && Lands(draft, map[], false)
            && Resolve(Vendor(draft), DEFS_PREFIX + key) == Some(HasProperty(q))
  {
    var draft := BesideRef(key, p, q, fallback);
    BesideRefFacts(key, p, q, fallback);
    assert |"properties"| != |"$ref"|;
    assert |{"$ref", "properties"}| == 2;
    ComponentRef(key);
    RefsWithin(draft, {DEFS_PREFIX + key});
    EmptyStoreIsFree(draft, false);
  }

  /** A root with its own property `p` beside a reference to an object with `q`: only `q` becomes a parameter. */
  lemma OwnPropertyIsLost(key: string, p: string, q: string, fallback: string)
    ensures var draft := BesideRef(key, p, q, fallback);
            && WellEmitted(draft) && Lands(draft, map[], draft.SelfReferential())
            && draft.Warned(map[], draft.SelfReferential()) == {}
            && PropertyNames(draft.root) == {p} && PropertyNames(draft.ObjectRead(map[])) == {q}
  {
    var draft := BesideRef(key, p, q, fallback);
    BesideRefFacts(key, p, q, fallback);
    BesideRefLands(key, p, q, fallback);
    SilenceIff(draft, map[], false);
    PropertiesBesideARefAreLost(draft, map[]);
  }

  lemma PropertyRefs(name: string)
    ensures CollectRefs(HasProperty(name)) == {} && CollectRefs(HasProperty(name).fields["properties"]) == {}
  {
    assert |"properties"| != |"$ref"|;
    var properties := HasProperty(name).fields["properties"];
    assert forall k | k in properties.fields :: CollectRefs(properties.fields[k]) == {};
    assert CollectRefs(properties) == {};
  }

  // ---------------------------------------------------------------------------
  // A chain longer than the code follows
  // ---------------------------------------------------------------------------

  /** A root that refers to `a`, which refers to `b`, which refers to `c`, an object with a property. */
  function ChainDraft(a: string, b: string, c: string, p: string, fallback: string): Draft {
    Draft(
      Bare(DEFS_PREFIX + a),
      map[a := Bare(DEFS_PREFIX + b), b := Bare(DEFS_PREFIX + c), c := HasProperty(p)],
      None, fallback)
  }

  lemma ChainFacts(a: string, b: string, c: string, p: string, fallback: string)
    requires a != b && b != c && a != c
    ensures var draft := ChainDraft(a, b, c, p, fallback);
            && draft.SelfHoisted() == Some(a) && !draft.SelfReferential()
            && draft.Rest() == Bare(DEFS_PREFIX + b)
            && draft.defs[b] == Bare(DEFS_PREFIX + c) && draft.defs[c] == HasProperty(p)
            && !RefersBack(draft)
  {
    var draft := ChainDraft(a, b, c, p, fallback);
    BareIsHoisted(draft, a);
    ListRefs(DEFS_PREFIX + b);
    ComponentRef(b);
    DefinitionsApart(a, b);
    assert draft.Rest() == Bare(DEFS_PREFIX + b) && !draft.Cyclic();
    ChainNeverRefersBack(a, b, c, p, fallback);
  }

  lemma ChainNeverRefersBack(a: string, b: string, c: string, p: string, fallback: string)
    requires a != b && b != c && a != c
    ensures var draft := ChainDraft(a, b, c, p, fallback);
            forall k | k in draft.defs && k != a :: DEFS_PREFIX + a !in CollectRefs(draft.defs[k])
  {
    ListRefs(DEFS_PREFIX + c);
    PropertyRefs(p);
    DefinitionsApart(a, c);
  }

  lemma ChainRefs(a: string, b: string, c: string, p: string, fallback: string)
    ensures AllRefs(ChainDraft(a, b, c, p, fallback)) <= {DEFS_PREFIX + a, DEFS_PREFIX + b, DEFS_PREFIX + c}
  {
    var draft, allowed := ChainDraft(a, b, c, p, fallback), {DEFS_PREFIX + a, DEFS_PREFIX + b, DEFS_PREFIX + c};
    ListRefs(DEFS_PREFIX + a);
    ListRefs(DEFS_PREFIX + b);
    ListRefs(DEFS_PREFIX + c);
    PropertyRefs(p);
    forall k | k in draft.defs
      ensures CollectRefs(draft.defs[k]) <= allowed
    {
      assert draft.defs[k] in {Bare(DEFS_PREFIX + b), Bare(DEFS_PREFIX + c), HasProperty(p)};
    }
    RefsWithin(draft, allowed);
  }

  lemma ChainLands(a: string, b: string, c: string, p: string, fallback: string)
    requires a != b && b != c && a != c
    ensures var draft := ChainDraft(a, b, c, p, fallback);
            && WellEmitted(draft) && CollisionFree(draft, map[], false) && Lands(draft, map[], false)
  {
    var draft := ChainDraft(a, b, c, p, fallback);
    ChainFacts(a, b, c, p, fallback);
    ChainIsWhole(a, b, c, p, fallback);
    LiveIsEmitted(draft);
    EmptyStoreIsFree(draft, false);
  }

  lemma ChainIsWhole(a: string, b: string, c: string, p: string, fallback: string)
    ensures var draft := ChainDraft(a, b, c, p, fallback); WellEmitted(draft) && "#" !in AllRefs(draft)
  {
    var draft, allowed := ChainDraft(a, b, c, p, fallback), {DEFS_PREFIX + a, DEFS_PREFIX + b, DEFS_PREFIX + c};
    ChainRefs(a, b, c, p, fallback);
    DefinitionIsWhole(draft, a);
    DefinitionIsWhole(draft, b);
    DefinitionIsWhole(draft, c);
    AllWhole(draft, allowed);
  }

  lemma ChainHops(a: string, b: string, c: string, p: string, fallback: string)
    requires a != b && b != c && a != c
    ensures var draft := ChainDraft(a, b, c, p, fallback);
            && Hop(Vendor(draft), draft.root) == Bare(DEFS_PREFIX + b)
            && VendorObject(draft) == Bare(DEFS_PREFIX + c)
            && Hop(Vendor(draft), VendorObject(draft)) == HasProperty(p)
            && PlainReferences(draft) && !EndsInTime(draft)
  {
    var draft := ChainDraft(a, b, c, p, fallback);
    HopOf(draft, a, Bare(DEFS_PREFIX + b));
    HopOf(draft, b, Bare(DEFS_PREFIX + c));
    HopOf(draft, c, HasProperty(p));
    assert |"properties"| != |"$ref"|;
  }

  lemma HopOf(draft: Draft, key: string, target: JsonSchema)
    requires key in draft.defs && draft.defs[key] == target
    ensures IsBare(Bare(DEFS_PREFIX + key)) && Hop(Vendor(draft), Bare(DEFS_PREFIX + key)) == target
    ensures Resolve(Vendor(draft), DEFS_PREFIX + key).Some?
  {
    ComponentRef(key);
  }

  /** The root leads to an object with a property, and no parameter is read. */
  lemma ChainIsTooLong(a: string, b: string, c: string, p: string, fallback: string)
    requires a != b && b != c && a != c
    ensures var draft := ChainDraft(a, b, c, p, fallback);
            && WellEmitted(draft) && Lands(draft, map[], draft.SelfReferential())
            && Hop(Vendor(draft), VendorObject(draft)) == HasProperty(p)
            && HasProperties(HasProperty(p)) && !HasProperties(draft.ObjectRead(map[]))
  {
    ChainFacts(a, b, c, p, fallback);
    ChainLands(a, b, c, p, fallback);
    ChainHops(a, b, c, p, fallback);
    LongerChainReadsNothing(ChainDraft(a, b, c, p, fallback), map[]);
  }
}
