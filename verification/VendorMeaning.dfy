/**
 What `convert.ts` promises of the document the vendor emitted, as it stands: its root means, in
 the component store, what it meant there.
 */
module VendorMeaning {
  import opened Prelude
  import opened Refs
  import opened Meaning
  import opened Convert
  import opened ConvertMeaning

  /** The emitted document, its root untouched. */
  function Vendor(draft: Draft): Scope {
    Verbatim(draft.root, draft.defs)
  }

  function Titled(name: Option<string>, value: Json): Json
    requires name.Some? ==> value.Obj?
  {
    if name.Some? then TitledAs(name.value, value) else value
  }

  // ---------------------------------------------------------------------------
  // The document and the document with its root followed once
  // ---------------------------------------------------------------------------

  ghost function Named(draft: Draft): set<string> {
    AllRefs(draft) + {"#"}
  }

  lemma TitledKeepsRefs(name: Option<string>, value: Json)
    requires name.Some? ==> value.Obj?
    ensures CollectRefs(Titled(name, value)) == CollectRefs(value)
  {
    if name.Some? {
      TitleKeepsRefs(name.value, value);
    }
  }

  /** A root followed once was nothing but a reference to a definition. */
  lemma HoistIsHop(draft: Draft)
    ensures draft.SelfHoisted().None? ==> draft.Rest() == draft.root
    ensures draft.SelfHoisted().Some? ==>
              && draft.SelfHoisted().value in draft.defs && draft.Rest() == draft.defs[draft.SelfHoisted().value]
              && IsBare(draft.root) && draft.root.fields["$ref"].s == DEFS_PREFIX + draft.SelfHoisted().value
  {
    if draft.SelfHoisted().Some? {
      var fields := draft.root.fields;
      assert fields.Keys == {"$ref"} by {
        SmallerSet({"$ref"}, fields.Keys);
      }
    }
  }

  /** Both scopes resolve the same references: a definition to itself under a title, `#` to the root or what it hops to. */
  lemma ResolvesAlike(draft: Draft, ref: string)
    ensures Resolve(Vendor(draft), ref).Some? <==> Resolve(Source(draft), ref).Some?
    ensures ref != "#" && Resolve(Vendor(draft), ref).Some? ==>
              Resolve(Source(draft), ref).value ==
              TitledAs(After(DEFS_PREFIX, ref).value, Resolve(Vendor(draft), ref).value)
    ensures Resolve(Vendor(draft), "#") == Some(draft.root)
    ensures Resolve(Source(draft), "#") == Some(TitledAs(draft.Name(), draft.Rest()))
  {
  }

  /** A reference that resolves stays among `refs`; one that does not is none of a component's. */
  ghost predicate IsWholeUnder(draft: Draft, refs: set<string>, ref: string) {
    match Resolve(Vendor(draft), ref)
    case None => After(COMPONENTS_PREFIX, ref).None?
    case Some(schema) => CollectRefs(schema) <= refs
  }

  ghost predicate WholeUnder(draft: Draft, refs: set<string>) {
    CollectRefs(draft.Rest()) <= refs && forall r | r in refs :: IsWholeUnder(draft, refs, r)
  }

  lemma NamedIsWhole(draft: Draft)
    requires WellEmitted(draft)
    ensures WholeUnder(draft, Named(draft))
  {
    forall r | r in Named(draft)
      ensures IsWholeUnder(draft, Named(draft), r)
    {
      NamedRefStays(draft, r);
    }
  }

  lemma NamedRefStays(draft: Draft, ref: string)
    requires WellEmitted(draft) && ref in Named(draft)
    ensures IsWholeUnder(draft, Named(draft), ref)
  {
  }

  lemma {:induction false} NeverDangles(draft: Draft, refs: set<string>, name: Option<string>, value: Json, depth: nat)
    requires WholeUnder(draft, refs) && CollectRefs(value) <= refs && (name.Some? ==> value.Obj?)
    ensures !Dangles(Reading(Source(draft), Titled(name, value), depth))
    decreases depth, 1
  {
    var titled := Titled(name, value);
    if IsBare(titled) {
      ReadsBare(Source(draft), titled, depth);
      TitledKeepsRefs(name, value);
      RefNeverDangles(draft, refs, titled.fields["$ref"].s, depth);
    } else {
      ReadsNoReference(Source(draft), titled, depth);
    }
  }

  lemma ReadsNoReference(scope: Scope, value: Json, depth: nat)
    requires !IsBare(value)
    ensures !Reading(scope, value, depth).Unresolved?
  {
    match value
    case Arr(items) => ReadsItems(scope, items, depth);
    case Obj(_) => ReadsFields(scope, value, depth);
    case _ =>
  }

  lemma {:induction false} RefNeverDangles(draft: Draft, refs: set<string>, ref: string, depth: nat)
    requires WholeUnder(draft, refs) && ref in refs
    ensures !Dangles(ReadRef(Source(draft), ref, depth))
    decreases depth, 0
  {
    ReadsTarget(Source(draft), ref, depth);
    ResolvesAlike(draft, ref);
    assert IsWholeUnder(draft, refs, ref);
    if Resolve(Source(draft), ref).Some? && depth > 0 {
      if ref == "#" {
        NeverDangles(draft, refs, Some(draft.Name()), draft.Rest(), depth - 1);
      } else {
        NeverDangles(draft, refs, After(DEFS_PREFIX, ref), Resolve(Vendor(draft), ref).value, depth - 1);
      }
    }
  }

  lemma TitledIsBareToo(name: Option<string>, value: Json)
    requires name.Some? ==> value.Obj?
    ensures IsBare(Titled(name, value)) <==> IsBare(value)
    ensures IsBare(value) ==> Titled(name, value).fields["$ref"] == value.fields["$ref"]
  {
    if name.Some? {
      var titled := TitledAs(name.value, value);
      assert |"$ref"| != |"title"|;
      assert forall k | k in value.fields :: k in titled.fields && titled.fields[k] == value.fields[k];
      assert forall k | k in titled.fields && k !in value.fields :: k == "title" && titled.fields[k].Str?;
    }
  }

  /** A reference costs as much on both sides, but a `#` up to twice as much in the document. */
  predicate DeepEnough(side: Side, d: nat, e: nat) {
    match side
    case Either => true
    case Here => d <= e
    case There => d >= 2 * e
  }

  /** The same, with the hop of the root still to come. */
  predicate HopDeepEnough(side: Side, d: nat, e: nat) {
    if side.There? then d >= 2 * e + 1 else DeepEnough(side, d, e)
  }

  /** A value agrees with itself, titled or not, read in the document and with the root followed once. */
  lemma {:induction false} ReadsAlike(
    side: Side, draft: Draft, refs: set<string>, name: Option<string>, value: Json, d: nat, e: nat)
    requires WholeUnder(draft, refs) && CollectRefs(value) <= refs && (name.Some? ==> value.Obj?)
    requires DeepEnough(side, d, e)
    ensures Agree(side, Reading(Vendor(draft), value, d), Reading(Source(draft), Titled(name, value), e))
    decreases d + e, 1, value
  {
    match value
    case Arr(items) =>
      ReadsItems(Vendor(draft), items, d);
      ReadsItems(Source(draft), items, e);
      forall i | 0 <= i < |items|
        ensures Agree(side, Reading(Vendor(draft), items[i], d), Reading(Source(draft), items[i], e))
      {
        ItemRefs(items, i);
        ReadsAlike(side, draft, refs, None, items[i], d, e);
      }
    case Obj(fields) =>
      TitledIsBareToo(name, value);
      if IsBare(value) {
        FieldRefs(fields, "$ref");
        ReadsBare(Vendor(draft), value, d);
        ReadsBare(Source(draft), Titled(name, value), e);
        RefsReadAlike(side, draft, refs, fields["$ref"].s, d, e);
      } else {
        forall k | k in fields
          ensures Agree(side, ReadField(Vendor(draft), k, fields[k], d), ReadField(Source(draft), k, fields[k], e))
        {
          FieldRefs(fields, k);
          if IsRef(k, fields[k]) {
            RefsReadAlike(side, draft, refs, fields[k].s, d, e);
          } else {
            ReadsAlike(side, draft, refs, None, fields[k], d, e);
          }
        }
        FieldsAgree(side, Vendor(draft), value, d, Source(draft), name, value, e);
      }
    case _ =>
  }

  /** Two objects agree that have, but for an added title, the same keys and agree under each. */
  lemma FieldsAgree(side: Side, here: Scope, value: Json, d: nat, there: Scope, name: Option<string>, other: Json, e: nat)
    requires value.Obj? && other.Obj? && !IsBare(value) && !IsBare(Titled(name, other))
    requires value.fields.Keys == other.fields.Keys
    requires forall k | k in value.fields ::
               Agree(side, ReadField(here, k, value.fields[k], d), ReadField(there, k, other.fields[k], e))
    ensures Agree(side, Reading(here, value, d), Reading(there, Titled(name, other), e))
  {
    var titled := Titled(name, other);
    TitledFields(name, other);
    var a := map k | k in value.fields :: ReadField(here, k, value.fields[k], d);
    var b := map k | k in titled.fields :: ReadField(there, k, titled.fields[k], e);
    forall k | k in b && k !in a
      ensures IsTitle(k, b[k])
    {
      ReadsTitle(there, titled.fields[k], e);
    }
    assert Agree(side, Node(a), Node(b));
    ReadsFields(here, value, d);
    ReadsFields(there, titled, e);
  }

  lemma TitledFields(name: Option<string>, value: Json)
    requires value.Obj?
    ensures var titled := Titled(name, value).fields;
            && (forall k | k in value.fields :: k in titled && titled[k] == value.fields[k])
            && (forall k | k in titled && k !in value.fields :: k == "title" && titled[k].Str?)
  {
  }

  lemma ReadsTitle(scope: Scope, title: Json, depth: nat)
    requires title.Str?
    ensures IsTitle("title", ReadField(scope, "title", title, depth))
  {
    assert |"$ref"| != |"title"|;
  }

  lemma {:induction false} RefsReadAlike(side: Side, draft: Draft, refs: set<string>, ref: string, d: nat, e: nat)
    requires WholeUnder(draft, refs) && ref in refs && DeepEnough(side, d, e)
    ensures Agree(side, ReadRef(Vendor(draft), ref, d), ReadRef(Source(draft), ref, e))
    decreases d + e, 0
  {
    ResolvesAlike(draft, ref);
    if Resolve(Vendor(draft), ref).None? {
      ReadsTarget(Vendor(draft), ref, d);
      ReadsTarget(Source(draft), ref, e);
    } else if d == 0 {
      ReadsTarget(Vendor(draft), ref, d);
      RefNeverDangles(draft, refs, ref, e);
    } else if e == 0 {
      ReadsTarget(Source(draft), ref, e);
      AgreesWithCut(side, ReadRef(Vendor(draft), ref, d));
    } else {
      TargetsReadAlike(side, draft, refs, ref, d, e);
    }
  }

  lemma {:induction false} TargetsReadAlike(side: Side, draft: Draft, refs: set<string>, ref: string, d: nat, e: nat)
    requires WholeUnder(draft, refs) && ref in refs && Resolve(Vendor(draft), ref).Some? && d > 0 && e > 0
    requires DeepEnough(side, d, e)
    ensures Agree(side, ReadRef(Vendor(draft), ref, d), ReadRef(Source(draft), ref, e))
    decreases d + e - 1
  {
    ResolvesAlike(draft, ref);
    ReadsThrough(Vendor(draft), ref, d);
    ReadsThrough(Source(draft), ref, e);
    if ref == "#" {
      RootReadsAlike(side, draft, refs, Some(draft.Name()), d - 1, e - 1);
    } else {
      assert IsWholeUnder(draft, refs, ref);
      ReadsAlike(side, draft, refs, After(DEFS_PREFIX, ref), Resolve(Vendor(draft), ref).value, d - 1, e - 1);
    }
  }

  /** The emitted root agrees with what it is followed to. */
  lemma {:induction false} RootReadsAlike(side: Side, draft: Draft, refs: set<string>, name: Option<string>, d: nat, e: nat)
    requires WholeUnder(draft, refs) && HopDeepEnough(side, d, e)
    ensures Agree(side, Reading(Vendor(draft), draft.root, d), Reading(Source(draft), Titled(name, draft.Rest()), e))
    decreases d + e, 2
  {
    if draft.SelfHoisted().None? {
      HoistIsHop(draft);
      ReadsAlike(side, draft, refs, name, draft.root, d, e);
    } else {
      RootReadsHoisted(draft, d);
      if d == 0 {
        NeverDangles(draft, refs, name, draft.Rest(), e);
      } else {
        ReadsAlike(side, draft, refs, name, draft.Rest(), d - 1, e);
      }
    }
  }

  lemma RootReadsHoisted(draft: Draft, depth: nat)
    requires draft.SelfHoisted().Some?
    ensures Reading(Vendor(draft), draft.root, depth) ==
            if depth == 0 then Cut else Reading(Vendor(draft), draft.Rest(), depth - 1)
  {
    HoistIsHop(draft);
    ComponentRef(draft.SelfHoisted().value);
    OneHopDeeper(Vendor(draft), draft.root, depth);
  }

  /** Readings that agree whenever both go deep enough mean the same. */
  lemma MeansAsByDepth(here: Scope, value: Json, there: Scope, other: Json)
    requires forall side: Side, d: nat, e: nat | HopDeepEnough(side, d, e) ::
               Agree(side, Reading(here, value, d), Reading(there, other, e))
    ensures MeansAs(here, value, there, other)
  {
    forall d: nat
      ensures ShownThere(here, value, there, other, d)
    {
      assert Agree(Here, Reading(here, value, d), Reading(there, other, d));
    }
    forall e: nat
      ensures ShownHere(here, value, there, other, e)
    {
      assert Agree(There, Reading(here, value, 2 * e + 1), Reading(there, other, e));
    }
  }

  lemma RootMeansTitled(draft: Draft, name: Option<string>)
    requires WellEmitted(draft)
    ensures MeansAs(Vendor(draft), draft.root, Source(draft), Titled(name, draft.Rest()))
  {
    NamedIsWhole(draft);
    forall side: Side, d: nat, e: nat | HopDeepEnough(side, d, e)
      ensures Agree(side, Reading(Vendor(draft), draft.root, d), Reading(Source(draft), Titled(name, draft.Rest()), e))
    {
      RootReadsAlike(side, draft, Named(draft), name, d, e);
    }
    MeansAsByDepth(Vendor(draft), draft.root, Source(draft), Titled(name, draft.Rest()));
  }

  lemma RootMeansRest(draft: Draft)
    requires WellEmitted(draft)
    ensures MeansAs(Vendor(draft), draft.root, Source(draft), draft.Rest())
    ensures MeansAs(Vendor(draft), draft.root, Source(draft), ROOT_REF)
  {
    RootMeansTitled(draft, None);
    RootMeansTitled(draft, Some(draft.Name()));
    ResolvesAlike(draft, "#");
    assert IsBare(ROOT_REF);
    MeansAsTarget(Vendor(draft), draft.root, Source(draft), ROOT_REF);
  }

  lemma ValueMeansTitled(draft: Draft, name: Option<string>, value: Json)
    requires WellEmitted(draft) && CollectRefs(value) <= Named(draft) && (name.Some? ==> value.Obj?)
    ensures MeansAs(Vendor(draft), value, Source(draft), Titled(name, value))
  {
    NamedIsWhole(draft);
    forall side: Side, d: nat, e: nat | HopDeepEnough(side, d, e)
      ensures Agree(side, Reading(Vendor(draft), value, d), Reading(Source(draft), Titled(name, value), e))
    {
      ReadsAlike(side, draft, Named(draft), name, value, d, e);
    }
    MeansAsByDepth(Vendor(draft), value, Source(draft), Titled(name, value));
  }

  lemma DefMeansTitled(draft: Draft, key: string)
    requires WellEmitted(draft) && key in draft.defs
    ensures MeansAs(Vendor(draft), draft.defs[key], Source(draft), TitledAs(key, draft.defs[key]))
  {
    assert forall r | r in CollectRefs(draft.defs[key]) :: r in Named(draft);
    ValueMeansTitled(draft, Some(key), draft.defs[key]);
  }

  // ---------------------------------------------------------------------------
  // Meaning is kept exactly when the guards hold
  // ---------------------------------------------------------------------------

  /** The root, its component if it registers one, and every kept definition mean what the vendor's do. */
  ghost predicate MeaningKept(draft: Draft, before: map<string, JsonSchema>, registers: bool) {
    var after := draft.Stored(before, registers);
    && MeansAs(Vendor(draft), draft.root, Components(after), draft.Rewritten(draft.Rest()))
    && (registers ==> MeansAs(Vendor(draft), draft.root, Components(after), RefTo(draft.Name())))
    && forall k | k in draft.Kept() :: MeansAs(Vendor(draft), draft.defs[k], Components(after), after[k])
  }

  lemma RootIsKept(draft: Draft, before: map<string, JsonSchema>, registers: bool)
    requires WellEmitted(draft) && CollisionFree(draft, before, registers) && Lands(draft, before, registers)
    ensures MeansAs(
              Vendor(draft), draft.root, Components(draft.Stored(before, registers)), draft.Rewritten(draft.Rest()))
    ensures registers ==>
              MeansAs(Vendor(draft), draft.root, Components(draft.Stored(before, registers)), RefTo(draft.Name()))
  {
    var after := Components(draft.Stored(before, registers));
    RootMeansRest(draft);
    forall e: nat {
      RestKeepsMeaning(draft, before, registers, e);
    }
    MeansAsUnfolded(Vendor(draft), draft.root, Source(draft), draft.Rest(), after, draft.Rewritten(draft.Rest()));
    if registers {
      forall e: nat {
        NameKeepsMeaning(draft, before, e);
      }
      MeansAsUnfolded(Vendor(draft), draft.root, Source(draft), ROOT_REF, after, RefTo(draft.Name()));
    }
  }

  lemma DefinitionIsKept(draft: Draft, before: map<string, JsonSchema>, registers: bool, k: string)
    requires WellEmitted(draft) && CollisionFree(draft, before, registers) && Lands(draft, before, registers)
    requires k in draft.Kept()
    ensures k in draft.Stored(before, registers)
    ensures MeansAs(
              Vendor(draft), draft.defs[k], Components(draft.Stored(before, registers)),
              draft.Stored(before, registers)[k])
  {
    DefMeansTitled(draft, k);
    forall e: nat {
      KeptKeepsMeaning(draft, before, registers, k, e);
    }
    MeansAsUnfolded(
      Vendor(draft), draft.defs[k], Source(draft), TitledAs(k, draft.defs[k]),
      Components(draft.Stored(before, registers)), draft.Stored(before, registers)[k]);
  }

  /** `ref` resolves at the vendor, and what it is repointed at is no component of the store. */
  ghost predicate IsLost(draft: Draft, after: Scope, ref: string) {
    && Resolve(Vendor(draft), ref).Some?
    && After(COMPONENTS_PREFIX, draft.Repoint(ref)).Some? && Resolve(after, draft.Repoint(ref)).None?
  }

  lemma BareIsRewrittenBare(name: Option<string>, value: Json, repoint: string -> string)
    requires name.Some? ==> value.Obj?
    ensures IsBare(Titled(name, RewriteRefs(value, repoint))) <==> IsBare(value)
    ensures IsBare(value) ==>
              Titled(name, RewriteRefs(value, repoint)).fields["$ref"] == Str(repoint(value.fields["$ref"].s))
  {
    if value.Obj? {
      var titled := Titled(name, RewriteRefs(value, repoint));
      assert |"$ref"| != |"title"|;
      assert forall k | k in value.fields :: k in titled.fields && (titled.fields[k].Str? <==> value.fields[k].Str?);
      assert forall k | k in titled.fields && k !in value.fields :: k == "title" && titled.fields[k].Str?;
    }
  }

  lemma LostDisagrees(draft: Draft, after: Scope, ref: string)
    requires IsLost(draft, after, ref)
    ensures !Agree(Either, ReadRef(Vendor(draft), ref, 0), ReadRef(after, draft.Repoint(ref), 0))
  {
    ReadsTarget(Vendor(draft), ref, 0);
    ReadsTarget(after, draft.Repoint(ref), 0);
  }

  /** A value that holds a lost reference is contradicted as soon as it is read. */
  lemma {:induction false} LostContradicts(draft: Draft, after: Scope, name: Option<string>, value: Json, ref: string)
    requires IsLost(draft, after, ref) && ref in CollectRefs(value) && (name.Some? ==> value.Obj?)
    ensures !Agree(
              Either,
              Reading(Vendor(draft), value, 0),
              Reading(after, Titled(name, RewriteRefs(value, draft.Repoint)), 0))
    decreases value
  {
    var other := Titled(name, RewriteRefs(value, draft.Repoint));
    match value
    case Arr(items) =>
      var i :| 0 <= i < |items| && ref in CollectRefs(items[i]);
      LostContradicts(draft, after, None, items[i], ref);
      ReadsItems(Vendor(draft), items, 0);
      ReadsItems(after, other.items, 0);
      var a, b := Reading(Vendor(draft), value, 0), Reading(after, other, 0);
      assert !Agree(Either, a.items[i], b.items[i]);
    case Obj(fields) =>
      BareIsRewrittenBare(name, value, draft.Repoint);
      if IsBare(value) {
        ReadsBare(Vendor(draft), value, 0);
        ReadsBare(after, other, 0);
        BareRefs(value);
        LostDisagrees(draft, after, ref);
      } else {
        var k := LostUnder(draft, after, fields, ref);
        FieldContradicts(Vendor(draft), value, after, name, RewriteRefs(value, draft.Repoint), k);
      }
    case _ =>
  }

  lemma BareRefs(value: Json)
    requires IsBare(value)
    ensures CollectRefs(value) == {value.fields["$ref"].s}
  {
    assert forall k | k in value.fields && !IsRef(k, value.fields[k]) :: CollectRefs(value.fields[k]) == {};
  }

  /** The key the lost reference stands under. */
  lemma {:induction false} LostUnder(draft: Draft, after: Scope, fields: map<string, Json>, ref: string) returns (k: string)
    requires IsLost(draft, after, ref) && ref in CollectRefs(Obj(fields))
    ensures k in fields
    ensures !Agree(
              Either,
              ReadField(Vendor(draft), k, fields[k], 0),
              ReadField(after, k, RewriteRefs(Obj(fields), draft.Repoint).fields[k], 0))
    decreases Obj(fields), 0
  {
    if "$ref" in fields && fields["$ref"].Str? && fields["$ref"].s == ref {
      k := "$ref";
      LostDisagrees(draft, after, ref);
    } else {
      k :| k in fields && !IsRef(k, fields[k]) && ref in CollectRefs(fields[k]);
      LostContradicts(draft, after, None, fields[k], ref);
    }
  }

  /** Two objects disagree that disagree under one key. */
  lemma FieldContradicts(here: Scope, value: Json, there: Scope, name: Option<string>, other: Json, k: string)
    requires value.Obj? && other.Obj? && !IsBare(value) && !IsBare(Titled(name, other))
    requires k in value.fields && k in other.fields
    requires !Agree(Either, ReadField(here, k, value.fields[k], 0), ReadField(there, k, other.fields[k], 0))
    ensures !Agree(Either, Reading(here, value, 0), Reading(there, Titled(name, other), 0))
  {
    ReadsFields(here, value, 0);
    ReadsFields(there, Titled(name, other), 0);
    var a, b := Reading(here, value, 0), Reading(there, Titled(name, other), 0);
    DisagreesUnder(a, b, k);
  }

  lemma LostInDefinition(draft: Draft, after: Scope, k: string, ref: string)
    requires IsLost(draft, after, ref) && k in draft.defs && ref in CollectRefs(draft.defs[k])
    ensures !MeansAs(Vendor(draft), draft.defs[k], after, TitledAs(k, draft.Rewritten(draft.defs[k])))
  {
    LostContradicts(draft, after, Some(k), draft.defs[k], ref);
  }

  lemma LostInRoot(draft: Draft, after: Scope, ref: string)
    requires IsLost(draft, after, ref) && ref in CollectRefs(draft.Rest())
    ensures !MeansAs(Vendor(draft), draft.root, after, draft.Rewritten(draft.Rest()))
  {
    var d := RootReadsRest(draft);
    LostContradicts(draft, after, None, draft.Rest(), ref);
    assert !Agree(Either, Reading(Vendor(draft), draft.root, d), Reading(after, draft.Rewritten(draft.Rest()), 0));
  }

  /** At some depth the emitted root reads as what it is followed to does at none. */
  lemma RootReadsRest(draft: Draft) returns (d: nat)
    ensures Reading(Vendor(draft), draft.root, d) == Reading(Vendor(draft), draft.Rest(), 0)
  {
    HoistIsHop(draft);
    if draft.SelfHoisted().Some? {
      RootReadsHoisted(draft, 1);
      d := 1;
    } else {
      d := 0;
    }
  }

  lemma LostIsNotKept(draft: Draft, before: map<string, JsonSchema>, registers: bool, ref: string)
    requires CollisionFree(draft, before, registers) && ref in LiveRefs(draft)
    requires IsLost(draft, Components(draft.Stored(before, registers)), ref)
    ensures !MeaningKept(draft, before, registers)
  {
    var after := Components(draft.Stored(before, registers));
    if ref in CollectRefs(draft.Rest()) {
      LostInRoot(draft, after, ref);
    } else {
      var k :| k in draft.Kept() && ref in CollectRefs(draft.defs[k]);
      StoredDef(draft, before, registers, k);
      LostInDefinition(draft, after, k, ref);
    }
  }

  lemma UnlandedIsNotKept(draft: Draft, before: map<string, JsonSchema>, registers: bool)
    requires CollisionFree(draft, before, registers) && !Lands(draft, before, registers)
    ensures !MeaningKept(draft, before, registers)
  {
    if "#" in LiveRefs(draft) && !(registers || draft.Name() in before || draft.Name() in draft.Kept()) {
      ComponentRef(draft.Name());
      LostIsNotKept(draft, before, registers, "#");
    } else {
      var key := draft.SelfHoisted().value;
      ComponentRef(key);
      StoredDef(draft, before, registers, key);
      LostIsNotKept(draft, before, registers, DEFS_PREFIX + key);
    }
  }

  /** What a call leaves means what the vendor's document means if and only if the two guards hold. */
  lemma MeaningIffLands(draft: Draft, before: map<string, JsonSchema>, registers: bool)
    requires WellEmitted(draft) && CollisionFree(draft, before, registers)
    ensures MeaningKept(draft, before, registers) <==> Lands(draft, before, registers)
  {
    if Lands(draft, before, registers) {
      RootIsKept(draft, before, registers);
      forall k | k in draft.Kept() {
        DefinitionIsKept(draft, before, registers, k);
      }
    } else {
      UnlandedIsNotKept(draft, before, registers);
    }
  }

  /** A silent call keeps meaning, where the two names it does not look at are free. */
  lemma SilentCallKeepsMeaning(draft: Draft, before: map<string, JsonSchema>, registers: bool)
    requires WellEmitted(draft) && Lands(draft, before, registers)
    requires draft.Warned(before, registers) == {} && SkippedIsFree(draft, before)
    requires !registers && "#" in LiveRefs(draft) ==> NameIsFree(draft, before)
    ensures MeaningKept(draft, before, registers)
  {
    SilenceIff(draft, before, registers);
    MeaningIffLands(draft, before, registers);
  }

  /** The answer of `convertSchema`, a reference or the schema inlined, means what the emitted root means. */
  lemma SchemaAnswerMeaning(draft: Draft, before: map<string, JsonSchema>)
    requires WellEmitted(draft) && CollisionFree(draft, before, draft.SchemaRegisters(before))
    requires Lands(draft, before, draft.SchemaRegisters(before))
    ensures MeansAs(
              Vendor(draft), draft.root,
              Components(draft.Stored(before, draft.SchemaRegisters(before))), draft.SchemaAnswer(before))
  {
    RootIsKept(draft, before, draft.SchemaRegisters(before));
  }

  // ---------------------------------------------------------------------------
  // convertObject
  // ---------------------------------------------------------------------------

  /** A reference stands alone, but for a title. */
  predicate NoSiblings(schema: JsonSchema) {
    "$ref" in schema.fields && schema.fields["$ref"].Str? ==> IsBare(schema)
  }

  /** What a schema that is nothing but a reference points at; any other schema is itself. */
  function Hop(scope: Scope, schema: JsonSchema): JsonSchema {
    if IsBare(schema) then Resolve(scope, schema.fields["$ref"].s).GetOr(schema) else schema
  }

  /** The chain of bare references ends here. */
  predicate Ends(scope: Scope, schema: JsonSchema) {
    !IsBare(schema) || Resolve(scope, schema.fields["$ref"].s).None?
  }

  /** The emitted object the parameters are to come from. */
  function VendorObject(draft: Draft): JsonSchema {
    Hop(Vendor(draft), Hop(Vendor(draft), draft.root))
  }

  /** One reference is followed, or two when the root is a reference to a definition and nothing else. */
  predicate EndsInTime(draft: Draft) {
    || Ends(Vendor(draft), Hop(Vendor(draft), draft.root))
    || (IsBare(draft.root) && |draft.root.fields| == 1 && After(DEFS_PREFIX, draft.root.fields["$ref"].s).Some? &&
        Ends(Vendor(draft), VendorObject(draft)))
  }

  predicate PlainReferences(draft: Draft) {
    NoSiblings(draft.root) && NoSiblings(Hop(Vendor(draft), draft.root))
  }

  /** The schema a string `$ref` is followed to, whatever stands beside it. */
  function Followed(scope: Scope, schema: JsonSchema): JsonSchema {
    if "$ref" in schema.fields && schema.fields["$ref"].Str? then
      Resolve(scope, schema.fields["$ref"].s).GetOr(schema)
    else
      schema
  }

  /** The object the code reads the parameters from, before it is repointed. */
  function SourceObject(draft: Draft): JsonSchema {
    Followed(Source(draft), draft.Rest())
  }

  lemma ObjectReadIsRewritten(draft: Draft, before: map<string, JsonSchema>)
    requires WellEmitted(draft) && CollisionFree(draft, before, draft.SelfReferential())
    requires Lands(draft, before, draft.SelfReferential())
    ensures draft.ObjectRead(before) == draft.Rewritten(SourceObject(draft))
    ensures CollectRefs(SourceObject(draft)) <= LiveRefs(draft)
  {
    var rest := draft.Rest();
    if "$ref" in rest.fields && rest.fields["$ref"].Str? {
      var ref := rest.fields["$ref"].s;
      FieldRefs(rest.fields, "$ref");
      assert ref in LiveRefs(draft);
      LiveRefIsLinked(draft, before, draft.SelfReferential(), ref);
      LiveRefsAreClosed(draft);
    }
  }

  /** One hop of the code from a schema of the document is a hop in the document, but for a title. */
  lemma HopIsTitled(draft: Draft, schema: JsonSchema) returns (name: Option<string>)
    requires NoSiblings(schema) && (IsBare(schema) ==> schema.fields["$ref"].s != "#")
    ensures Followed(Source(draft), schema) == Titled(name, Hop(Vendor(draft), schema))
  {
    name := None;
    if IsBare(schema) {
      var ref := schema.fields["$ref"].s;
      ResolvesAlike(draft, ref);
      if Resolve(Vendor(draft), ref).Some? {
        name := After(DEFS_PREFIX, ref);
      }
    }
  }

  /** If the chain of references ends in time the code reads the emitted object, but for a title. */
  lemma SourceIsVendors(draft: Draft) returns (name: Option<string>)
    requires PlainReferences(draft) && EndsInTime(draft)
    ensures SourceObject(draft) == Titled(name, VendorObject(draft))
  {
    HoistIsHop(draft);
    var once := Hop(Vendor(draft), draft.root);
    ResolvesAlike(draft, "#");
    if draft.SelfHoisted().Some? {
      ComponentRef(draft.SelfHoisted().value);
      assert once == draft.Rest();
      name := HopIsTitled(draft, once);
    } else {
      assert Ends(Vendor(draft), once);
      assert VendorObject(draft) == once;
      name := HopIsTitled(draft, draft.root);
    }
  }

  /** Strings are no references: repointing the entries leaves them where they are. */
  lemma StringsAreUntouched(names: seq<string>, entries: seq<Json>, rewritten: seq<Json>, repoint: string -> string)
    requires |entries| == |rewritten|
    requires forall i | 0 <= i < |entries| :: rewritten[i] == RewriteRefs(entries[i], repoint)
    requires AreStringsOf(names, rewritten)
    ensures AreStringsOf(names, entries)
  {
    var at :| AreStringsAt(names, rewritten, at);
    assert forall i | 0 <= i < |entries| :: entries[i].Str? <==> rewritten[i].Str?;
    assert AreStringsAt(names, entries, at);
  }

  lemma RequiredIsUntouched(names: seq<string>, plain: JsonSchema, there: JsonSchema, repoint: string -> string)
    requires "required" in there.fields <==> "required" in plain.fields
    requires "required" in plain.fields ==> there.fields["required"] == RewriteRefs(plain.fields["required"], repoint)
    requires AreStringsOf(names, RequiredEntries(there))
    ensures AreStringsOf(names, RequiredEntries(plain))
  {
    if "required" in plain.fields && plain.fields["required"].Arr? {
      var items := plain.fields["required"].items;
      ItemsAreRewritten(items, repoint);
      StringsAreUntouched(names, items, RewriteRefs(Arr(items), repoint).items, repoint);
    } else {
      NoItems(there, plain, repoint);
    }
  }

  lemma ItemsAreRewritten(items: seq<Json>, repoint: string -> string)
    ensures var rewritten := RewriteRefs(Arr(items), repoint);
            && rewritten.Arr? && |rewritten.items| == |items|
            && forall i | 0 <= i < |items| :: rewritten.items[i] == RewriteRefs(items[i], repoint)
  {
  }

  lemma NoItems(there: JsonSchema, plain: JsonSchema, repoint: string -> string)
    requires "required" in there.fields <==> "required" in plain.fields
    requires "required" in plain.fields ==> there.fields["required"] == RewriteRefs(plain.fields["required"], repoint)
    requires !("required" in plain.fields && plain.fields["required"].Arr?)
    ensures RequiredEntries(there) == RequiredEntries(plain) == []
  {
  }

  /** Repointing an object, and titling it, leaves its properties but for the references in them. */
  lemma PropertiesAreRepointed(name: Option<string>, plain: JsonSchema, repoint: string -> string)
    ensures var there := RewriteRefs(Titled(name, plain), repoint);
            && (HasProperties(there) <==> HasProperties(plain))
            && (HasProperties(plain) ==>
                  && there.fields["properties"] == RewriteRefs(plain.fields["properties"], repoint)
                  && CollectRefs(plain.fields["properties"]) <= CollectRefs(plain))
  {
    assert |"properties"| != |"$ref"| && |"properties"| != |"title"|;
    assert "properties" in Titled(name, plain).fields <==> "properties" in plain.fields;
  }

  lemma RequiredIsRepointed(name: Option<string>, plain: JsonSchema, repoint: string -> string, names: seq<string>)
    requires AreStringsOf(names, RequiredEntries(RewriteRefs(Titled(name, plain), repoint)))
    ensures AreStringsOf(names, RequiredEntries(plain))
  {
    assert |"required"| != |"$ref"| && |"required"| != |"title"|;
    var titled := Titled(name, plain);
    assert "required" in titled.fields <==> "required" in plain.fields;
    RequiredIsUntouched(names, plain, RewriteRefs(titled, repoint), repoint);
  }

  lemma PropertiesAreKept(draft: Draft, before: map<string, JsonSchema>, value: Json)
    requires WellEmitted(draft) && CollisionFree(draft, before, draft.SelfReferential())
    requires Lands(draft, before, draft.SelfReferential())
    requires CollectRefs(value) <= LiveRefs(draft)
    ensures MeansAs(
              Vendor(draft), value,
              Components(draft.Stored(before, draft.SelfReferential())), RewriteRefs(value, draft.Repoint))
  {
    var after := Components(draft.Stored(before, draft.SelfReferential()));
    LiveIsEmitted(draft);
    ValueMeansTitled(draft, None, value);
    forall e: nat {
      LiveValueKeepsMeaning(draft, before, draft.SelfReferential(), value, e);
    }
    MeansAsUnfolded(Vendor(draft), value, Source(draft), value, after, RewriteRefs(value, draft.Repoint));
  }

  /** The object read has properties where the emitted one has, and they mean what they meant. */
  lemma PropertiesAreMeant(draft: Draft, before: map<string, JsonSchema>)
    requires WellEmitted(draft) && CollisionFree(draft, before, draft.SelfReferential())
    requires Lands(draft, before, draft.SelfReferential())
    requires PlainReferences(draft) && EndsInTime(draft)
    ensures var emitted, read := VendorObject(draft), draft.ObjectRead(before);
            && (HasProperties(read) <==> HasProperties(emitted))
            && (HasProperties(emitted) ==>
                  && read.fields["properties"] == RewriteRefs(emitted.fields["properties"], draft.Repoint)
                  && MeansAs(Vendor(draft), emitted.fields["properties"],
                             Components(draft.Stored(before, draft.SelfReferential())), read.fields["properties"]))
  {
    ObjectReadIsRewritten(draft, before);
    var name := SourceIsVendors(draft);
    TitledKeepsRefs(name, VendorObject(draft));
    PropertiesAreRepointed(name, VendorObject(draft), draft.Repoint);
    if HasProperties(VendorObject(draft)) {
      PropertiesAreKept(draft, before, VendorObject(draft).fields["properties"]);
    }
  }

  /**
   What `convertObject` answers with is the emitted object's: none where it has no properties; else
   its required names, exactly the strings it lists, in order, and its properties, repointed and
   meaning what they meant.
   */
  lemma ObjectShapeMeaning(draft: Draft, before: map<string, JsonSchema>, shape: ObjectShape)
    requires IsShapeOf(shape, draft.ObjectRead(before))
    requires WellEmitted(draft) && CollisionFree(draft, before, draft.SelfReferential())
    requires Lands(draft, before, draft.SelfReferential())
    requires PlainReferences(draft) && EndsInTime(draft)
    ensures
      var emitted, after := VendorObject(draft), Components(draft.Stored(before, draft.SelfReferential()));
      if HasProperties(emitted) then
        && AreStringsOf(shape.required, RequiredEntries(emitted))
        && shape.properties == RewriteRefs(emitted.fields["properties"], draft.Repoint)
        && MeansAs(Vendor(draft), emitted.fields["properties"], after, shape.properties)
      else shape == NO_PARAMETERS
  {
    PropertiesAreMeant(draft, before);
    ObjectReadIsRewritten(draft, before);
    var name := SourceIsVendors(draft);
    if HasProperties(VendorObject(draft)) {
      RequiredIsRepointed(name, VendorObject(draft), draft.Repoint, shape.required);
    }
  }

  /** What is read for the parameters means what the emitted root means. */
  lemma ObjectReadMeansRoot(draft: Draft, before: map<string, JsonSchema>)
    requires WellEmitted(draft) && CollisionFree(draft, before, draft.SelfReferential())
    requires Lands(draft, before, draft.SelfReferential()) && PlainReferences(draft)
    ensures MeansAs(
              Vendor(draft), draft.root,
              Components(draft.Stored(before, draft.SelfReferential())), draft.ObjectRead(before))
  {
    var after := Components(draft.Stored(before, draft.SelfReferential()));
    RootIsKept(draft, before, draft.SelfReferential());
    HoistIsHop(draft);
    if draft.SelfHoisted().Some? {
      ComponentRef(draft.SelfHoisted().value);
    }
    assert NoSiblings(draft.Rest());
    var rewritten := draft.Rewritten(draft.Rest());
    BareIsRewrittenBare(None, draft.Rest(), draft.Repoint);
    if Resolved(rewritten, after.schemas).Some? {
      assert IsBare(rewritten);
      MeansAsTarget(Vendor(draft), draft.root, after, rewritten);
    }
  }

  /** A longer chain of references is not followed to its end: no parameter is read. */
  lemma LongerChainReadsNothing(draft: Draft, before: map<string, JsonSchema>)
    requires WellEmitted(draft) && CollisionFree(draft, before, draft.SelfReferential())
    requires Lands(draft, before, draft.SelfReferential())
    requires PlainReferences(draft) && !EndsInTime(draft)
    ensures !HasProperties(draft.ObjectRead(before))
  {
    ObjectReadIsRewritten(draft, before);
    BareIsRead(draft);
    BareHasNoShape(SourceObject(draft), draft.Repoint);
  }

  lemma BareHasNoShape(schema: JsonSchema, repoint: string -> string)
    requires IsBare(schema)
    ensures !HasProperties(RewriteRefs(schema, repoint))
  {
    assert |"properties"| != |"$ref"| && |"properties"| != |"title"|;
    assert "properties" !in schema.fields;
  }

  lemma BareIsRead(draft: Draft)
    requires PlainReferences(draft) && !EndsInTime(draft)
    ensures IsBare(SourceObject(draft))
  {
    HoistIsHop(draft);
    ResolvesAlike(draft, "#");
    var once := Hop(Vendor(draft), draft.root);
    if draft.SelfHoisted().Some? {
      ComponentRef(draft.SelfHoisted().value);
      assert once == draft.Rest() && IsBare(once);
      if once.fields["$ref"].s == "#" {
        TitledIsBareToo(Some(draft.Name()), once);
      } else {
        var name := HopIsTitled(draft, once);
        TitledIsBareToo(name, VendorObject(draft));
      }
    } else if draft.root.fields["$ref"].s == "#" {
      TitledIsBareToo(Some(draft.Name()), draft.root);
    } else {
      var name := HopIsTitled(draft, draft.root);
      TitledIsBareToo(name, once);
    }
  }

  /** The names of an object's properties. */
  function PropertyNames(schema: JsonSchema): set<string> {
    if "properties" in schema.fields && schema.fields["properties"].Obj? then schema.fields["properties"].fields.Keys
    else {}
  }

  /**
   Beside a root `$ref` the root's own properties are not read: the parameters are the referenced
   object's, so a property of the root's own is one exactly when that object has it too.
   */
  lemma PropertiesBesideARefAreLost(draft: Draft, before: map<string, JsonSchema>)
    requires WellEmitted(draft) && CollisionFree(draft, before, draft.SelfReferential())
    requires Lands(draft, before, draft.SelfReferential())
    requires {"$ref", "properties"} <= draft.root.fields.Keys && draft.root.fields["$ref"].Str?
    requires Resolve(Vendor(draft), draft.root.fields["$ref"].s).Some?
    ensures PropertyNames(draft.ObjectRead(before)) ==
            PropertyNames(Resolve(Vendor(draft), draft.root.fields["$ref"].s).value)
  {
    var ref := draft.root.fields["$ref"].s;
    assert |"properties"| != |"$ref"| && |"properties"| != |"title"|;
    HoistIsHop(draft);
    ResolvesAlike(draft, ref);
    ResolvesAlike(draft, "#");
    ObjectReadIsRewritten(draft, before);
    var target := Resolve(Vendor(draft), ref).value;
    var name: Option<string> := if ref == "#" then Some(draft.Name()) else After(DEFS_PREFIX, ref);
    assert SourceObject(draft) == Titled(name, target);
    NamesAreRepointed(name, target, draft.Repoint);
  }

  lemma NamesAreRepointed(name: Option<string>, plain: JsonSchema, repoint: string -> string)
    ensures PropertyNames(RewriteRefs(Titled(name, plain), repoint)) == PropertyNames(plain)
  {
    var titled := Titled(name, plain);
    assert |"properties"| != |"$ref"| && |"properties"| != |"title"|;
    assert "properties" in titled.fields <==> "properties" in plain.fields;
  }
}
