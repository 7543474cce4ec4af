/**
 JSON values, the `$ref` walkers of `refs.ts`, the component store, and what a schema with
 references *means*: its unfolding, to every depth, in the scope its references are read in.
 */
module Refs {
  import opened Prelude

  /** Object keys are unordered here, as they are for `Bun.deepEquals`. */
  datatype Json =
    | Null
    | Bool(b: bool)
    | Num(n: real)
    | Str(s: string)
    | Arr(items: seq<Json>)
    | Obj(fields: map<string, Json>)

  type JsonSchema = j: Json | j.Obj? witness Obj(map[])

  const COMPONENTS_PREFIX := "#/components/schemas/"
  const DEFS_PREFIX := "#/$defs/"

  function After(prefix: string, ref: string): Option<string> {
    if prefix <= ref then Some(ref[|prefix|..]) else None
  }

  function RefTo(name: string): JsonSchema {
    Obj(map["$ref" := Str(COMPONENTS_PREFIX + name)])
  }

  /** The one shape the walkers treat as a reference: a `$ref` key holding a string. */
  predicate IsRef(key: string, entry: Json) {
    key == "$ref" && entry.Str?
  }

  function RewriteRefs(value: Json, repoint: string -> string): (rewritten: Json)
    ensures rewritten.Obj? <==> value.Obj?
    ensures rewritten.Str? <==> value.Str?
  {
    match value
    case Arr(items) => Arr(seq(|items|, i requires 0 <= i < |items| => RewriteRefs(items[i], repoint)))
    case Obj(fields) =>
      Obj(map k | k in fields ::
            if IsRef(k, fields[k]) then Str(repoint(fields[k].s)) else RewriteRefs(fields[k], repoint))
    case _ => value
  }

  function CollectRefs(value: Json): set<string> {
    match value
    case Arr(items) => set i, r | 0 <= i < |items| && r in CollectRefs(items[i]) :: r
    case Obj(fields) =>
      (if "$ref" in fields && fields["$ref"].Str? then {fields["$ref"].s} else {}) +
      set k, r | k in fields && !IsRef(k, fields[k]) && r in CollectRefs(fields[k]) :: r
    case _ => {}
  }

  function TitledAs(name: string, schema: JsonSchema): JsonSchema {
    if "title" in schema.fields then schema else Obj(schema.fields["title" := Str(name)])
  }

  /** A schema with a title is left as it is; one without gets its name for a title and keeps the rest. */
  ghost predicate IsTitled(name: string, schema: JsonSchema, titled: JsonSchema) {
    if "title" in schema.fields then titled == schema
    else
      && titled.fields.Keys == schema.fields.Keys + {"title"} && titled.fields["title"] == Str(name)
      && forall k | k in schema.fields :: titled.fields[k] == schema.fields[k]
  }

  lemma TitledIsTitled(name: string, schema: JsonSchema)
    ensures IsTitled(name, schema, TitledAs(name, schema))
  {
  }

  // ---------------------------------------------------------------------------
  // Meaning
  // ---------------------------------------------------------------------------

  /**
   Where references are looked up. `Verbatim` is the vendor's document as it stands: `#` is the
   root and `#/$defs/k` is definition `k`. `Components` is `components/schemas`. `Emitted` lies
   between them: a document whose schemas carry the titles they get as components.
   */
  datatype Scope =
    | Verbatim(root: JsonSchema, defs: map<string, JsonSchema>)
    | Emitted(name: string, root: JsonSchema, defs: map<string, JsonSchema>)
    | Components(schemas: map<string, JsonSchema>)

  function Resolve(scope: Scope, ref: string): Option<JsonSchema> {
    match scope
    case Verbatim(root, defs) =>
      if ref == "#" then Some(root)
      else
        var key := After(DEFS_PREFIX, ref);
        if key.Some? && key.value in defs then Some(defs[key.value]) else None
    case Emitted(name, root, defs) =>
      if ref == "#" then Some(TitledAs(name, root))
      else
        var key := After(DEFS_PREFIX, ref);
        if key.Some? && key.value in defs then Some(TitledAs(key.value, defs[key.value])) else None
    case Components(schemas) =>
      var key := After(COMPONENTS_PREFIX, ref);
      if key.Some? && key.value in schemas then Some(schemas[key.value]) else None
  }

  datatype Tree =
    | Leaf(value: Json)
    | List(items: seq<Tree>)
    | Node(children: map<string, Tree>)
    | Target(tree: Tree)
    | Cut
    | Unresolved(ref: string)

  /** `value` with every reference replaced by what it points at, `depth` references deep. */
  function Unfold(scope: Scope, value: Json, depth: nat): Tree
    decreases depth, 1, value
  {
    match value
    case Arr(items) => List(seq(|items|, i requires 0 <= i < |items| => Unfold(scope, items[i], depth)))
    case Obj(fields) =>
      Node(map k | k in fields ::
             if IsRef(k, fields[k]) then Follow(scope, fields[k].s, depth)
             else Unfold(scope, fields[k], depth))
    case _ => Leaf(value)
  }

  function Follow(scope: Scope, ref: string, depth: nat): Tree
    decreases depth, 0
  {
    match Resolve(scope, ref)
    case None => Unresolved(ref)
    case Some(schema) => if depth == 0 then Cut else Target(Unfold(scope, schema, depth - 1))
  }

  // ---------------------------------------------------------------------------
  // Two scopes that give one meaning
  // ---------------------------------------------------------------------------

  /** `repoint` carries `ref` from one scope to the same definition, rewritten, in the other. */
  ghost predicate Linked(from: Scope, to: Scope, repoint: string -> string, ref: string) {
    match Resolve(from, ref)
    case None => repoint(ref) == ref && Resolve(to, ref) == None
    case Some(schema) => Resolve(to, repoint(ref)) == Some(RewriteRefs(schema, repoint))
  }

  /** Every reference in `refs` resolves, if at all, to a schema with no references outside `refs`. */
  ghost predicate ClosedUnder(scope: Scope, refs: set<string>) {
    forall r | r in refs && Resolve(scope, r).Some? :: CollectRefs(Resolve(scope, r).value) <= refs
  }

  lemma FieldRefs(fields: map<string, Json>, k: string)
    requires k in fields
    ensures IsRef(k, fields[k]) ==> fields[k].s in CollectRefs(Obj(fields))
    ensures !IsRef(k, fields[k]) ==> CollectRefs(fields[k]) <= CollectRefs(Obj(fields))
  {
  }

  lemma ItemRefs(items: seq<Json>, i: nat)
    requires i < |items|
    ensures CollectRefs(items[i]) <= CollectRefs(Arr(items))
  {
  }

  /** The bisimulation: rewriting along linked references changes no unfolding. */
  lemma {:induction false} SameMeaning(
    from: Scope, to: Scope, repoint: string -> string, refs: set<string>, value: Json, depth: nat)
    requires forall r | r in refs :: Linked(from, to, repoint, r)
    requires ClosedUnder(from, refs)
    requires CollectRefs(value) <= refs
    ensures Unfold(to, RewriteRefs(value, repoint), depth) == Unfold(from, value, depth)
    decreases depth, 1, value
  {
    match value
    case Arr(items) =>
      forall i | 0 <= i < |items|
        ensures Unfold(to, RewriteRefs(items[i], repoint), depth) == Unfold(from, items[i], depth)
      {
        ItemRefs(items, i);
        SameMeaning(from, to, repoint, refs, items[i], depth);
      }
      assert Unfold(to, RewriteRefs(value, repoint), depth).items == Unfold(from, value, depth).items;
    case Obj(fields) =>
      forall k | k in fields
        ensures SameField(from, to, repoint, k, fields[k], depth)
      {
        FieldRefs(fields, k);
        if IsRef(k, fields[k]) {
          SameTarget(from, to, repoint, refs, fields[k].s, depth);
        } else {
          SameMeaning(from, to, repoint, refs, fields[k], depth);
        }
      }
      SameFields(from, to, repoint, fields, depth);
    case _ =>
  }

  /** What stands under one key unfolds the same once it is repointed. */
  ghost predicate SameField(from: Scope, to: Scope, repoint: string -> string, k: string, entry: Json, depth: nat) {
    if IsRef(k, entry) then Follow(to, repoint(entry.s), depth) == Follow(from, entry.s, depth)
    else Unfold(to, RewriteRefs(entry, repoint), depth) == Unfold(from, entry, depth)
  }

  lemma SameFields(from: Scope, to: Scope, repoint: string -> string, fields: map<string, Json>, depth: nat)
    requires forall k | k in fields :: SameField(from, to, repoint, k, fields[k], depth)
    ensures Unfold(to, RewriteRefs(Obj(fields), repoint), depth) == Unfold(from, Obj(fields), depth)
  {
    var rewritten := RewriteRefs(Obj(fields), repoint).fields;
    var there, here := Unfold(to, Obj(rewritten), depth).children, Unfold(from, Obj(fields), depth).children;
    forall k | k in fields
      ensures k in there && k in here && there[k] == here[k]
    {
      SameChild(from, to, repoint, fields, k, depth);
    }
    ChildKeys(to, rewritten, depth);
    ChildKeys(from, fields, depth);
    SameMap(there, here);
  }

  lemma ChildKeys(scope: Scope, fields: map<string, Json>, depth: nat)
    ensures Unfold(scope, Obj(fields), depth).Node? && Unfold(scope, Obj(fields), depth).children.Keys == fields.Keys
  {
  }

  lemma SameMap<K, V>(a: map<K, V>, b: map<K, V>)
    requires a.Keys == b.Keys && forall k | k in a :: a[k] == b[k]
    ensures a == b
  {
  }

  lemma SameChild(
    from: Scope, to: Scope, repoint: string -> string, fields: map<string, Json>, k: string, depth: nat)
    requires k in fields && SameField(from, to, repoint, k, fields[k], depth)
    ensures var there := Unfold(to, Obj(RewriteRefs(Obj(fields), repoint).fields), depth).children;
            var here := Unfold(from, Obj(fields), depth).children;
            k in there && k in here && there[k] == here[k]
  {
    RewrittenField(fields, repoint, k);
  }

  lemma RewrittenField(fields: map<string, Json>, repoint: string -> string, k: string)
    requires k in fields
    ensures var rewritten := RewriteRefs(Obj(fields), repoint).fields;
            && k in rewritten && (IsRef(k, rewritten[k]) <==> IsRef(k, fields[k]))
            && rewritten[k] == if IsRef(k, fields[k]) then Str(repoint(fields[k].s)) else RewriteRefs(fields[k], repoint)
  {
  }

  lemma {:induction false} SameTarget(
    from: Scope, to: Scope, repoint: string -> string, refs: set<string>, ref: string, depth: nat)
    requires forall r | r in refs :: Linked(from, to, repoint, r)
    requires ClosedUnder(from, refs)
    requires ref in refs
    ensures Follow(to, repoint(ref), depth) == Follow(from, ref, depth)
    decreases depth, 0
  {
    assert Linked(from, to, repoint, ref);
    var schema := Resolve(from, ref);
    if schema.Some? && depth > 0 {
      SameMeaning(from, to, repoint, refs, schema.value, depth - 1);
    }
  }

  /** The converse, already at depth 0: equal unfoldings mean every resolving reference still resolves. */
  lemma {:induction false} SameMeaningResolves(
    from: Scope, to: Scope, repoint: string -> string, value: Json, ref: string)
    requires Unfold(to, RewriteRefs(value, repoint), 0) == Unfold(from, value, 0)
    requires ref in CollectRefs(value) && Resolve(from, ref).Some?
    ensures Resolve(to, repoint(ref)).Some?
  {
    var there := Unfold(to, RewriteRefs(value, repoint), 0);
    var here := Unfold(from, value, 0);
    match value
    case Arr(items) =>
      var i :| 0 <= i < |items| && ref in CollectRefs(items[i]);
      assert there.items[i] == here.items[i];
      SameMeaningResolves(from, to, repoint, items[i], ref);
    case Obj(fields) =>
      if "$ref" in fields && fields["$ref"].Str? && fields["$ref"].s == ref {
        assert there.children["$ref"] == here.children["$ref"];
      } else {
        var k :| k in fields && !IsRef(k, fields[k]) && ref in CollectRefs(fields[k]);
        assert there.children[k] == here.children[k];
        SameMeaningResolves(from, to, repoint, fields[k], ref);
      }
    case _ =>
  }

  function Same(ref: string): string {
    ref
  }

  lemma {:induction false} RewriteNothing(value: Json)
    ensures RewriteRefs(value, Same) == value
  {
    match value
    case Arr(items) =>
      forall i | 0 <= i < |items| {
        RewriteNothing(items[i]);
      }
      assert RewriteRefs(value, Same).items == items;
    case Obj(fields) =>
      forall k | k in fields && !IsRef(k, fields[k]) {
        RewriteNothing(fields[k]);
      }
      assert RewriteRefs(value, Same).fields == fields;
    case _ =>
  }

  /** Two stores that agree on every reference reachable from `value` give it one meaning. */
  lemma {:induction false} AgreeingStores(
    a: map<string, JsonSchema>, b: map<string, JsonSchema>, refs: set<string>, value: Json, depth: nat)
    requires forall r | r in refs :: Resolve(Components(a), r) == Resolve(Components(b), r)
    requires ClosedUnder(Components(a), refs)
    requires CollectRefs(value) <= refs
    ensures Unfold(Components(a), value, depth) == Unfold(Components(b), value, depth)
  {
    forall r | r in refs
      ensures Linked(Components(a), Components(b), Same, r)
    {
      if Resolve(Components(a), r).Some? {
        RewriteNothing(Resolve(Components(a), r).value);
      }
    }
    SameMeaning(Components(a), Components(b), Same, refs, value, depth);
    RewriteNothing(value);
  }

  ghost function Image(refs: set<string>, repoint: string -> string): set<string> {
    set r | r in refs :: repoint(r)
  }

  lemma RewrittenItems(items: seq<Json>, repoint: string -> string)
    requires forall i | 0 <= i < |items| ::
               CollectRefs(RewriteRefs(items[i], repoint)) == Image(CollectRefs(items[i]), repoint)
    ensures CollectRefs(RewriteRefs(Arr(items), repoint)) == Image(CollectRefs(Arr(items)), repoint)
  {
    var value, rewritten := Arr(items), RewriteRefs(Arr(items), repoint);
    var image := Image(CollectRefs(value), repoint);
    forall q | q in CollectRefs(rewritten)
      ensures q in image
    {
      var i :| 0 <= i < |items| && q in CollectRefs(rewritten.items[i]);
      var r :| r in CollectRefs(items[i]) && q == repoint(r);
      assert r in CollectRefs(value);
    }
    forall q | q in image
      ensures q in CollectRefs(rewritten)
    {
      var r :| r in CollectRefs(value) && q == repoint(r);
      var i :| 0 <= i < |items| && r in CollectRefs(items[i]);
      assert q in CollectRefs(rewritten.items[i]);
    }
  }

  lemma RewrittenFields(fields: map<string, Json>, repoint: string -> string)
    requires forall k | k in fields && !IsRef(k, fields[k]) ::
               CollectRefs(RewriteRefs(fields[k], repoint)) == Image(CollectRefs(fields[k]), repoint)
    ensures CollectRefs(RewriteRefs(Obj(fields), repoint)) == Image(CollectRefs(Obj(fields)), repoint)
  {
    var value, rewritten := Obj(fields), RewriteRefs(Obj(fields), repoint);
    var image := Image(CollectRefs(value), repoint);
    forall q | q in CollectRefs(rewritten)
      ensures q in image
    {
      if "$ref" in fields && fields["$ref"].Str? && q == repoint(fields["$ref"].s) {
        assert fields["$ref"].s in CollectRefs(value);
      } else {
        var k :| k in fields && !IsRef(k, rewritten.fields[k]) && q in CollectRefs(rewritten.fields[k]);
        var r :| r in CollectRefs(fields[k]) && q == repoint(r);
        assert r in CollectRefs(value);
      }
    }
    forall q | q in image
      ensures q in CollectRefs(rewritten)
    {
      var r :| r in CollectRefs(value) && q == repoint(r);
      if "$ref" in fields && fields["$ref"].Str? && r == fields["$ref"].s {
        assert IsRef("$ref", rewritten.fields["$ref"]);
      } else {
        var k :| k in fields && !IsRef(k, fields[k]) && r in CollectRefs(fields[k]);
        assert q in CollectRefs(rewritten.fields[k]);
      }
    }
  }

  /** Rewriting maps the references and adds none. */
  lemma {:induction false} RewrittenRefs(value: Json, repoint: string -> string)
    ensures CollectRefs(RewriteRefs(value, repoint)) == Image(CollectRefs(value), repoint)
  {
    match value
    case Arr(items) =>
      forall i | 0 <= i < |items| {
        RewrittenRefs(items[i], repoint);
      }
      RewrittenItems(items, repoint);
    case Obj(fields) =>
      forall k | k in fields && !IsRef(k, fields[k]) {
        RewrittenRefs(fields[k], repoint);
      }
      RewrittenFields(fields, repoint);
    case _ =>
  }

  lemma TitleKeepsRefs(name: string, schema: JsonSchema)
    ensures CollectRefs(TitledAs(name, schema)) == CollectRefs(schema)
  {
    var titled := TitledAs(name, schema);
    if "title" !in schema.fields {
      assert titled.fields.Keys == schema.fields.Keys + {"title"};
      forall k | k in schema.fields
        ensures titled.fields[k] == schema.fields[k]
      {
      }
      assert CollectRefs(titled.fields["title"]) == {};
    }
  }

  lemma TitleThenRewrite(name: string, schema: JsonSchema, repoint: string -> string)
    ensures TitledAs(name, RewriteRefs(schema, repoint)) == RewriteRefs(TitledAs(name, schema), repoint)
  {
    var a := TitledAs(name, RewriteRefs(schema, repoint));
    var b := RewriteRefs(TitledAs(name, schema), repoint);
    assert |"title"| != |"$ref"|;
    forall k | k in a.fields
      ensures k in b.fields && a.fields[k] == b.fields[k]
    {
      var titled := TitledAs(name, schema);
      if "title" !in schema.fields {
        if k == "title" {
          assert !IsRef(k, titled.fields[k]);
          assert RewriteRefs(titled.fields[k], repoint) == Str(name);
          assert a.fields[k] == Str(name);
          assert b.fields[k] == Str(name);
        } else {
          assert titled.fields[k] == schema.fields[k];
          assert a.fields[k] == RewriteRefs(schema, repoint).fields[k];
        }
      } else {
        assert "title" in RewriteRefs(schema, repoint).fields;
      }
    }
    assert a.fields == b.fields;
  }

  // ---------------------------------------------------------------------------
  // The component store
  // ---------------------------------------------------------------------------

  /** What the call warned about; the wording is the caller's. */
  datatype Warning =
    | SameName(name: string)
    | UnknownVendor(where: string, vendor: string)
    | VendorMissing(where: string)
    | Refused(where: string, reason: string)
    | NotAnObject(where: string)

  function Added(schemas: map<string, JsonSchema>, name: string, schema: JsonSchema): map<string, JsonSchema> {
    if name in schemas then schemas else schemas[name := TitledAs(name, schema)]
  }

  predicate Collides(schemas: map<string, JsonSchema>, name: string, schema: JsonSchema) {
    name in schemas && schemas[name] != TitledAs(name, schema)
  }

  /** What a name held it holds still, and a name that was free holds the schema, titled. */
  lemma FirstDefinitionStays(schemas: map<string, JsonSchema>, name: string, schema: JsonSchema)
    ensures var after := Added(schemas, name, schema);
            && after.Keys == schemas.Keys + {name} && (forall k | k in schemas :: after[k] == schemas[k])
            && (name !in schemas ==> IsTitled(name, schema, after[name]))
            && (Collides(schemas, name, schema) <==> name in schemas && !IsTitled(name, schema, after[name]))
  {
    TitledIsTitled(name, schema);
    if name in schemas && IsTitled(name, schema, schemas[name]) {
      OneTitled(name, schema, schemas[name]);
    }
  }

  lemma OneTitled(name: string, schema: JsonSchema, titled: JsonSchema)
    requires IsTitled(name, schema, titled)
    ensures titled == TitledAs(name, schema)
  {
    assert titled.fields == TitledAs(name, schema).fields;
  }

  function Noted(warnings: seq<Warning>, warning: Warning): seq<Warning> {
    if warning in warnings then warnings else warnings + [warning]
  }

  class SchemaStore {
    var schemas: map<string, JsonSchema>
    var warnings: seq<Warning>

    constructor ()
      ensures schemas == map[] && warnings == []
    {
      schemas, warnings := map[], [];
    }

    method Warn(warning: Warning)
      modifies this`warnings
      ensures warnings == Noted(old(warnings), warning)
      ensures old(warnings) <= warnings <= old(warnings) + [warning] && warning in warnings
      ensures warning in old(warnings) ==> warnings == old(warnings)
    {
      if warning !in warnings {
        warnings := warnings + [warning];
      }
    }

    /** The first definition of a name wins; a different second one is only warned about. */
    method Add(name: string, schema: JsonSchema) returns (used: string)
      modifies this
      ensures used == name
      ensures schemas == Added(old(schemas), name, schema)
      ensures warnings == if Collides(old(schemas), name, schema)
                          then Noted(old(warnings), SameName(name)) else old(warnings)
    {
      var titled := TitledAs(name, schema);
      if name !in schemas {
        schemas := schemas[name := titled];
        return name;
      }
      if schemas[name] != titled {
        Warn(SameName(name));
      }
      return name;
    }
  }

  // ---------------------------------------------------------------------------
  // Which components a document uses
  // ---------------------------------------------------------------------------

  function NamesIn(value: Json): set<string> {
    set r | r in CollectRefs(value) && After(COMPONENTS_PREFIX, r).Some? :: After(COMPONENTS_PREFIX, r).value
  }

  function NamesOf(schemas: map<string, JsonSchema>, name: string): set<string> {
    if name in schemas then NamesIn(schemas[name]) else {}
  }

  /** Each name after the first is referred to by the component before it. */
  ghost predicate IsTrail(document: Json, schemas: map<string, JsonSchema>, trail: seq<string>) {
    var last := |trail| - 1;
    if last <= 0 then
      |trail| == 1 && trail[0] in NamesIn(document)
    else
      trail[last] in NamesOf(schemas, trail[last - 1]) && IsTrail(document, schemas, trail[..last])
  }

  ghost predicate Reachable(document: Json, schemas: map<string, JsonSchema>, name: string) {
    exists trail :: IsTrail(document, schemas, trail) && trail[|trail| - 1] == name
  }

  lemma ReachableStep(document: Json, schemas: map<string, JsonSchema>, name: string, next: string)
    requires Reachable(document, schemas, name) && next in NamesOf(schemas, name)
    ensures Reachable(document, schemas, next)
  {
    var trail :| IsTrail(document, schemas, trail) && trail[|trail| - 1] == name;
    TrailGrows(document, schemas, trail, next);
    assert (trail + [next])[|trail|] == next;
  }

  lemma TrailGrows(document: Json, schemas: map<string, JsonSchema>, trail: seq<string>, next: string)
    requires IsTrail(document, schemas, trail) && |trail| > 0 && next in NamesOf(schemas, trail[|trail| - 1])
    ensures IsTrail(document, schemas, trail + [next])
  {
    assert (trail + [next])[..|trail|] == trail;
  }

  /** Every reached name's own references are reached too, except for names still queued. */
  ghost predicate Saturated(schemas: map<string, JsonSchema>, reached: set<string>, queue: seq<string>) {
    forall n | n in reached && n !in queue :: NamesOf(schemas, n) <= reached
  }

  lemma {:induction false} TrailStaysInside(
    document: Json, schemas: map<string, JsonSchema>, reached: set<string>, trail: seq<string>)
    requires NamesIn(document) <= reached
    requires Saturated(schemas, reached, [])
    requires IsTrail(document, schemas, trail)
    ensures trail[|trail| - 1] in reached
  {
    if |trail| > 1 {
      TrailStaysInside(document, schemas, reached, trail[..|trail| - 1]);
    }
  }

  method EnqueueNew(names: set<string>, seen: set<string>, waiting: seq<string>)
    returns (reached: set<string>, queue: seq<string>)
    ensures reached == seen + names
    ensures forall n :: n in queue <==> n in waiting || n in names - seen
    ensures waiting <= queue
    ensures names <= seen ==> queue == waiting
  {
    reached, queue := seen, waiting;
    var todo := names;
    while todo != {}
      invariant todo <= names
      invariant reached == seen + (names - todo)
      invariant forall n :: n in queue <==> n in waiting || n in names - todo - seen
      invariant waiting <= queue
      invariant names <= seen ==> queue == waiting
    {
      var name :| name in todo;
      if name !in reached {
        reached := reached + {name};
        queue := queue + [name];
      }
      todo := todo - {name};
    }
  }

  ghost function Mentioned(document: Json, schemas: map<string, JsonSchema>): set<string> {
    NamesIn(document) + set k, n | k in schemas && n in NamesIn(schemas[k]) :: n
  }

  ghost predicate Worklist(document: Json, schemas: map<string, JsonSchema>, reached: set<string>, queue: seq<string>) {
    && NamesIn(document) <= reached <= Mentioned(document, schemas)
    && (forall n | n in queue :: n in reached)
    && (forall n | n in reached :: Reachable(document, schemas, n))
    && Saturated(schemas, reached, queue)
  }

  lemma WorklistStarts(document: Json, schemas: map<string, JsonSchema>, queue: seq<string>)
    requires forall n :: n in queue <==> n in NamesIn(document)
    ensures Worklist(document, schemas, NamesIn(document), queue)
  {
    forall n | n in NamesIn(document)
      ensures Reachable(document, schemas, n)
    {
      assert IsTrail(document, schemas, [n]) && [n][|[n]| - 1] == n;
    }
  }

  lemma WorklistStep(
    document: Json, schemas: map<string, JsonSchema>, reached: set<string>, before: seq<string>, queue: seq<string>)
    requires |before| > 0 && Worklist(document, schemas, reached, before)
    requires forall n :: n in queue <==>
               n in before[..|before| - 1] || n in NamesOf(schemas, before[|before| - 1]) - reached
    ensures Worklist(document, schemas, reached + NamesOf(schemas, before[|before| - 1]), queue)
  {
    var current, waiting := before[|before| - 1], before[..|before| - 1];
    assert before == waiting + [current];
    NamesAreReached(document, schemas, current);
    StaysSaturated(schemas, reached, waiting, current, queue);
  }

  lemma NamesAreReached(document: Json, schemas: map<string, JsonSchema>, current: string)
    requires Reachable(document, schemas, current)
    ensures forall n | n in NamesOf(schemas, current) :: Reachable(document, schemas, n)
    ensures NamesOf(schemas, current) <= Mentioned(document, schemas)
  {
    forall n | n in NamesOf(schemas, current) {
      ReachableStep(document, schemas, current, n);
    }
  }

  lemma StaysSaturated(
    schemas: map<string, JsonSchema>, reached: set<string>, waiting: seq<string>, current: string, queue: seq<string>)
    requires Saturated(schemas, reached, waiting + [current])
    requires forall n :: n in queue <==> n in waiting || n in NamesOf(schemas, current) - reached
    ensures Saturated(schemas, reached + NamesOf(schemas, current), queue)
  {
    forall n | n in reached + NamesOf(schemas, current) && n !in queue
      ensures NamesOf(schemas, n) <= reached + NamesOf(schemas, current)
    {
      assert n != current ==> n !in waiting + [current];
    }
  }

  lemma WorklistShrinks(
    document: Json, schemas: map<string, JsonSchema>, before: set<string>, after: set<string>)
    requires before <= after <= Mentioned(document, schemas)
    ensures before == after || Mentioned(document, schemas) - after < Mentioned(document, schemas) - before
  {
    if !(after <= before) {
      var name :| name in after && name !in before;
      assert name in Mentioned(document, schemas) - before;
    }
  }

  lemma WorklistDone(document: Json, schemas: map<string, JsonSchema>, reached: set<string>)
    requires Worklist(document, schemas, reached, [])
    ensures forall n :: n in reached <==> Reachable(document, schemas, n)
  {
    forall n | Reachable(document, schemas, n)
      ensures n in reached
    {
      var trail :| IsTrail(document, schemas, trail) && trail[|trail| - 1] == n;
      TrailStaysInside(document, schemas, reached, trail);
    }
  }

  /** The worklist of `reachableComponents`: exactly the names a trail of references leads to. */
  method ReachableComponents(document: Json, schemas: map<string, JsonSchema>) returns (reached: set<string>)
    ensures forall n :: n in reached <==> Reachable(document, schemas, n)
  {
    var queue;
    reached, queue := EnqueueNew(NamesIn(document), {}, []);
    assert reached == NamesIn(document);
    WorklistStarts(document, schemas, queue);
    while |queue| > 0
      invariant Worklist(document, schemas, reached, queue)
      decreases Mentioned(document, schemas) - reached, |queue|
    {
      var names := NamesOf(schemas, queue[|queue| - 1]);
      ghost var before, pending := reached, queue;
      reached, queue := EnqueueNew(names, reached, queue[..|queue| - 1]);
      WorklistStep(document, schemas, before, pending, queue);
      WorklistShrinks(document, schemas, before, reached);
    }
    WorklistDone(document, schemas, reached);
  }

  /** `pruneOrphans`: of the generated components, only the reachable ones stay. */
  method PruneOrphans(document: Json, schemas: map<string, JsonSchema>, generated: set<string>)
    returns (kept: map<string, JsonSchema>)
    ensures forall k :: k in kept <==> k in schemas && (k in generated ==> Reachable(document, schemas, k))
    ensures forall k | k in kept :: kept[k] == schemas[k]
  {
    var reachable := ReachableComponents(document, schemas);
    kept := schemas;
    var todo := schemas.Keys;
    while todo != {}
      invariant todo <= schemas.Keys
      invariant forall k :: k in kept <==> k in schemas && (k in todo || k !in generated || k in reachable)
      invariant forall k | k in kept :: kept[k] == schemas[k]
    {
      var name :| name in todo;
      if name in generated && name !in reachable {
        kept := kept - {name};
      }
      todo := todo - {name};
    }
  }

  /** Pruning is invisible: every part of the document unfolds the same, to every depth. */
  lemma {:induction false} PruningKeepsMeaning(
    document: Json, schemas: map<string, JsonSchema>, kept: map<string, JsonSchema>,
    part: Json, depth: nat)
    requires forall k | k in kept :: k in schemas && kept[k] == schemas[k]
    requires forall k | k in schemas && Reachable(document, schemas, k) :: k in kept
    requires CollectRefs(part) <= CollectRefs(document)
    ensures Unfold(Components(kept), part, depth) == Unfold(Components(schemas), part, depth)
  {
    var refs := CollectRefs(document) +
      set k, r | k in schemas && Reachable(document, schemas, k) && r in CollectRefs(schemas[k]) :: r;
    forall r | r in refs && After(COMPONENTS_PREFIX, r).Some?
      ensures Reachable(document, schemas, After(COMPONENTS_PREFIX, r).value)
    {
      var name := After(COMPONENTS_PREFIX, r).value;
      if r in CollectRefs(document) {
        assert IsTrail(document, schemas, [name]) && [name][|[name]| - 1] == name;
      } else {
        var k :| k in schemas && Reachable(document, schemas, k) && r in CollectRefs(schemas[k]);
        ReachableStep(document, schemas, k, name);
      }
    }
    AgreeingStores(schemas, kept, refs, part, depth);
  }
}
