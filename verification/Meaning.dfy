/**
 When a schema in one scope means what another does in a second: whatever either shows at some
 depth the other shows too, and they never contradict each other, however deep either goes. A
 schema that is nothing but a reference is read as what it points at, and a title one of the two
 lacks is no contradiction.
 */
module Meaning {
  import opened Prelude
  import opened Refs

  /** Nothing but a reference, a title aside. */
  predicate IsBare(value: Json) {
    && value.Obj? && "$ref" in value.fields && value.fields["$ref"].Str?
    && forall k | k in value.fields :: k == "$ref" || (k == "title" && value.fields[k].Str?)
  }

  /** What stands where a reference was. */
  predicate StandsForRef(tree: Tree) {
    tree.Target? || tree.Cut? || tree.Unresolved?
  }

  predicate IsTitle(key: string, tree: Tree) {
    key == "title" && tree.Leaf? && tree.value.Str?
  }

  predicate OnlyRefers(children: map<string, Tree>) {
    && "$ref" in children && StandsForRef(children["$ref"])
    && forall k | k in children :: k == "$ref" || IsTitle(k, children[k])
  }

  /** The unfolding with each bare reference replaced by what it points at. */
  function Seen(tree: Tree): Tree {
    match tree
    case List(items) => List(seq(|items|, i requires 0 <= i < |items| => Seen(items[i])))
    case Node(children) =>
      if OnlyRefers(children) then Seen(children["$ref"]) else Node(map k | k in children :: Seen(children[k]))
    case Target(target) => Seen(target)
    case _ => tree
  }

  function Reading(scope: Scope, value: Json, depth: nat): Tree {
    Seen(Unfold(scope, value, depth))
  }

  function ReadRef(scope: Scope, ref: string, depth: nat): Tree {
    Seen(Follow(scope, ref, depth))
  }

  predicate Dangles(tree: Tree) {
    tree.Unresolved? && After(COMPONENTS_PREFIX, tree.ref).Some?
  }

  /** Which of two readings may be cut off where the other goes on. */
  datatype Side = Either | Here | There

  /**
   The two readings agree as far as they must: where `side` lets one be cut off, what the other
   shows there is left open, but a reference that resolves here must not dangle there.
   */
  ghost predicate Agree(side: Side, here: Tree, there: Tree) {
    match here
    case Cut => there.Cut? || (!side.There? && !Dangles(there))
    case List(items) =>
      if there.Cut? then !side.Here?
      else
        && there.List? && |items| == |there.items|
        && forall i | 0 <= i < |items| :: Agree(side, items[i], there.items[i])
    case Node(children) =>
      if there.Cut? then !side.Here?
      else
        && there.Node? && SameKeys(children, there.children)
        && forall k | k in children && k in there.children :: Agree(side, children[k], there.children[k])
    case _ => if there.Cut? then !side.Here? else here == there
  }

  /** The same keys, but for a title on one side. */
  predicate SameKeys(here: map<string, Tree>, there: map<string, Tree>) {
    && (forall k | k in here :: k in there || IsTitle(k, here[k]))
    && (forall k | k in there :: k in here || IsTitle(k, there[k]))
  }

  ghost predicate NeverContradict(here: Scope, value: Json, there: Scope, other: Json) {
    forall d: nat, e: nat :: Agree(Either, Reading(here, value, d), Reading(there, other, e))
  }

  /** All that `value` shows at depth `d` is shown by `other` at some depth. */
  ghost predicate ShownThere(here: Scope, value: Json, there: Scope, other: Json, d: nat) {
    exists e: nat :: Agree(Here, Reading(here, value, d), Reading(there, other, e))
  }

  /** All that `other` shows at depth `e` is shown by `value` at some depth. */
  ghost predicate ShownHere(here: Scope, value: Json, there: Scope, other: Json, e: nat) {
    exists d: nat :: Agree(There, Reading(here, value, d), Reading(there, other, e))
  }

  ghost predicate MeansAs(here: Scope, value: Json, there: Scope, other: Json) {
    && NeverContradict(here, value, there, other)
    && (forall d: nat :: ShownThere(here, value, there, other, d))
    && (forall e: nat :: ShownHere(here, value, there, other, e))
  }

  // ---------------------------------------------------------------------------
  // Reading, case by case
  // ---------------------------------------------------------------------------

  lemma KindIsKept(scope: Scope, value: Json, depth: nat)
    ensures var tree := Unfold(scope, value, depth);
            && !StandsForRef(tree)
            && (tree.Leaf? && tree.value.Str? <==> value.Str?)
  {
  }

  lemma FollowStands(scope: Scope, ref: string, depth: nat)
    ensures StandsForRef(Follow(scope, ref, depth))
  {
  }

  lemma ChildIs(scope: Scope, fields: map<string, Json>, key: string, depth: nat)
    requires key in fields
    ensures key in Unfold(scope, Obj(fields), depth).children
    ensures var child := Unfold(scope, Obj(fields), depth).children[key];
            && child == (if IsRef(key, fields[key]) then Follow(scope, fields[key].s, depth)
                         else Unfold(scope, fields[key], depth))
            && (StandsForRef(child) <==> IsRef(key, fields[key]))
            && (IsTitle(key, child) <==> key == "title" && fields[key].Str?)
  {
    if IsRef(key, fields[key]) {
      FollowStands(scope, fields[key].s, depth);
      assert |"$ref"| != |"title"|;
    } else {
      KindIsKept(scope, fields[key], depth);
    }
  }

  lemma OnlyRefersIffBare(scope: Scope, fields: map<string, Json>, depth: nat)
    ensures OnlyRefers(Unfold(scope, Obj(fields), depth).children) <==> IsBare(Obj(fields))
  {
    var children := Unfold(scope, Obj(fields), depth).children;
    forall k | k in fields {
      ChildIs(scope, fields, k, depth);
    }
    assert children.Keys == fields.Keys;
  }

  lemma ReadsBare(scope: Scope, value: Json, depth: nat)
    requires IsBare(value)
    ensures Reading(scope, value, depth) == ReadRef(scope, value.fields["$ref"].s, depth)
  {
    OnlyRefersIffBare(scope, value.fields, depth);
  }

  /** What is read under one key. */
  function ReadField(scope: Scope, key: string, entry: Json, depth: nat): Tree {
    if IsRef(key, entry) then ReadRef(scope, entry.s, depth) else Reading(scope, entry, depth)
  }

  lemma ReadsFields(scope: Scope, value: Json, depth: nat)
    requires value.Obj? && !IsBare(value)
    ensures Reading(scope, value, depth) ==
            Node(map k | k in value.fields :: ReadField(scope, k, value.fields[k], depth))
  {
    OnlyRefersIffBare(scope, value.fields, depth);
    var read := Reading(scope, value, depth);
    assert read.children == map k | k in value.fields :: ReadField(scope, k, value.fields[k], depth);
  }

  lemma ReadsItems(scope: Scope, items: seq<Json>, depth: nat)
    ensures Reading(scope, Arr(items), depth) ==
            List(seq(|items|, i requires 0 <= i < |items| => Reading(scope, items[i], depth)))
  {
    var read := Reading(scope, Arr(items), depth);
    assert read.items == seq(|items|, i requires 0 <= i < |items| => Reading(scope, items[i], depth));
  }

  lemma ReadsTarget(scope: Scope, ref: string, depth: nat)
    ensures ReadRef(scope, ref, depth) ==
            match Resolve(scope, ref)
            case None => Unresolved(ref)
            case Some(schema) => if depth == 0 then Cut else Reading(scope, schema, depth - 1)
  {
  }

  lemma ReadsThrough(scope: Scope, ref: string, depth: nat)
    requires Resolve(scope, ref).Some? && depth > 0
    ensures ReadRef(scope, ref, depth) == Reading(scope, Resolve(scope, ref).value, depth - 1)
  {
  }

  /** Equal unfoldings are read alike. */
  lemma MeansAsUnfolded(here: Scope, value: Json, middle: Scope, other: Json, there: Scope, last: Json)
    requires MeansAs(here, value, middle, other)
    requires forall e: nat :: Unfold(there, last, e) == Unfold(middle, other, e)
    ensures MeansAs(here, value, there, last)
  {
    forall e: nat
      ensures ReadsLike(middle, other, there, last, e)
    {
      assert Unfold(there, last, e) == Unfold(middle, other, e);
    }
    forall d: nat, e: nat
      ensures Agree(Either, Reading(here, value, d), Reading(there, last, e))
    {
      NoContradictionLike(here, value, middle, other, there, last, d, e);
    }
    forall d: nat {
      ShownThereLike(here, value, middle, other, there, last, d);
    }
    forall e: nat {
      ShownHereLike(here, value, middle, other, there, last, e);
    }
  }

  ghost predicate ReadsLike(middle: Scope, other: Json, there: Scope, last: Json, e: nat) {
    Reading(there, last, e) == Reading(middle, other, e)
  }

  lemma NoContradictionLike(
    here: Scope, value: Json, middle: Scope, other: Json, there: Scope, last: Json, d: nat, e: nat)
    requires NeverContradict(here, value, middle, other) && ReadsLike(middle, other, there, last, e)
    ensures Agree(Either, Reading(here, value, d), Reading(there, last, e))
  {
    assert Agree(Either, Reading(here, value, d), Reading(middle, other, e));
  }

  lemma ShownThereLike(here: Scope, value: Json, middle: Scope, other: Json, there: Scope, last: Json, d: nat)
    requires ShownThere(here, value, middle, other, d)
    requires forall e: nat :: ReadsLike(middle, other, there, last, e)
    ensures ShownThere(here, value, there, last, d)
  {
    var e: nat :| Agree(Here, Reading(here, value, d), Reading(middle, other, e));
    assert ReadsLike(middle, other, there, last, e);
    IsShownThere(here, value, there, last, d, e);
  }

  lemma ShownHereLike(here: Scope, value: Json, middle: Scope, other: Json, there: Scope, last: Json, e: nat)
    requires ShownHere(here, value, middle, other, e) && ReadsLike(middle, other, there, last, e)
    ensures ShownHere(here, value, there, last, e)
  {
    var d: nat :| Agree(There, Reading(here, value, d), Reading(middle, other, e));
    IsShownHere(here, value, there, last, d, e);
  }

  lemma IsShownThere(here: Scope, value: Json, there: Scope, other: Json, d: nat, e: nat)
    requires Agree(Here, Reading(here, value, d), Reading(there, other, e))
    ensures ShownThere(here, value, there, other, d)
  {
  }

  lemma IsShownHere(here: Scope, value: Json, there: Scope, other: Json, d: nat, e: nat)
    requires Agree(There, Reading(here, value, d), Reading(there, other, e))
    ensures ShownHere(here, value, there, other, e)
  {
  }

  lemma OneHopDeeper(scope: Scope, value: Json, depth: nat)
    requires IsBare(value) && Resolve(scope, value.fields["$ref"].s).Some?
    ensures Reading(scope, value, depth) ==
            if depth == 0 then Cut else Reading(scope, Resolve(scope, value.fields["$ref"].s).value, depth - 1)
  {
    ReadsBare(scope, value, depth);
    ReadsTarget(scope, value.fields["$ref"].s, depth);
  }

  /** `other` is a reference whose target reads as it does, one reference deeper. */
  ghost predicate HopsTo(there: Scope, other: Json, target: Json) {
    forall e: nat :: Reading(there, other, e) == if e == 0 then Cut else Reading(there, target, e - 1)
  }

  /** A hop on the far side makes no difference. */
  lemma MeansAsTarget(here: Scope, value: Json, there: Scope, other: Json)
    requires IsBare(other) && Resolve(there, other.fields["$ref"].s).Some?
    ensures MeansAs(here, value, there, other) <==>
            MeansAs(here, value, there, Resolve(there, other.fields["$ref"].s).value)
  {
    var target := Resolve(there, other.fields["$ref"].s).value;
    forall e: nat {
      OneHopDeeper(there, other, e);
    }
    assert HopsTo(there, other, target);
    if MeansAs(here, value, there, other) {
      TargetMeansToo(here, value, there, other, target);
    }
    if MeansAs(here, value, there, target) {
      HopMeansToo(here, value, there, other, target);
    }
  }

  lemma TargetMeansToo(here: Scope, value: Json, there: Scope, other: Json, target: Json)
    requires MeansAs(here, value, there, other) && HopsTo(there, other, target)
    ensures MeansAs(here, value, there, target)
  {
    forall d: nat, e: nat
      ensures Agree(Either, Reading(here, value, d), Reading(there, target, e))
    {
      HopReads(there, other, target, e);
      assert Agree(Either, Reading(here, value, d), Reading(there, other, e + 1));
    }
    forall d: nat
      ensures ShownThere(here, value, there, target, d)
    {
      assert Agree(Either, Reading(here, value, d), Reading(there, other, 1));
      TargetShows(here, value, there, other, target, d);
    }
    forall e: nat
      ensures ShownHere(here, value, there, target, e)
    {
      assert ShownHere(here, value, there, other, e + 1);
      var d: nat :| Agree(There, Reading(here, value, d), Reading(there, other, e + 1));
      HopReads(there, other, target, e);
      IsShownHere(here, value, there, target, d, e);
    }
  }

  lemma HopReads(there: Scope, other: Json, target: Json, e: nat)
    requires HopsTo(there, other, target)
    ensures Reading(there, other, e + 1) == Reading(there, target, e)
    ensures Reading(there, other, 0) == Cut
  {
  }

  lemma CutAgreesWith(there: Tree)
    requires Agree(Either, Cut, there)
    ensures Agree(Here, Cut, there)
  {
  }

  lemma OnlyCutAgrees(here: Tree)
    requires Agree(Here, here, Cut)
    ensures here == Cut
  {
  }

  lemma TargetShows(here: Scope, value: Json, there: Scope, other: Json, target: Json, d: nat)
    requires ShownThere(here, value, there, other, d) && HopsTo(there, other, target)
    requires Agree(Either, Reading(here, value, d), Reading(there, other, 1))
    ensures ShownThere(here, value, there, target, d)
  {
    var e: nat :| Agree(Here, Reading(here, value, d), Reading(there, other, e));
    if e == 0 {
      TargetShowsCut(here, value, there, other, target, d);
    } else {
      TargetShowsRest(here, value, there, other, target, d, e);
    }
  }

  lemma TargetShowsCut(here: Scope, value: Json, there: Scope, other: Json, target: Json, d: nat)
    requires HopsTo(there, other, target) && Agree(Here, Reading(here, value, d), Reading(there, other, 0))
    requires Agree(Either, Reading(here, value, d), Reading(there, other, 1))
    ensures ShownThere(here, value, there, target, d)
  {
    HopReads(there, other, target, 0);
    OnlyCutAgrees(Reading(here, value, d));
    CutAgreesWith(Reading(there, target, 0));
    IsShownThere(here, value, there, target, d, 0);
  }

  lemma TargetShowsRest(here: Scope, value: Json, there: Scope, other: Json, target: Json, d: nat, e: nat)
    requires e > 0 && HopsTo(there, other, target) && Agree(Here, Reading(here, value, d), Reading(there, other, e))
    ensures ShownThere(here, value, there, target, d)
  {
    HopReads(there, other, target, e - 1);
    IsShownThere(here, value, there, target, d, e - 1);
  }

  lemma HopMeansToo(here: Scope, value: Json, there: Scope, other: Json, target: Json)
    requires MeansAs(here, value, there, target) && HopsTo(there, other, target)
    ensures MeansAs(here, value, there, other)
  {
    HopReads(there, other, target, 0);
    forall d: nat, e: nat
      ensures Agree(Either, Reading(here, value, d), Reading(there, other, e))
    {
      if e == 0 {
        AgreesWithCut(Either, Reading(here, value, d));
      } else {
        HopReads(there, other, target, e - 1);
        assert Agree(Either, Reading(here, value, d), Reading(there, target, e - 1));
      }
    }
    forall d: nat
      ensures ShownThere(here, value, there, other, d)
    {
      assert ShownThere(here, value, there, target, d);
      var e: nat :| Agree(Here, Reading(here, value, d), Reading(there, target, e));
      HopReads(there, other, target, e);
      IsShownThere(here, value, there, other, d, e + 1);
    }
    forall e: nat
      ensures ShownHere(here, value, there, other, e)
    {
      HopIsShown(here, value, there, other, target, e);
    }
  }

  lemma HopIsShown(here: Scope, value: Json, there: Scope, other: Json, target: Json, e: nat)
    requires MeansAs(here, value, there, target) && HopsTo(there, other, target)
    ensures ShownHere(here, value, there, other, e)
  {
    if e == 0 {
      HopReads(there, other, target, 0);
      AgreesWithCut(There, Reading(here, value, 0));
      IsShownHere(here, value, there, other, 0, 0);
    } else {
      assert ShownHere(here, value, there, target, e - 1);
      var d: nat :| Agree(There, Reading(here, value, d), Reading(there, target, e - 1));
      HopReads(there, other, target, e - 1);
      IsShownHere(here, value, there, other, d, e);
    }
  }

  lemma DisagreesUnder(here: Tree, there: Tree, key: string)
    requires here.Node? && there.Node? && key in here.children && key in there.children
    requires !Agree(Either, here.children[key], there.children[key])
    ensures !Agree(Either, here, there)
  {
  }

  lemma DisagreesAt(here: Tree, there: Tree, key: string)
    requires here.Node? && there.Node? && key in here.children && key !in there.children && key != "title"
    ensures !Agree(Either, here, there)
  {
  }

  lemma AgreesWithCut(side: Side, here: Tree)
    requires !side.Here?
    ensures Agree(side, here, Cut)
  {
  }

  // ---------------------------------------------------------------------------
  // A reference that never ends means nothing but its like
  // ---------------------------------------------------------------------------

  /** A component that is a reference to itself shows nothing at any depth. */
  lemma {:induction false} LoopShowsNothing(schemas: map<string, JsonSchema>, name: string, depth: nat)
    requires name in schemas && schemas[name] == RefTo(name)
    ensures Reading(Components(schemas), RefTo(name), depth) == Cut
  {
    var scope := Components(schemas);
    assert (COMPONENTS_PREFIX + name)[|COMPONENTS_PREFIX|..] == name;
    assert IsBare(RefTo(name)) && Resolve(scope, COMPONENTS_PREFIX + name) == Some(RefTo(name));
    OneHopDeeper(scope, RefTo(name), depth);
    if depth > 0 {
      LoopShowsNothing(schemas, name, depth - 1);
    }
  }

  /** So only what shows nothing either means the same. */
  lemma LoopMeansNothing(here: Scope, value: Json, schemas: map<string, JsonSchema>, name: string)
    requires name in schemas && schemas[name] == RefTo(name)
    ensures MeansAs(here, value, Components(schemas), RefTo(name)) <==> forall d: nat :: Reading(here, value, d) == Cut
  {
    var there := Components(schemas);
    forall e: nat {
      LoopShowsNothing(schemas, name, e);
    }
    if MeansAs(here, value, there, RefTo(name)) {
      forall d: nat
        ensures Reading(here, value, d) == Cut
      {
        assert ShownThere(here, value, there, RefTo(name), d);
      }
    }
    if forall d: nat :: Reading(here, value, d) == Cut {
      assert Reading(here, value, 0) == Cut && Reading(there, RefTo(name), 0) == Cut;
      forall d: nat
        ensures ShownThere(here, value, there, RefTo(name), d)
      {
        assert Agree(Here, Reading(here, value, d), Reading(there, RefTo(name), 0));
      }
      forall e: nat
        ensures ShownHere(here, value, there, RefTo(name), e)
      {
        assert Agree(There, Reading(here, value, 0), Reading(there, RefTo(name), e));
      }
    }
  }
}
