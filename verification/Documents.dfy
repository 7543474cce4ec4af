/**
 A whole document: any sequence of conversions over one component store, then the pruning of
 what nothing reaches. Every answer goes on meaning what the vendor emitted for it.
 */
module Documents {
  import opened Prelude
  import opened Refs
  import opened Meaning
  import opened Convert
  import opened ConvertMeaning
  import opened VendorMeaning

  ghost predicate LandsIn(schemas: map<string, JsonSchema>, refs: set<string>) {
    forall r | r in refs && After(COMPONENTS_PREFIX, r).Some? :: After(COMPONENTS_PREFIX, r).value in schemas
  }

  ghost predicate StoreClosed(schemas: map<string, JsonSchema>) {
    forall k | k in schemas :: LandsIn(schemas, CollectRefs(schemas[k]))
  }

  ghost predicate Grew(small: map<string, JsonSchema>, large: map<string, JsonSchema>) {
    forall k | k in small :: k in large && large[k] == small[k]
  }

  lemma {:induction false} StoreStaysClosed(draft: Draft, before: map<string, JsonSchema>, registers: bool)
    requires WellEmitted(draft) && CollisionFree(draft, before, registers) && Lands(draft, before, registers)
    requires StoreClosed(before)
    ensures StoreClosed(draft.Stored(before, registers))
  {
    var after := draft.Stored(before, registers);
    NothingDanglesIffLands(draft, before, registers);
    forall k | k in after
      ensures LandsIn(after, CollectRefs(after[k]))
    {
      if k in before {
        assert LandsIn(before, CollectRefs(before[k]));
      } else if k in draft.Kept() {
        assert forall r | r in CollectRefs(after[k]) :: Leaves(draft, before, registers, r);
      } else {
        TitleKeepsRefs(k, draft.Rewritten(draft.Rest()));
        assert forall r | r in CollectRefs(after[k]) :: Leaves(draft, before, registers, r);
      }
    }
  }

  /** Once closed, a store gives one meaning however much is added to it. */
  lemma {:induction false} GrowthKeepsMeaning(
    small: map<string, JsonSchema>, large: map<string, JsonSchema>, value: Json, depth: nat)
    requires StoreClosed(small) && LandsIn(small, CollectRefs(value)) && Grew(small, large)
    ensures Unfold(Components(small), value, depth) == Unfold(Components(large), value, depth)
  {
    var refs := CollectRefs(value) + set k, r | k in small && r in CollectRefs(small[k]) :: r;
    forall r | r in refs
      ensures Resolve(Components(small), r) == Resolve(Components(large), r)
    {
      if r !in CollectRefs(value) {
        var k :| k in small && r in CollectRefs(small[k]);
        assert LandsIn(small, CollectRefs(small[k]));
      }
    }
    AgreeingStores(small, large, refs, value, depth);
  }

  lemma RefToLands(schemas: map<string, JsonSchema>, name: string)
    requires name in schemas
    ensures LandsIn(schemas, CollectRefs(RefTo(name)))
  {
    ComponentRef(name);
  }

  lemma RootLands(draft: Draft, before: map<string, JsonSchema>, registers: bool)
    requires NothingDangles(draft, before, registers)
    ensures LandsIn(draft.Stored(before, registers), CollectRefs(draft.Rewritten(draft.Rest())))
  {
    forall r | r in CollectRefs(draft.Rewritten(draft.Rest()))
      ensures Leaves(draft, before, registers, r)
    {
    }
  }

  // ---------------------------------------------------------------------------
  // Any sequence of calls
  // ---------------------------------------------------------------------------

  /** A call of `convertObject`, for parameters, or of `convertSchema`. */
  datatype Call = Call(draft: Draft, parameters: bool)

  function Registers(call: Call, before: map<string, JsonSchema>): bool {
    if call.parameters then call.draft.SelfReferential() else call.draft.SchemaRegisters(before)
  }

  function StoreAfter(call: Call, before: map<string, JsonSchema>): map<string, JsonSchema> {
    call.draft.Stored(before, Registers(call, before))
  }

  /** The store after these calls. */
  function StoreOf(start: map<string, JsonSchema>, calls: seq<Call>): map<string, JsonSchema> {
    if calls == [] then start
    else StoreAfter(calls[|calls| - 1], StoreOf(start, calls[..|calls| - 1]))
  }

  ghost predicate CallIsFine(call: Call, before: map<string, JsonSchema>) {
    && WellEmitted(call.draft)
    && CollisionFree(call.draft, before, Registers(call, before))
    && Lands(call.draft, before, Registers(call, before))
  }

  ghost predicate CallsAreFine(start: map<string, JsonSchema>, calls: seq<Call>) {
    calls != [] ==>
      && CallsAreFine(start, calls[..|calls| - 1])
      && CallIsFine(calls[|calls| - 1], StoreOf(start, calls[..|calls| - 1]))
  }

  function PropertiesOf(schema: JsonSchema): Option<Json> {
    if HasProperties(schema) then Some(schema.fields["properties"]) else None
  }

  /** What goes into the document: the answer of `convertSchema`, the properties `convertObject` read. */
  function Answered(call: Call, before: map<string, JsonSchema>): Option<Json> {
    if !call.parameters then Some(call.draft.SchemaAnswer(before))
    else PropertiesOf(call.draft.ObjectRead(before))
  }

  /** What the vendor emitted for it. */
  function Meant(call: Call): Option<Json> {
    if !call.parameters then Some(call.draft.root)
    else PropertiesOf(VendorObject(call.draft))
  }

  predicate ReadsParameters(call: Call) {
    call.parameters ==> PlainReferences(call.draft) && EndsInTime(call.draft)
  }

  lemma AnswerIsMeant(call: Call, before: map<string, JsonSchema>)
    requires CallIsFine(call, before) && ReadsParameters(call)
    ensures Answered(call, before).Some? <==> Meant(call).Some?
    ensures Meant(call).Some? ==>
              MeansAs(Vendor(call.draft), Meant(call).value,
                      Components(StoreAfter(call, before)), Answered(call, before).value)
  {
    if call.parameters {
      PropertiesAreMeant(call.draft, before);
    } else {
      SchemaAnswerMeaning(call.draft, before);
    }
  }

  lemma PropertiesLand(schemas: map<string, JsonSchema>, schema: JsonSchema)
    requires LandsIn(schemas, CollectRefs(schema)) && HasProperties(schema)
    ensures LandsIn(schemas, CollectRefs(schema.fields["properties"]))
  {
    assert |"properties"| != |"$ref"|;
    FieldRefs(schema.fields, "properties");
  }

  lemma AnswerLands(call: Call, before: map<string, JsonSchema>)
    requires CallIsFine(call, before) && StoreClosed(before) && Answered(call, before).Some?
    ensures LandsIn(StoreAfter(call, before), CollectRefs(Answered(call, before).value))
  {
    var draft, registers := call.draft, Registers(call, before);
    var after := draft.Stored(before, registers);
    NothingDanglesIffLands(draft, before, registers);
    RootLands(draft, before, registers);
    if call.parameters {
      StoreStaysClosed(draft, before, registers);
      PropertiesLand(after, draft.ObjectRead(before));
    } else if registers {
      RefToLands(after, draft.Name());
    }
  }

  lemma StoredGrows(call: Call, before: map<string, JsonSchema>)
    ensures Grew(before, StoreAfter(call, before))
  {
  }

  /** Along any calls the store stays closed, and only grows from what it was after the first `i`. */
  lemma {:induction false} StoreGrowsClosed(start: map<string, JsonSchema>, calls: seq<Call>, i: nat)
    requires StoreClosed(start) && CallsAreFine(start, calls) && i <= |calls|
    ensures CallsAreFine(start, calls[..i]) && StoreClosed(StoreOf(start, calls[..i]))
    ensures Grew(StoreOf(start, calls[..i]), StoreOf(start, calls))
    ensures i < |calls| ==> CallIsFine(calls[i], StoreOf(start, calls[..i]))
    decreases |calls|
  {
    if calls == [] {
      assert calls[..i] == calls;
    } else {
      var init, last := calls[..|calls| - 1], calls[|calls| - 1];
      var before := StoreOf(start, init);
      StoreGrowsClosed(start, init, if i < |calls| then i else |init|);
      StoredGrows(last, before);
      if i < |calls| {
        assert init[..i] == calls[..i];
      } else {
        assert init[..|init|] == init && calls[..i] == calls;
        StoreStaysClosed(last.draft, before, Registers(last, before));
      }
    }
  }

  lemma StoreAfterOne(start: map<string, JsonSchema>, calls: seq<Call>, i: nat)
    requires i < |calls|
    ensures StoreOf(start, calls[..i + 1]) == StoreAfter(calls[i], StoreOf(start, calls[..i]))
  {
    assert calls[..i + 1][..i] == calls[..i];
  }

  /**
   In the finished document - after all the calls on the store, and with the orphans pruned -
   what any one call answered means what the vendor emitted for it.
   */
  lemma DocumentMeaning(
    start: map<string, JsonSchema>, calls: seq<Call>, i: nat, document: Json, pruned: map<string, JsonSchema>)
    requires StoreClosed(start) && CallsAreFine(start, calls)
    requires i < |calls| && ReadsParameters(calls[i]) && Meant(calls[i]).Some?
    requires var answer := Answered(calls[i], StoreOf(start, calls[..i]));
             answer.Some? ==> CollectRefs(answer.value) <= CollectRefs(document)
    requires forall k | k in pruned :: k in StoreOf(start, calls) && pruned[k] == StoreOf(start, calls)[k]
    requires forall k | k in StoreOf(start, calls) && Reachable(document, StoreOf(start, calls), k) :: k in pruned
    ensures Answered(calls[i], StoreOf(start, calls[..i])).Some?
    ensures MeansAs(
              Vendor(calls[i].draft), Meant(calls[i]).value,
              Components(pruned), Answered(calls[i], StoreOf(start, calls[..i])).value)
  {
    var call, before := calls[i], StoreOf(start, calls[..i]);
    StoreGrowsClosed(start, calls, i);
    StoreGrowsClosed(start, calls, i + 1);
    StoreAfterOne(start, calls, i);
    AnswerIsMeant(call, before);
    AnswerLands(call, before);
    var after, answer := StoreAfter(call, before), Answered(call, before).value;
    forall e: nat
      ensures Unfold(Components(pruned), answer, e) == Unfold(Components(after), answer, e)
    {
      GrowthKeepsMeaning(after, StoreOf(start, calls), answer, e);
      PruningKeepsMeaning(document, StoreOf(start, calls), pruned, answer, e);
    }
    MeansAsUnfolded(Vendor(call.draft), Meant(call).value, Components(after), answer, Components(pruned), answer);
  }
}
