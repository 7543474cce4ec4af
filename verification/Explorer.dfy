/** `OpenApiExplorer` and `PackageAssets`: the classes whose maps are the caches. */
module Explorer {
  import opened Prelude
  import opened Text
  import PC = PromiseCache

  /** `${prefix}\n${version ?? ''}` */
  function KeyOf(prefix: string, version: Option<string>): string {
    prefix + "\n" + version.GetOr("")
  }

  /** What an explorer is built from; `withPrefix` and `stringify` are the renderings it caches. */
  datatype Source<!D> = Source(
    base: D, versions: map<string, D>, withPrefix: (D, string) -> D, stringify: D -> string, hasRenderer: bool)
  {
    /** A version without a document of its own gets the primary one. */
    function Fresh(prefix: string, version: Option<string>): D {
      withPrefix(if version.Some? && version.value in versions then versions[version.value] else base, prefix)
    }
  }

  datatype Maps<!D> = Maps(documents: map<string, D>, json: map<string, string>)

  function AskDocument<D>(source: Source<D>, maps: Maps<D>, prefix: string, version: Option<string>): Maps<D> {
    var key := KeyOf(prefix, version);
    if key in maps.documents then maps
    else maps.(documents := maps.documents[key := source.Fresh(prefix, version)])
  }

  function AskJson<D>(source: Source<D>, maps: Maps<D>, prefix: string, version: Option<string>): Maps<D> {
    var key := KeyOf(prefix, version);
    if key in maps.json then maps
    else
      var asked := AskDocument(source, maps, prefix, version);
      asked.(json := asked.json[key := source.stringify(asked.documents[key])])
  }

  class OpenApiExplorer<D> {
    const source: Source<D>
    var documents: map<string, D>
    var json: map<string, string>
    var pages: map<string, nat>
    var promises: seq<PC.Promise>

    function View(): Maps<D>
      reads this
    {
      Maps(documents, json)
    }

    function Pages(): PC.Cache
      reads this
    {
      PC.Cache(pages, promises, 0)
    }

    constructor (source: Source<D>)
      ensures this.source == source && View() == Maps(map[], map[]) && Pages() == PC.EMPTY
    {
      this.source := source;
      documents, json, pages, promises := map[], map[], map[], [];
    }

    method Document(prefix: string, version: Option<string>) returns (document: D)
      modifies this`documents
      ensures View() == AskDocument(source, old(View()), prefix, version)
      ensures KeyOf(prefix, version) in documents && document == documents[KeyOf(prefix, version)]
      ensures KeyOf(prefix, version) in old(documents) ==> document == old(documents)[KeyOf(prefix, version)]
      ensures KeyOf(prefix, version) !in old(documents) && version.Some? && version.value in source.versions ==>
                document == source.withPrefix(source.versions[version.value], prefix)
      ensures KeyOf(prefix, version) !in old(documents) && !(version.Some? && version.value in source.versions) ==>
                document == source.withPrefix(source.base, prefix)
    {
      var key := KeyOf(prefix, version);
      if key in documents {
        return documents[key];
      }
      var generated := source.base;
      if version.Some? && version.value in source.versions {
        generated := source.versions[version.value];
      }
      document := source.withPrefix(generated, prefix);
      documents := documents[key := document];
    }

    method Json(prefix: string, version: Option<string>) returns (serialised: string)
      modifies this`documents, this`json
      ensures View() == AskJson(source, old(View()), prefix, version)
      ensures KeyOf(prefix, version) in json && serialised == json[KeyOf(prefix, version)]
    {
      var key := KeyOf(prefix, version);
      if key in json {
        return json[key];
      }
      var document := Document(prefix, version);
      serialised := source.stringify(document);
      json := json[key := serialised];
    }

    /** A cold page starts rendering at once, which reads the document unless there is no renderer. */
    method Page(prefix: string, version: Option<string>) returns (id: nat)
      modifies this`documents, this`pages, this`promises
      ensures Pages() == PC.Apply(true, old(Pages()), PC.Ask(KeyOf(prefix, version)))
      ensures id == PC.Answer(old(Pages()), KeyOf(prefix, version))
      ensures View() == if KeyOf(prefix, version) in old(pages) || !source.hasRenderer then old(View())
                        else AskDocument(source, old(View()), prefix, version)
    {
      var key := KeyOf(prefix, version);
      if key in pages {
        return pages[key];
      }
      if source.hasRenderer {
        var _ := Document(prefix, version);
      }
      id := |promises|;
      promises := promises + [PC.Promise(key, PC.Pending, false, 0)];
      pages := pages[key := id];
    }

    method Settled(id: nat, fulfils: bool)
      modifies this`promises
      ensures Pages() == PC.Apply(true, old(Pages()), PC.Settle(id, fulfils))
    {
      if id < |promises| && promises[id].status.Pending? {
        promises := promises[id := promises[id].(status := if fulfils then PC.Fulfilled else PC.Rejected)];
      }
    }

    /** The `catch` handler, with its identity check. */
    method Evict(id: nat)
      modifies this`pages, this`promises
      ensures Pages() == PC.Apply(true, old(Pages()), PC.Handle(id))
    {
      if id >= |promises| || !promises[id].status.Rejected? || promises[id].handled {
        return;
      }
      var key := promises[id].key;
      promises := promises[id := promises[id].(handled := true)];
      if key in pages && pages[key] == id {
        pages := pages - {key};
      }
    }
  }

  /** The static cache of `PackageAssets`, keyed by package name; `resets` counts the calls of `reset`. */
  class PackageAssets {
    var entries: map<string, nat>
    var promises: seq<PC.Promise>
    var resets: nat

    function View(): PC.Cache
      reads this
    {
      PC.Cache(entries, promises, resets)
    }

    constructor ()
      ensures View() == PC.EMPTY
    {
      entries, promises, resets := map[], [], 0;
    }

    method Resolve(name: string) returns (id: nat)
      modifies this`entries, this`promises
      ensures id == PC.Answer(old(View()), name)
      ensures View() == PC.Apply(false, old(View()), PC.Ask(name))
    {
      if name in entries {
        return entries[name];
      }
      id := |promises|;
      promises := promises + [PC.Promise(name, PC.Pending, false, resets)];
      entries := entries[name := id];
    }

    method Settled(id: nat, fulfils: bool)
      modifies this`promises
      ensures View() == PC.Apply(false, old(View()), PC.Settle(id, fulfils))
    {
      if id < |promises| && promises[id].status.Pending? {
        promises := promises[id := promises[id].(status := if fulfils then PC.Fulfilled else PC.Rejected)];
      }
    }

    /** The `catch` handler, which deletes whatever is cached under the name. */
    method Evict(id: nat)
      modifies this`entries, this`promises
      ensures View() == PC.Apply(false, old(View()), PC.Handle(id))
    {
      if id < |promises| && promises[id].status.Rejected? && !promises[id].handled {
        entries := entries - {promises[id].key};
        promises := promises[id := promises[id].(handled := true)];
      }
    }

    method Reset()
      modifies this`entries, this`resets
      ensures View() == PC.Apply(false, old(View()), PC.Reset)
    {
      entries := map[];
      resets := resets + 1;
    }
  }

  // ---------------------------------------------------------------------------
  // The cached answers are the computed ones
  // ---------------------------------------------------------------------------

  /** Prefixes without a line break keep keys apart; an absent version and the empty one share a key. */
  lemma KeysAreApart(p: string, v: Option<string>, q: string, w: Option<string>)
    requires Free(p, '\n') && Free(q, '\n')
    ensures KeyOf(p, v) == KeyOf(q, w) <==> p == q && v.GetOr("") == w.GetOr("")
  {
    var key, other := KeyOf(p, v), KeyOf(q, w);
    assert key[..|p|] == p && other[..|q|] == q;
    assert key[|p|] == '\n' && other[|q|] == '\n';
    assert |p| < |q| ==> other[|p|] == q[|p|];
    assert |q| < |p| ==> key[|q|] == p[|q|];
    if key == other {
      assert |p| == |q|;
      assert key[|p| + 1..] == v.GetOr("") && other[|q| + 1..] == w.GetOr("");
    }
  }

  lemma LineBreaksCollide(p: string, q: string, r: string)
    ensures KeyOf(p + "\n" + q, Some(r)) == KeyOf(p, Some(q + "\n" + r))
  {
    assert p + "\n" + q + "\n" + r == p + "\n" + (q + "\n" + r);
  }

  lemma SplitAt(s: string, i: nat)
    requires i < |s| && s[i] == '\n'
    ensures s == s[..i] + "\n" + s[i + 1..]
  {
  }

  /** A call shares its key with no other prefix exactly when neither its prefix nor its version has a line break. */
  lemma KeyIsItsOwnIff(p: string, v: Option<string>)
    ensures (forall q, w :: KeyOf(q, w) == KeyOf(p, v) ==> q == p) <==> Free(p, '\n') && Free(v.GetOr(""), '\n')
  {
    var version := v.GetOr("");
    if i :| 0 <= i < |p| && p[i] == '\n' {
      SplitAt(p, i);
      LineBreaksCollide(p[..i], p[i + 1..], version);
      assert KeyOf(p[..i], Some(p[i + 1..] + "\n" + version)) == KeyOf(p, v);
    } else if i :| 0 <= i < |version| && version[i] == '\n' {
      SplitAt(version, i);
      LineBreaksCollide(p, version[..i], version[i + 1..]);
      assert KeyOf(p + "\n" + version[..i], Some(version[i + 1..])) == KeyOf(p, v);
    } else {
      forall q, w | KeyOf(q, w) == KeyOf(p, v)
        ensures q == p
      {
        OneLineBreak(p, version, q, w.GetOr(""));
        assert KeyOf(q, w) == q + "\n" + w.GetOr("");
      }
    }
  }

  lemma OneLineBreak(p: string, v: string, q: string, w: string)
    requires Free(p, '\n') && Free(v, '\n')
    ensures p + "\n" + v == q + "\n" + w ==> q == p
  {
    var key, other := p + "\n" + v, q + "\n" + w;
    assert other[|q|] == '\n';
    assert forall i | 0 <= i < |p| :: key[i] == p[i];
    assert forall i | |p| < i < |key| :: key[i] == v[i - |p| - 1];
    if key == other {
      assert |q| == |p|;
      assert key[..|p|] == p && other[..|q|] == q;
    }
  }

  /** `page` asks for the document when it renders: when it has a renderer and no page under the key. */
  datatype Call =
    | DocumentCall(prefix: string, version: Option<string>)
    | JsonCall(prefix: string, version: Option<string>)
    | PageCall(prefix: string, version: Option<string>, renders: bool)

  function After<D>(source: Source<D>, calls: seq<Call>): Maps<D> {
    if calls == [] then Maps(map[], map[])
    else
      var before := After(source, calls[..|calls| - 1]);
      match calls[|calls| - 1]
      case DocumentCall(prefix, version) => AskDocument(source, before, prefix, version)
      case JsonCall(prefix, version) => AskJson(source, before, prefix, version)
      case PageCall(prefix, version, renders) =>
        if renders then AskDocument(source, before, prefix, version) else before
  }

  /** After a call for the longer prefix, the shorter one is answered with the longer one's document. */
  lemma LineBreakAnswersAnother<D>(source: Source<D>, p: string, q: string, r: string)
    ensures var maps := After(source, [DocumentCall(p + "\n" + q, Some(r))]);
            AskDocument(source, maps, p, Some(q + "\n" + r)).documents[KeyOf(p, Some(q + "\n" + r))] ==
            source.Fresh(p + "\n" + q, Some(r))
  {
    var call := DocumentCall(p + "\n" + q, Some(r));
    LineBreaksCollide(p, q, r);
    assert [call][..0] == [];
    assert After(source, [call]) == AskDocument(source, After(source, []), p + "\n" + q, Some(r));
  }

  /** A document that shows its prefix, and a history that answers it with another prefix's. */
  lemma WrongDocument()
    ensures var source := Source("", map[], (document: string, prefix: string) => prefix, (d: string) => d, false);
            var maps := After(source, [DocumentCall("a\nb", Some("c"))]);
            AskDocument(source, maps, "a", Some("b\nc")).documents[KeyOf("a", Some("b\nc"))] !=
            source.Fresh("a", Some("b\nc"))
  {
    var source := Source("", map[], (document: string, prefix: string) => prefix, (d: string) => d, false);
    assert "a" + "\n" + "b" == "a\nb" && "b" + "\n" + "c" == "b\nc";
    LineBreakAnswersAnother(source, "a", "b", "c");
  }

  ghost predicate Correct<D>(source: Source<D>, maps: Maps<D>) {
    forall p, v {:trigger KeyOf(p, v)} | Free(p, '\n') ::
      && (KeyOf(p, v) in maps.documents ==> maps.documents[KeyOf(p, v)] == source.Fresh(p, v))
      && (KeyOf(p, v) in maps.json ==> maps.json[KeyOf(p, v)] == source.stringify(source.Fresh(p, v)))
  }

  /** Asking for a version called '' gives the primary document, as asking for none does. */
  ghost predicate EmptyIsPrimary<D>(source: Source<D>) {
    forall p | Free(p, '\n') :: source.Fresh(p, Some("")) == source.Fresh(p, None)
  }

  lemma SameKeySameDocument<D>(source: Source<D>, p: string, v: Option<string>, q: string, w: Option<string>)
    requires EmptyIsPrimary(source)
    requires Free(p, '\n') && Free(q, '\n') && KeyOf(p, v) == KeyOf(q, w)
    ensures source.Fresh(p, v) == source.Fresh(q, w)
  {
    KeysAreApart(p, v, q, w);
  }

  lemma DocumentKeepsCorrect<D>(source: Source<D>, maps: Maps<D>, prefix: string, version: Option<string>)
    requires EmptyIsPrimary(source) && Free(prefix, '\n') && Correct(source, maps)
    ensures Correct(source, AskDocument(source, maps, prefix, version))
    ensures AskDocument(source, maps, prefix, version).documents[KeyOf(prefix, version)] == source.Fresh(prefix, version)
  {
    forall p, v | Free(p, '\n') && KeyOf(p, v) == KeyOf(prefix, version) {
      SameKeySameDocument(source, p, v, prefix, version);
    }
  }

  lemma JsonKeepsCorrect<D>(source: Source<D>, maps: Maps<D>, prefix: string, version: Option<string>)
    requires EmptyIsPrimary(source) && Free(prefix, '\n') && Correct(source, maps)
    ensures Correct(source, AskJson(source, maps, prefix, version))
    ensures AskJson(source, maps, prefix, version).json[KeyOf(prefix, version)] ==
            source.stringify(source.Fresh(prefix, version))
  {
    DocumentKeepsCorrect(source, maps, prefix, version);
    forall p, v | Free(p, '\n') && KeyOf(p, v) == KeyOf(prefix, version) {
      SameKeySameDocument(source, p, v, prefix, version);
    }
  }

  predicate CleanCalls(calls: seq<Call>) {
    forall i | 0 <= i < |calls| :: forall j | 0 <= j < |calls[i].prefix| :: calls[i].prefix[j] != '\n'
  }

  /** After these calls, document and serialisation are answered as recomputation would. */
  ghost predicate Recomputed<D>(source: Source<D>, calls: seq<Call>, prefix: string, version: Option<string>) {
    var maps, key := After(source, calls), KeyOf(prefix, version);
    && AskDocument(source, maps, prefix, version).documents[key] == source.Fresh(prefix, version)
    && AskJson(source, maps, prefix, version).json[key] == source.stringify(source.Fresh(prefix, version))
  }

  /** Over any history of calls, the next answer is what recomputing it would give. */
  lemma {:induction false} CachedIsRecomputed<D>(
    source: Source<D>, calls: seq<Call>, prefix: string, version: Option<string>)
    requires EmptyIsPrimary(source) && CleanCalls(calls) && Free(prefix, '\n')
    ensures Correct(source, After(source, calls)) && Recomputed(source, calls, prefix, version)
  {
    if calls != [] {
      var init, last := calls[..|calls| - 1], calls[|calls| - 1];
      CachedIsRecomputed(source, init, last.prefix, last.version);
      match last
      case DocumentCall(p, v) => DocumentKeepsCorrect(source, After(source, init), p, v);
      case JsonCall(p, v) => JsonKeepsCorrect(source, After(source, init), p, v);
      case PageCall(p, v, _) => DocumentKeepsCorrect(source, After(source, init), p, v);
    }
    DocumentKeepsCorrect(source, After(source, calls), prefix, version);
    JsonKeepsCorrect(source, After(source, calls), prefix, version);
  }

  /** A call that asks for no version, then one that asks for the version called '': the second is answered as the first. */
  lemma EmptyVersionIsAnsweredAsNone<D>(source: Source<D>, p: string)
    ensures AskDocument(source, After(source, [DocumentCall(p, None)]), p, Some("")).documents[KeyOf(p, Some(""))] ==
            source.Fresh(p, None)
  {
    var call := DocumentCall(p, None);
    assert [call][..0] == [];
    assert After(source, [call]) == AskDocument(source, After(source, []), p, None);
  }

  /**
   Every history without line breaks in its prefixes is answered as recomputed exactly when asking
   for '' gives the primary document.
   */
  lemma RecomputedIff<D>(source: Source<D>)
    ensures (forall calls, prefix, version | CleanCalls(calls) && Free(prefix, '\n') ::
               Recomputed(source, calls, prefix, version)) <==>
            EmptyIsPrimary(source)
  {
    if EmptyIsPrimary(source) {
      forall calls, prefix, version | CleanCalls(calls) && Free(prefix, '\n') {
        CachedIsRecomputed(source, calls, prefix, version);
      }
    } else {
      var p :| Free(p, '\n') && source.Fresh(p, Some("")) != source.Fresh(p, None);
      EmptyVersionIsAnsweredAsNone(source, p);
      assert CleanCalls([DocumentCall(p, None)]);
      assert !Recomputed(source, [DocumentCall(p, None)], p, Some(""));
    }
  }

  /** An explorer with a document for '', and the history that answers it with the primary one. */
  lemma EmptyVersionIsWrong()
    ensures var source := Source("primary", map["" := "other"], (d: string, p: string) => d, (d: string) => d, false);
            !Recomputed(source, [DocumentCall("a", None)], "a", Some(""))
  {
    var source := Source("primary", map["" := "other"], (d: string, p: string) => d, (d: string) => d, false);
    EmptyVersionIsAnsweredAsNone(source, "a");
    assert source.Fresh("a", None) == "primary" && source.Fresh("a", Some("")) == "other";
    assert |"primary"| != |"other"|;
  }
}
