/**
 `matchBoard` of `board.ts`: a route table compiled to patterns, sorted most specific first and
 scanned, with a shortcut for a path that is literally a key of the table.
 */
module Board {
  import opened Prelude
  import opened Text

  /** One entry of the table; `handlers` maps a method to its handler. */
  datatype Route<H> = Route(key: string, handlers: map<string, H>)

  datatype Pattern<H> = Pattern(segments: seq<string>, wildcard: bool, literals: nat, handlers: map<string, H>)

  datatype Match<H> = Match(handler: H, params: map<string, string>)

  predicate IsParam(segment: string) {
    segment != "" && segment[0] == ':'
  }

  /** `split('/').filter(Boolean)` */
  function Segments(path: string): seq<string> {
    NonEmpty(Split(path, '/'))
  }

  function Literals(segments: seq<string>): nat {
    if segments == [] then 0
    else (if IsParam(segments[0]) then 0 else 1) + Literals(segments[1..])
  }

  function CompileOne<H>(route: Route<H>): Pattern<H> {
    var raw := Segments(route.key);
    var wildcard := raw != [] && raw[|raw| - 1] == "*";
    var segments := if wildcard then raw[..|raw| - 1] else raw;
    Pattern(segments, wildcard, Literals(segments), route.handlers)
  }

  function CompileAll<H>(routes: seq<Route<H>>): seq<Pattern<H>> {
    seq(|routes|, i requires 0 <= i < |routes| => CompileOne(routes[i]))
  }

  /** The comparator: most literal, then longest, then without a wildcard. */
  function Compare<H>(a: Pattern<H>, b: Pattern<H>): int {
    if a.literals != b.literals then b.literals - a.literals
    else if |a.segments| != |b.segments| then |b.segments| - |a.segments|
    else (if a.wildcard then 1 else 0) - (if b.wildcard then 1 else 0)
  }

  function Insert<H>(p: Pattern<H>, sorted: seq<Pattern<H>>): seq<Pattern<H>> {
    if sorted == [] || Compare(p, sorted[0]) <= 0 then [p] + sorted
    else [sorted[0]] + Insert(p, sorted[1..])
  }

  /** The stable sort: the one arrangement that is in order and keeps equals as they stood. */
  function Sorted<H>(patterns: seq<Pattern<H>>): seq<Pattern<H>> {
    if patterns == [] then [] else Insert(patterns[0], Sorted(patterns[1..]))
  }

  function Compile<H>(routes: seq<Route<H>>): seq<Pattern<H>> {
    Sorted(CompileAll(routes))
  }

  /** Equal on literals, length and wildcard: only the table's order tells them apart. */
  function Ties<H>(p: Pattern<H>, patterns: seq<Pattern<H>>): seq<Pattern<H>> {
    if patterns == [] then []
    else (if Compare(p, patterns[0]) == 0 then [patterns[0]] else []) + Ties(p, patterns[1..])
  }

  ghost predicate InOrder<H>(patterns: seq<Pattern<H>>) {
    patterns != [] ==>
      && (forall q | q in patterns[1..] :: Compare(patterns[0], q) <= 0)
      && InOrder(patterns[1..])
  }

  lemma {:induction false} InsertIsIn<H>(p: Pattern<H>, sorted: seq<Pattern<H>>, q: Pattern<H>)
    ensures q in Insert(p, sorted) <==> q == p || q in sorted
  {
    if sorted != [] && Compare(p, sorted[0]) > 0 {
      InsertIsIn(p, sorted[1..], q);
    }
  }

  lemma {:induction false} InsertSorts<H>(p: Pattern<H>, sorted: seq<Pattern<H>>)
    requires InOrder(sorted)
    ensures InOrder(Insert(p, sorted))
  {
    if sorted == [] {
    } else if Compare(p, sorted[0]) <= 0 {
      assert Insert(p, sorted)[1..] == sorted;
      assert sorted == [sorted[0]] + sorted[1..];
    } else {
      InsertSorts(p, sorted[1..]);
      var rest := Insert(p, sorted[1..]);
      assert Insert(p, sorted)[1..] == rest;
      forall q | q in rest
        ensures Compare(sorted[0], q) <= 0
      {
        InsertIsIn(p, sorted[1..], q);
      }
    }
  }

  lemma {:induction false} InsertKeepsTies<H>(p: Pattern<H>, sorted: seq<Pattern<H>>, x: Pattern<H>)
    ensures Ties(x, Insert(p, sorted)) == (if Compare(x, p) == 0 then [p] else []) + Ties(x, sorted)
  {
    if sorted == [] {
    } else if Compare(p, sorted[0]) <= 0 {
      assert Insert(p, sorted)[1..] == sorted;
    } else {
      InsertKeepsTies(p, sorted[1..], x);
      assert Insert(p, sorted)[1..] == Insert(p, sorted[1..]);
    }
  }

  lemma {:induction false} SortedInOrder<H>(patterns: seq<Pattern<H>>)
    ensures InOrder(Sorted(patterns))
  {
    if patterns != [] {
      SortedInOrder(patterns[1..]);
      InsertSorts(patterns[0], Sorted(patterns[1..]));
    }
  }

  /** The same patterns, and ties left as the table has them. */
  lemma {:induction false} SortedIsStable<H>(patterns: seq<Pattern<H>>, x: Pattern<H>)
    ensures x in Sorted(patterns) <==> x in patterns
    ensures Ties(x, Sorted(patterns)) == Ties(x, patterns)
  {
    if patterns != [] {
      SortedIsStable(patterns[1..], x);
      InsertIsIn(patterns[0], Sorted(patterns[1..]), x);
      InsertKeepsTies(patterns[0], Sorted(patterns[1..]), x);
    }
  }

  // ---------------------------------------------------------------------------
  // Matching one pattern
  // ---------------------------------------------------------------------------

  predicate LengthFits<H>(pattern: Pattern<H>, path: seq<string>) {
    if pattern.wildcard then |path| >= |pattern.segments| else |path| == |pattern.segments|
  }

  predicate Fits<H>(pattern: Pattern<H>, path: seq<string>) {
    && LengthFits(pattern, path)
    && forall i | 0 <= i < |pattern.segments| :: IsParam(pattern.segments[i]) || pattern.segments[i] == path[i]
  }

  function ParamNames(segments: seq<string>): set<string> {
    set s | s in segments && IsParam(s) :: s[1..]
  }

  function ParamsOf(segments: seq<string>, path: seq<string>, decode: string -> string): map<string, string>
    requires |segments| <= |path|
  {
    if segments == [] then map[]
    else
      var last := |segments| - 1;
      var params := ParamsOf(segments[..last], path, decode);
      if IsParam(segments[last]) then params[segments[last][1..] := decode(path[last])] else params
  }

  /** Each parameter has the decoded value of the last segment that bears its name, and there is no other. */
  ghost predicate AreDecoded(
    params: map<string, string>, segments: seq<string>, path: seq<string>, decode: string -> string)
  {
    && params.Keys == ParamNames(segments) && |segments| <= |path|
    && forall i: nat | IsLastOf(segments, i) ::
         segments[i][1..] in params && params[segments[i][1..]] == decode(path[i])
  }

  /** The last segment that bears its name. */
  ghost predicate IsLastOf(segments: seq<string>, i: nat) {
    i < |segments| && IsParam(segments[i]) && forall j | i < j < |segments| :: segments[j] != segments[i]
  }

  lemma LastOfLonger(init: seq<string>, last: string, i: nat)
    requires IsLastOf(init + [last], i) && i < |init|
    ensures IsLastOf(init, i) && (IsParam(last) ==> last[1..] != init[i][1..])
  {
    var all := init + [last];
    assert all[|init|] == last && all[i] == init[i];
    forall j | i < j < |init|
      ensures init[j] != init[i]
    {
      assert all[j] == init[j];
    }
    if IsParam(last) {
      SameName(init[i], last);
    }
  }

  lemma {:induction false} ParamsAreDecoded(segments: seq<string>, path: seq<string>, decode: string -> string)
    requires |segments| <= |path|
    ensures AreDecoded(ParamsOf(segments, path, decode), segments, path, decode)
  {
    if segments != [] {
      var n := |segments| - 1;
      var init, last := segments[..n], segments[n];
      ParamsAreDecoded(init, path, decode);
      assert segments == init + [last];
      NamesOneMore(init, last);
      var params := ParamsOf(segments, path, decode);
      forall i: nat | IsLastOf(segments, i)
        ensures segments[i][1..] in params && params[segments[i][1..]] == decode(path[i])
      {
        if i < n {
          LastOfLonger(init, last, i);
        }
      }
    }
  }

  lemma SameName(a: string, b: string)
    requires IsParam(a) && IsParam(b) && a != b
    ensures a[1..] != b[1..]
  {
    assert a == [':'] + a[1..] && b == [':'] + b[1..];
  }

  lemma NamesOneMore(init: seq<string>, last: string)
    ensures ParamNames(init + [last]) == ParamNames(init) + if IsParam(last) then {last[1..]} else {}
  {
  }

  method MatchParams<H>(pattern: Pattern<H>, path: seq<string>, decode: string -> string)
    returns (params: Option<map<string, string>>)
    ensures params == if Fits(pattern, path) then Some(ParamsOf(pattern.segments, path, decode)) else None
    ensures params.Some? ==> AreDecoded(params.value, pattern.segments, path, decode)
  {
    if pattern.wildcard {
      if |path| < |pattern.segments| {
        return None;
      }
    } else if |path| != |pattern.segments| {
      return None;
    }
    var filled: map<string, string> := map[];
    var i := 0;
    while i < |pattern.segments|
      invariant 0 <= i <= |pattern.segments|
      invariant filled == ParamsOf(pattern.segments[..i], path, decode)
      invariant forall j | 0 <= j < i :: IsParam(pattern.segments[j]) || pattern.segments[j] == path[j]
    {
      var segment, value := pattern.segments[i], path[i];
      assert pattern.segments[..i + 1][..i] == pattern.segments[..i];
      if IsParam(segment) {
        filled := filled[segment[1..] := decode(value)];
      } else if segment != value {
        return None;
      }
      i := i + 1;
    }
    assert pattern.segments[..i] == pattern.segments;
    ParamsAreDecoded(pattern.segments, path, decode);
    return Some(filled);
  }

  // ---------------------------------------------------------------------------
  // Dispatch
  // ---------------------------------------------------------------------------

  predicate Accepts<H>(pattern: Pattern<H>, verb: string, path: seq<string>) {
    Fits(pattern, path) && verb in pattern.handlers
  }

  function FirstAccepting<H>(patterns: seq<Pattern<H>>, verb: string, path: seq<string>): (found: Option<Pattern<H>>)
    ensures found.Some? ==> found.value in patterns && Accepts(found.value, verb, path)
  {
    if patterns == [] then None
    else if Accepts(patterns[0], verb, path) then Some(patterns[0])
    else FirstAccepting(patterns[1..], verb, path)
  }

  function MatchOf<H>(pattern: Pattern<H>, verb: string, path: seq<string>, decode: string -> string): Match<H>
    requires Accepts(pattern, verb, path)
  {
    Match(pattern.handlers[verb], ParamsOf(pattern.segments, path, decode))
  }

  function Scan<H>(routes: seq<Route<H>>, verb: string, path: seq<string>, decode: string -> string): Option<Match<H>> {
    var found := FirstAccepting(Compile(routes), verb, path);
    if found.None? then None else Some(MatchOf(found.value, verb, path, decode))
  }

  /** A table is an object: no key twice. */
  ghost predicate IsTable<H>(routes: seq<Route<H>>) {
    forall i, j | 0 <= i < j < |routes| :: routes[i].key != routes[j].key
  }

  function Lookup<H>(routes: seq<Route<H>>, key: string): Option<Route<H>> {
    if routes == [] then None
    else if routes[0].key == key then Some(routes[0])
    else Lookup(routes[1..], key)
  }

  function Shortcut<H>(routes: seq<Route<H>>, verb: string, pathname: string): Option<Match<H>> {
    var exact := Lookup(routes, pathname);
    if exact.Some? && verb in exact.value.handlers then Some(Match(exact.value.handlers[verb], map[])) else None
  }

  lemma FirstAcceptingFrom<H>(patterns: seq<Pattern<H>>, i: nat, verb: string, path: seq<string>)
    requires i < |patterns|
    ensures FirstAccepting(patterns[i..], verb, path) ==
            if Accepts(patterns[i], verb, path) then Some(patterns[i])
            else FirstAccepting(patterns[i + 1..], verb, path)
  {
    assert patterns[i..][1..] == patterns[i + 1..];
  }

  /** No entry under this very path has a handler for the method. */
  ghost predicate NotAKey<H>(routes: seq<Route<H>>, verb: string, pathname: string) {
    forall i | 0 <= i < |routes| && routes[i].key == pathname :: verb !in routes[i].handlers
  }

  lemma {:induction false} LookupIs<H>(routes: seq<Route<H>>, key: string)
    ensures var found := Lookup(routes, key);
            if found.Some? then found.value in routes && found.value.key == key
            else forall i | 0 <= i < |routes| :: routes[i].key != key
  {
    if routes != [] {
      LookupIs(routes[1..], key);
    }
  }

  lemma ShortcutIs<H>(routes: seq<Route<H>>, verb: string, pathname: string)
    ensures NotAKey(routes, verb, pathname) ==> Shortcut(routes, verb, pathname).None?
    ensures IsTable(routes) ==>
              forall i | 0 <= i < |routes| && routes[i].key == pathname && verb in routes[i].handlers ::
                Shortcut(routes, verb, pathname) == Some(Match(routes[i].handlers[verb], map[]))
  {
    LookupIs(routes, pathname);
    if IsTable(routes) {
      forall i | 0 <= i < |routes| {
        LookupFinds(routes, i);
      }
    }
  }

  method MatchBoard<H>(routes: seq<Route<H>>, verb: string, pathname: string, decode: string -> string)
    returns (m: Option<Match<H>>)
    ensures m == if Shortcut(routes, verb, pathname).Some? then Shortcut(routes, verb, pathname)
                 else Scan(routes, verb, Segments(pathname), decode)
    ensures IsTable(routes) ==>
              forall i | 0 <= i < |routes| && routes[i].key == pathname && verb in routes[i].handlers ::
                m == Some(Match(routes[i].handlers[verb], map[]))
    ensures NotAKey(routes, verb, pathname) ==> ScanAnswers(routes, verb, Segments(pathname), decode, m)
    ensures NotAKey(routes, verb, pathname) ==> GivesValuesBack(routes, verb, Segments(pathname), decode, m)
  {
    ShortcutIs(routes, verb, pathname);
    ScanIsMostSpecific(routes, verb, Segments(pathname), decode);
    ScanGivesValuesBack(routes, verb, Segments(pathname), decode);
    var exact := Lookup(routes, pathname);
    if exact.Some? && verb in exact.value.handlers {
      return Some(Match(exact.value.handlers[verb], map[]));
    }
    var path, patterns := Segments(pathname), Compile(routes);
    var i := 0;
    assert patterns[0..] == patterns;
    while i < |patterns|
      invariant 0 <= i <= |patterns|
      invariant FirstAccepting(patterns, verb, path) == FirstAccepting(patterns[i..], verb, path)
    {
      FirstAcceptingFrom(patterns, i, verb, path);
      var params := MatchParams(patterns[i], path, decode);
      if params.Some? && verb in patterns[i].handlers {
        return Some(Match(patterns[i].handlers[verb], params.value));
      }
      i := i + 1;
    }
    return None;
  }

  lemma {:induction false} FirstAcceptingIsFirst<H>(patterns: seq<Pattern<H>>, verb: string, path: seq<string>)
    requires InOrder(patterns)
    ensures
      match FirstAccepting(patterns, verb, path)
      case Some(p) =>
        && (forall q | q in patterns && Accepts(q, verb, path) :: Compare(p, q) <= 0)
        && FirstAccepting(Ties(p, patterns), verb, path) == Some(p)
      case None => forall q | q in patterns :: !Accepts(q, verb, path)
  {
    if patterns != [] {
      var head, tail := patterns[0], patterns[1..];
      assert patterns == [head] + tail;
      if !Accepts(head, verb, path) {
        FirstAcceptingIsFirst(tail, verb, path);
        var found := FirstAccepting(tail, verb, path);
        if found.Some? {
          var ties := Ties(found.value, patterns);
          assert Compare(found.value, head) == 0 ==>
                   ties == [head] + Ties(found.value, tail) && ties[1..] == Ties(found.value, tail);
          assert Compare(found.value, head) != 0 ==> ties == Ties(found.value, tail);
        }
      }
    }
  }

  ghost predicate MostSpecific<H>(patterns: seq<Pattern<H>>, verb: string, path: seq<string>, p: Pattern<H>) {
    && p in patterns && Accepts(p, verb, path)
    && (forall q | q in patterns && Accepts(q, verb, path) :: Compare(p, q) <= 0)
    && FirstAccepting(Ties(p, patterns), verb, path) == Some(p)
  }

  lemma FirstOfSorted<H>(all: seq<Pattern<H>>, verb: string, path: seq<string>)
    ensures var found := FirstAccepting(Sorted(all), verb, path);
            && (found.Some? ==> MostSpecific(all, verb, path, found.value))
            && (found.None? ==> forall q | q in all :: !Accepts(q, verb, path))
  {
    var sorted := Sorted(all);
    SortedInOrder(all);
    FirstAcceptingIsFirst(sorted, verb, path);
    forall q | q in all
      ensures q in sorted
    {
      SortedIsStable(all, q);
    }
    var found := FirstAccepting(sorted, verb, path);
    if found.Some? {
      SortedIsStable(all, found.value);
    }
  }

  /** Of equally specific patterns that accept the path, the first in the table. */
  lemma {:induction false} FirstTie<H>(patterns: seq<Pattern<H>>, verb: string, path: seq<string>, p: Pattern<H>)
    returns (i: nat)
    requires FirstAccepting(Ties(p, patterns), verb, path) == Some(p)
    ensures i < |patterns| && patterns[i] == p
    ensures forall j | 0 <= j < i && Accepts(patterns[j], verb, path) :: Compare(p, patterns[j]) != 0
  {
    var head, tail := patterns[0], patterns[1..];
    if Compare(p, head) == 0 {
      assert Ties(p, patterns) == [head] + Ties(p, tail);
      assert ([head] + Ties(p, tail))[1..] == Ties(p, tail);
    } else {
      assert [] + Ties(p, tail) == Ties(p, tail);
    }
    if Compare(p, head) == 0 && Accepts(head, verb, path) {
      i := 0;
    } else {
      i := FirstTie(tail, verb, path, p);
      i := i + 1;
    }
  }

  /** More literals; or as many and more segments; or as many of both and a wildcard only against a wildcard. */
  ghost predicate AsSpecific<H>(p: Pattern<H>, q: Pattern<H>) {
    || p.literals > q.literals
    || (p.literals == q.literals && |p.segments| > |q.segments|)
    || (p.literals == q.literals && |p.segments| == |q.segments| && (p.wildcard ==> q.wildcard))
  }

  /** Route `i` accepts the path, and any other that does is less specific, or as specific and later in the table. */
  ghost predicate Wins<H>(routes: seq<Route<H>>, verb: string, path: seq<string>, i: nat) {
    && i < |routes| && Accepts(CompileOne(routes[i]), verb, path)
    && (forall j | 0 <= j < |routes| && Accepts(CompileOne(routes[j]), verb, path) ::
          AsSpecific(CompileOne(routes[i]), CompileOne(routes[j])))
    && (forall j | 0 <= j < i && Accepts(CompileOne(routes[j]), verb, path) ::
          !AsSpecific(CompileOne(routes[j]), CompileOne(routes[i])))
  }

  lemma OneWinner<H>(routes: seq<Route<H>>, verb: string, path: seq<string>, i: nat, j: nat)
    requires Wins(routes, verb, path, i) && Wins(routes, verb, path, j)
    ensures i == j
  {
  }

  lemma FoundWins<H>(routes: seq<Route<H>>, verb: string, path: seq<string>) returns (i: nat)
    requires FirstAccepting(Compile(routes), verb, path).Some?
    ensures Wins(routes, verb, path, i) && FirstAccepting(Compile(routes), verb, path) == Some(CompileOne(routes[i]))
  {
    var all, p := CompileAll(routes), FirstAccepting(Compile(routes), verb, path).value;
    FirstOfSorted(all, verb, path);
    i := FirstTie(all, verb, path, p);
    forall j | 0 <= j < |routes| && Accepts(CompileOne(routes[j]), verb, path)
      ensures AsSpecific(p, CompileOne(routes[j])) && (j < i ==> !AsSpecific(CompileOne(routes[j]), p))
    {
      assert all[j] in all && all[j] == CompileOne(routes[j]);
    }
  }

  /** What a scan of the table answers: the winner's handler and the decoded parameters; nothing only if nothing accepts. */
  ghost predicate ScanAnswers<H>(
    routes: seq<Route<H>>, verb: string, path: seq<string>, decode: string -> string, m: Option<Match<H>>)
  {
    match m
    case None => forall i | 0 <= i < |routes| :: !Accepts(CompileOne(routes[i]), verb, path)
    case Some(found) => exists i: nat :: Wins(routes, verb, path, i) && IsMatchOf(routes[i], verb, path, decode, found)
  }

  ghost predicate IsMatchOf<H>(route: Route<H>, verb: string, path: seq<string>, decode: string -> string, m: Match<H>) {
    && verb in route.handlers && m.handler == route.handlers[verb]
    && AreDecoded(m.params, CompileOne(route).segments, path, decode)
  }

  /** The scan answers with the most specific route that accepts the path, of equals the first in the table. */
  lemma ScanIsMostSpecific<H>(routes: seq<Route<H>>, verb: string, path: seq<string>, decode: string -> string)
    ensures ScanAnswers(routes, verb, path, decode, Scan(routes, verb, path, decode))
  {
    if FirstAccepting(Compile(routes), verb, path).Some? {
      var i := FoundWins(routes, verb, path);
      var p := CompileOne(routes[i]);
      ParamsAreDecoded(p.segments, path, decode);
      assert IsMatchOf(routes[i], verb, path, decode, MatchOf(p, verb, path, decode));
    } else {
      FirstOfSorted(CompileAll(routes), verb, path);
      forall i | 0 <= i < |routes|
        ensures !Accepts(CompileOne(routes[i]), verb, path)
      {
        assert CompileAll(routes)[i] in CompileAll(routes);
      }
    }
  }

  /** The path is the winner's pattern with each parameter replaced by its value. */
  ghost predicate FillsWinner<H>(
    routes: seq<Route<H>>, verb: string, path: seq<string>, i: nat, values: map<string, string>, rest: seq<string>)
  {
    && Wins(routes, verb, path, i)
    && ParamNames(CompileOne(routes[i]).segments) <= values.Keys
    && path == Fill(CompileOne(routes[i]).segments, values, rest)
  }

  /** The route's handler and, under each parameter's name, the value decoded. */
  ghost predicate IsFilledMatch<H>(
    route: Route<H>, verb: string, values: map<string, string>, decode: string -> string, m: Option<Match<H>>)
  {
    && verb in route.handlers && ParamNames(CompileOne(route).segments) <= values.Keys
    && m == Some(Match(route.handlers[verb],
                       map n | n in ParamNames(CompileOne(route).segments) :: decode(values[n])))
  }

  /** If the path is the winner's pattern filled in, the parameters are the decoded values. */
  ghost predicate GivesValuesBack<H>(
    routes: seq<Route<H>>, verb: string, path: seq<string>, decode: string -> string, m: Option<Match<H>>)
  {
    forall i: nat, values, rest | FillsWinner(routes, verb, path, i, values, rest) ::
      IsFilledMatch(routes[i], verb, values, decode, m)
  }

  lemma ScanGivesValuesBack<H>(routes: seq<Route<H>>, verb: string, path: seq<string>, decode: string -> string)
    ensures GivesValuesBack(routes, verb, path, decode, Scan(routes, verb, path, decode))
  {
    forall i: nat, values, rest | FillsWinner(routes, verb, path, i, values, rest) {
      FilledIsDecoded(routes, verb, path, decode, i, values, rest);
    }
  }

  lemma FilledIsDecoded<H>(
    routes: seq<Route<H>>, verb: string, path: seq<string>, decode: string -> string, i: nat,
    values: map<string, string>, rest: seq<string>)
    requires FillsWinner(routes, verb, path, i, values, rest)
    ensures IsFilledMatch(routes[i], verb, values, decode, Scan(routes, verb, path, decode))
  {
    var p := CompileOne(routes[i]);
    ScanIsMostSpecific(routes, verb, path, decode);
    var w := FoundWins(routes, verb, path);
    OneWinner(routes, verb, path, i, w);
    FilledValues(p.segments, values, rest);
    FilledParams(p.segments, path, values, decode);
  }

  // ---------------------------------------------------------------------------
  // Filling a pattern and matching it back
  // ---------------------------------------------------------------------------

  function FillOne(segment: string, values: map<string, string>): string
    requires IsParam(segment) ==> segment[1..] in values
  {
    if IsParam(segment) then values[segment[1..]] else segment
  }

  /** The path of a pattern: each parameter replaced by its value, and `rest` where the wildcard stands. */
  function Fill(segments: seq<string>, values: map<string, string>, rest: seq<string>): seq<string>
    requires ParamNames(segments) <= values.Keys
  {
    seq(|segments|, i requires 0 <= i < |segments| =>
      assert IsParam(segments[i]) ==> segments[i][1..] in ParamNames(segments);
      FillOne(segments[i], values)) + rest
  }

  lemma {:induction false} FilledParams(
    segments: seq<string>, path: seq<string>, values: map<string, string>, decode: string -> string)
    requires |segments| <= |path| && ParamNames(segments) <= values.Keys
    requires forall i | 0 <= i < |segments| && IsParam(segments[i]) ::
               segments[i][1..] in values && path[i] == values[segments[i][1..]]
    ensures ParamsOf(segments, path, decode) == map n | n in ParamNames(segments) :: decode(values[n])
  {
    if segments != [] {
      var init, last := segments[..|segments| - 1], segments[|segments| - 1];
      assert segments == init + [last];
      NamesOneMore(init, last);
      FilledParams(init, path, values, decode);
    }
  }

  lemma FilledValues(segments: seq<string>, values: map<string, string>, rest: seq<string>)
    requires ParamNames(segments) <= values.Keys
    ensures forall i | 0 <= i < |segments| && IsParam(segments[i]) ::
              segments[i][1..] in values && Fill(segments, values, rest)[i] == values[segments[i][1..]]
  {
    forall i | 0 <= i < |segments| && IsParam(segments[i])
      ensures segments[i][1..] in values
    {
      assert segments[i][1..] in ParamNames(segments);
    }
  }

  /** Matching a filled pattern gives every parameter its decoded value back, and nothing else. */
  lemma FillThenMatch<H>(pattern: Pattern<H>, values: map<string, string>, rest: seq<string>, decode: string -> string)
    requires ParamNames(pattern.segments) <= values.Keys
    requires pattern.wildcard || rest == []
    ensures var path := Fill(pattern.segments, values, rest);
            && Fits(pattern, path)
            && ParamsOf(pattern.segments, path, decode) ==
               map n | n in ParamNames(pattern.segments) :: decode(values[n])
  {
    var path := Fill(pattern.segments, values, rest);
    FilledValues(pattern.segments, values, rest);
    FilledParams(pattern.segments, path, values, decode);
  }

  /** `/a/b` for the segments `a` and `b`. */
  function PathOf(segments: seq<string>): string {
    "/" + Join(segments, "/")
  }

  ghost predicate IsSegment(s: string) {
    s != "" && Free(s, '/')
  }

  lemma {:induction false} NonEmptyKeeps(pieces: seq<string>)
    requires forall i | 0 <= i < |pieces| :: pieces[i] != ""
    ensures NonEmpty(pieces) == pieces
  {
    if pieces != [] {
      NonEmptyKeeps(pieces[1..]);
    }
  }

  /** Writing segments as a path and splitting the path again is the identity. */
  lemma SegmentsOfPath(segments: seq<string>)
    requires forall i | 0 <= i < |segments| :: IsSegment(segments[i])
    ensures Segments(PathOf(segments)) == segments
  {
    assert "/" == ['/'];
    var body := Join(segments, "/");
    var pieces := Split(body, '/');
    assert PathOf(segments) == "" + ['/'] + body;
    SplitConcat("", body, '/');
    assert Split(PathOf(segments), '/') == [""] + pieces;
    assert ([""] + pieces)[1..] == pieces;
    if segments == [] {
      assert NonEmpty([""]) == [];
    } else {
      SplitJoin(segments, '/');
      NonEmptyKeeps(segments);
    }
  }

  ghost predicate OnlySegments(segments: seq<string>) {
    forall i | 0 <= i < |segments| :: IsSegment(segments[i])
  }

  /** A key written as segments compiles to a pattern of just these. */
  lemma CompiledKey<H>(segments: seq<string>, handlers: map<string, H>)
    requires OnlySegments(segments) && (segments == [] || segments[|segments| - 1] != "*")
    ensures CompileOne(Route(PathOf(segments), handlers)) == Pattern(segments, false, Literals(segments), handlers)
  {
    SegmentsOfPath(segments);
    CompiledPlain(Route(PathOf(segments), handlers), segments);
  }

  lemma CompiledPlain<H>(route: Route<H>, raw: seq<string>)
    requires Segments(route.key) == raw && (raw == [] || raw[|raw| - 1] != "*")
    ensures CompileOne(route) == Pattern(raw, false, Literals(raw), route.handlers)
  {
  }

  /** With a wildcard behind them, to a wildcard pattern of the ones before it. */
  lemma CompiledWildcard<H>(segments: seq<string>, handlers: map<string, H>)
    requires OnlySegments(segments)
    ensures CompileOne(Route(PathOf(segments + ["*"]), handlers)) ==
            Pattern(segments, true, Literals(segments), handlers)
  {
    var raw := segments + ["*"];
    assert IsSegment("*");
    assert OnlySegments(raw);
    SegmentsOfPath(raw);
    assert raw[..|segments|] == segments;
  }

  lemma {:induction false} OneMoreLiteral(init: seq<string>, last: string)
    ensures Literals(init + [last]) == Literals(init) + if IsParam(last) then 0 else 1
  {
    if init != [] {
      OneMoreLiteral(init[1..], last);
      assert (init + [last])[1..] == init[1..] + [last];
    }
  }

  /** The literals of a pattern are its segments that do not start with a colon. */
  lemma {:induction false} LiteralsAreCounted(segments: seq<string>) returns (at: seq<nat>)
    ensures |at| == Literals(segments) && Rising(at, |segments|)
    ensures forall i: nat | i < |segments| :: i in at <==> segments[i] == "" || segments[i][0] != ':'
  {
    at := [];
    if segments != [] {
      var init, last := segments[..|segments| - 1], segments[|segments| - 1];
      var before := LiteralsAreCounted(init);
      assert segments == init + [last];
      OneMoreLiteral(init, last);
      RisingGrows(before, |init|);
      at := if IsParam(last) then before else before + [|init|];
      assert forall i: nat | i < |init| :: init[i] == segments[i];
    }
  }

  /** No two parameters of one name. */
  ghost predicate DistinctParams(segments: seq<string>) {
    forall i, j | 0 <= i < j < |segments| && IsParam(segments[i]) :: segments[i] != segments[j]
  }

  ghost predicate IsFilled<H>(pattern: Pattern<H>, path: seq<string>, values: map<string, string>, rest: seq<string>) {
    && ParamNames(pattern.segments) <= values.Keys && (pattern.wildcard || rest == [])
    && path == Fill(pattern.segments, values, rest)
  }

  /** A pattern fits exactly the paths that are the pattern filled in. */
  lemma FitsIffFilled<H>(pattern: Pattern<H>, path: seq<string>)
    requires DistinctParams(pattern.segments)
    ensures Fits(pattern, path) <==>
            exists values, rest :: IsFilled(pattern, path, values, rest)
  {
    if Fits(pattern, path) {
      var n := |pattern.segments|;
      var same := (s: string) => s;
      var values, rest := ParamsOf(pattern.segments, path, same), path[n..];
      ParamsAreDecoded(pattern.segments, path, same);
      forall i | 0 <= i < n
        ensures path[i] == FillOne(pattern.segments[i], values)
      {
        if IsParam(pattern.segments[i]) {
          assert IsLastOf(pattern.segments, i);
        }
      }
      assert IsFilled(pattern, path, values, rest);
    }
    if values, rest :| IsFilled(pattern, path, values, rest) {
      FillThenMatch(pattern, values, rest, (s: string) => s);
    }
  }

  // ---------------------------------------------------------------------------
  // The shortcut and the scan
  // ---------------------------------------------------------------------------

  /** Keys as they are written by hand: one slash before each segment, none after the last. */
  ghost predicate Canonical<H>(routes: seq<Route<H>>) {
    forall i | 0 <= i < |routes| :: routes[i].key == PathOf(Segments(routes[i].key))
  }

  predicate NoParams(segments: seq<string>) {
    forall i | 0 <= i < |segments| :: !IsParam(segments[i])
  }

  lemma {:induction false} LiteralsFit(segments: seq<string>)
    ensures Literals(segments) <= |segments|
    ensures Literals(segments) == |segments| <==> NoParams(segments)
  {
    if segments != [] {
      LiteralsFit(segments[1..]);
      assert segments == [segments[0]] + segments[1..];
    }
  }

  /** A pattern that fits a path has no more literals than the path has pieces that do not start with a colon. */
  lemma {:induction false} FitBoundsLiterals(segments: seq<string>, path: seq<string>)
    requires |segments| <= |path|
    requires forall i | 0 <= i < |segments| :: IsParam(segments[i]) || segments[i] == path[i]
    ensures Literals(segments) <= Literals(path)
    ensures Literals(segments) < |segments| ==> exists i :: 0 <= i < |segments| && IsParam(segments[i])
  {
    LiteralsFit(segments);
    if segments != [] {
      FitBoundsLiterals(segments[1..], path[1..]);
    }
  }

  lemma {:induction false} LookupFinds<H>(routes: seq<Route<H>>, i: nat)
    requires IsTable(routes) && i < |routes|
    ensures Lookup(routes, routes[i].key) == Some(routes[i])
  {
    if i > 0 {
      assert routes[0].key != routes[i].key;
      LookupFinds(routes[1..], i - 1);
    }
  }

  lemma {:induction false} ParamsEmpty(segments: seq<string>, path: seq<string>, decode: string -> string)
    requires |segments| <= |path|
    ensures ParamsOf(segments, path, decode) == map[] <==> NoParams(segments)
  {
    if segments != [] {
      var last := |segments| - 1;
      ParamsEmpty(segments[..last], path, decode);
      if IsParam(segments[last]) {
        assert segments[last][1..] in ParamsOf(segments, path, decode);
      } else {
        assert forall i | 0 <= i < last :: segments[..last][i] == segments[i];
      }
    }
  }

  lemma WinnerBeatsOwn<H>(routes: seq<Route<H>>, i: nat, verb: string, q: Pattern<H>)
    requires i < |routes| && verb in routes[i].handlers && !CompileOne(routes[i]).wildcard
    requires FirstAccepting(Compile(routes), verb, Segments(routes[i].key)) == Some(q)
    ensures q in CompileAll(routes) && Compare(q, CompileOne(routes[i])) <= 0
    ensures Accepts(q, verb, Segments(routes[i].key))
  {
    var path, p := Segments(routes[i].key), CompileOne(routes[i]);
    SortedIsStable(CompileAll(routes), q);
    SortedIsStable(CompileAll(routes), p);
    assert CompileAll(routes)[i] == p;
    SortedInOrder(CompileAll(routes));
    FirstAcceptingIsFirst(Compile(routes), verb, path);
  }

  /** The winner of a scan over the path of one of the table's own keys. */
  lemma WinnerOverOwnKey<H>(routes: seq<Route<H>>, i: nat, verb: string, q: Pattern<H>)
    requires i < |routes| && verb in routes[i].handlers && !CompileOne(routes[i]).wildcard
    requires FirstAccepting(Compile(routes), verb, Segments(routes[i].key)) == Some(q)
    ensures q in CompileAll(routes) && |q.segments| == |Segments(routes[i].key)| && !q.wildcard
    ensures q.literals == Literals(q.segments) == Literals(Segments(routes[i].key))
  {
    WinnerBeatsOwn(routes, i, verb, q);
    CompiledCountsLiterals(routes, q);
    CompiledCountsLiterals(routes, CompileOne(routes[i]));
    NoMoreLiterals(q, CompileOne(routes[i]), Segments(routes[i].key));
  }

  lemma CompiledCountsLiterals<H>(routes: seq<Route<H>>, q: Pattern<H>)
    requires q in CompileAll(routes) || exists i :: 0 <= i < |routes| && q == CompileOne(routes[i])
    ensures q.literals == Literals(q.segments)
  {
  }

  /** A pattern that fits a path and is no less specific than the path's own is as long and as literal. */
  lemma NoMoreLiterals<H>(q: Pattern<H>, p: Pattern<H>, path: seq<string>)
    requires q.literals == Literals(q.segments) && p.literals == Literals(path) && p.segments == path && !p.wildcard
    requires LengthFits(q, path) && Fits(q, path) && Compare(q, p) <= 0
    ensures |q.segments| == |path| && !q.wildcard && q.literals == Literals(path)
  {
    FitBoundsLiterals(q.segments, path);
  }

  lemma AcceptingOwnKey<H>(routes: seq<Route<H>>, i: nat, verb: string)
    requires i < |routes| && verb in routes[i].handlers
    ensures FirstAccepting(Compile(routes), verb, Segments(routes[i].key)).Some?
  {
    var p := CompileOne(routes[i]);
    SortedIsStable(CompileAll(routes), p);
    assert CompileAll(routes)[i] == p;
    assert Accepts(p, verb, Segments(routes[i].key));
    SortedInOrder(CompileAll(routes));
    FirstAcceptingIsFirst(Compile(routes), verb, Segments(routes[i].key));
  }

  /** Shortcut and scan agree exactly when the pattern the scan takes has no parameter and the key's own handler. */
  lemma AgreesWithWinner<H>(routes: seq<Route<H>>, i: nat, verb: string, decode: string -> string, q: Pattern<H>)
    requires IsTable(routes) && i < |routes| && verb in routes[i].handlers
    requires FirstAccepting(Compile(routes), verb, Segments(routes[i].key)) == Some(q)
    ensures Shortcut(routes, verb, routes[i].key) == Scan(routes, verb, Segments(routes[i].key), decode) <==>
            NoParams(q.segments) && q.handlers[verb] == routes[i].handlers[verb]
  {
    LookupFinds(routes, i);
    ParamsEmpty(q.segments, Segments(routes[i].key), decode);
  }

  lemma OwnHandlers<H>(routes: seq<Route<H>>, i: nat, q: Pattern<H>)
    requires IsTable(routes) && Canonical(routes) && i < |routes|
    requires q in CompileAll(routes) && !q.wildcard && q.segments == Segments(routes[i].key)
    ensures q.handlers == routes[i].handlers
  {
    var j :| 0 <= j < |CompileAll(routes)| && CompileAll(routes)[j] == q;
    assert Segments(routes[j].key) == q.segments;
    assert routes[j].key == routes[i].key;
    assert j == i;
  }

  lemma SameWithoutParams<H>(q: Pattern<H>, path: seq<string>)
    requires Fits(q, path) && |q.segments| == |path| && NoParams(q.segments)
    ensures q.segments == path
  {
  }

  /** For a key without a wildcard the shortcut gives what the scan would exactly when the key has no parameter. */
  lemma ShortcutIsTheScan<H>(routes: seq<Route<H>>, i: nat, verb: string, decode: string -> string)
    requires IsTable(routes) && Canonical(routes)
    requires i < |routes| && verb in routes[i].handlers && !CompileOne(routes[i]).wildcard
    ensures Shortcut(routes, verb, routes[i].key) == Scan(routes, verb, Segments(routes[i].key), decode) <==>
            NoParams(Segments(routes[i].key))
  {
    var path := Segments(routes[i].key);
    AcceptingOwnKey(routes, i, verb);
    var q := FirstAccepting(Compile(routes), verb, path).value;
    AgreesWithWinner(routes, i, verb, decode, q);
    WinnerOverOwnKey(routes, i, verb, q);
    LiteralsFit(path);
    LiteralsFit(q.segments);
    if NoParams(q.segments) {
      SameWithoutParams(q, path);
      OwnHandlers(routes, i, q);
    }
  }

  /**
   For any key, one that ends in a wildcard included: the scan takes one of the most specific
   patterns that accept the key's own path, and the shortcut gives the same answer exactly when
   that pattern has no parameter and the key's handler.
   */
  lemma ShortcutIsTheWinner<H>(routes: seq<Route<H>>, i: nat, verb: string, decode: string -> string)
    requires IsTable(routes) && i < |routes| && verb in routes[i].handlers
    ensures exists w: nat :: Wins(routes, verb, Segments(routes[i].key), w) &&
              (Shortcut(routes, verb, routes[i].key) == Scan(routes, verb, Segments(routes[i].key), decode) <==>
               NoParams(CompileOne(routes[w]).segments) && routes[w].handlers[verb] == routes[i].handlers[verb])
  {
    AcceptingOwnKey(routes, i, verb);
    var w := FoundWins(routes, verb, Segments(routes[i].key));
    AgreesWithWinner(routes, i, verb, decode, CompileOne(routes[w]));
  }

  lemma {:induction false} InOrderAt<H>(patterns: seq<Pattern<H>>, i: nat, j: nat)
    requires InOrder(patterns) && i < j < |patterns|
    ensures Compare(patterns[i], patterns[j]) <= 0
  {
    if i > 0 {
      InOrderAt(patterns[1..], i - 1, j - 1);
    } else {
      assert patterns[j] == patterns[1..][j - 1];
    }
  }

  /** The wildcards are the last patterns tried. */
  ghost predicate WildcardsLast<H>(patterns: seq<Pattern<H>>) {
    forall i, j | 0 <= i < j < |patterns| && patterns[i].wildcard :: patterns[j].wildcard
  }

  /** No wildcard has more literals than a pattern without one, nor as many on a longer path. */
  ghost predicate WildcardsYield<H>(patterns: seq<Pattern<H>>) {
    forall w, q | w in patterns && q in patterns && w.wildcard && !q.wildcard ::
      q.literals > w.literals || (q.literals == w.literals && |q.segments| >= |w.segments|)
  }

  /** Wildcards are the last thing tried exactly in the tables where none is more specific than a plain pattern. */
  lemma WildcardsLastIff<H>(patterns: seq<Pattern<H>>)
    ensures WildcardsLast(Sorted(patterns)) <==> WildcardsYield(patterns)
  {
    if WildcardsYield(patterns) {
      YieldingComeLast(patterns);
    }
    if WildcardsLast(Sorted(patterns)) {
      forall w, q | w in patterns && q in patterns && w.wildcard && !q.wildcard
        ensures Compare(q, w) <= 0
      {
        LastYields(patterns, w, q);
      }
    }
  }

  lemma YieldingComeLast<H>(patterns: seq<Pattern<H>>)
    requires WildcardsYield(patterns)
    ensures WildcardsLast(Sorted(patterns))
  {
    var sorted := Sorted(patterns);
    SortedInOrder(patterns);
    forall i, j | 0 <= i < j < |sorted| && sorted[i].wildcard
      ensures sorted[j].wildcard
    {
      var w, q := sorted[i], sorted[j];
      InOrderAt(sorted, i, j);
      SortedIsStable(patterns, w);
      SortedIsStable(patterns, q);
    }
  }

  lemma LastYields<H>(patterns: seq<Pattern<H>>, w: Pattern<H>, q: Pattern<H>)
    requires WildcardsLast(Sorted(patterns))
    requires w in patterns && q in patterns && w.wildcard && !q.wildcard
    ensures Compare(q, w) <= 0
  {
    var sorted := Sorted(patterns);
    SortedInOrder(patterns);
    SortedIsStable(patterns, w);
    SortedIsStable(patterns, q);
    var i :| 0 <= i < |sorted| && sorted[i] == w;
    var j :| 0 <= j < |sorted| && sorted[j] == q;
    assert i > j;
    InOrderAt(sorted, j, i);
  }

  /** A wildcard is not the last thing tried: with one literal it goes before two parameters. */
  lemma WildcardBeforeParameters<H>(prefix: string, handlers: map<string, H>)
    requires !IsParam(prefix)
    ensures Sorted([Pattern([":x", ":y"], false, 0, handlers), Pattern([prefix], true, 1, handlers)])[0] ==
            Pattern([prefix], true, 1, handlers)
  {
    var a, b := Pattern([":x", ":y"], false, 0, handlers), Pattern([prefix], true, 1, handlers);
    assert [a, b][1..] == [b];
    assert Sorted([b]) == [b];
  }
}
