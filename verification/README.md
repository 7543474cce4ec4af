# Verified models of the dunx repository

Dafny models of the algorithmic parts of dunx, with proofs of what they promise. Each `.dfy`
file is one module and covers one source file or one behaviour. `dafny verify dfyconfig.toml`
checks the whole project.

Code that changes state step by step is a class or a method with loops. Each such method is
specified by a function of its inputs or of the old state, and lemmas prove what that function
promises. Protocols (releases, polling, promise caches, the Redis counter) are state machines:
one function applies one step, and the results hold over every sequence of steps.

## What is modelled

* **Schema conversion** (`Refs`, `Meaning`, `Convert`, `ConvertMeaning`, `VendorMeaning`,
  `Documents`, `ConvertLimits`). A vendor's JSON Schema with its own `$defs` and self-references is
  re-homed in the shared component store. `Unfold` follows references to a depth (`$ref`, section
  8.2.3.1 of JSON Schema Core draft 2020-12; Components Object, section 4.8.7 of OpenAPI 3.1.0).
  `MeansAs` compares two schemas, each in its own scope: whatever either shows at some depth the
  other shows at some depth, and at no pair of depths do they contradict each other. A schema that
  is nothing but a reference is read as what it points at, a title only one of them has is no
  contradiction, and a reference that never ends means nothing but its like. The vendor's side is the document as it
  was emitted, `$ref` at its root and all (`Vendor`). `Draft` is one emitted document with its
  names, `Stored` the store after a call. `Lands` is the exact condition for conversion to keep
  meaning and for no reference to dangle. It has two guards, both testable before the call: a root
  that is skipped but referred back to gets its own key anyway, and a `#` has a component to be
  repointed at. `Documents` takes any sequence of calls on one store and prunes the result.
  `ConvertLimits` holds the documents whose meaning is not kept.
* **The release train** (`Semver`, `Release`, `ReleaseHeading`, `Changelog`, `ReleaseNotes`,
  `ReleaseBody`, `WorkspaceRanges`). Version precedence (section 11 of Semantic Versioning 2.0.0), the lockstep
  bump, runs that publish one package at a time and push last, interleaved and stopping
  anywhere, the changelog printer and parser, and the rewriting of workspace ranges.
* **Graphs** (`Waves`, `ProcessTree`). Kahn's algorithm in rounds with its cycle report, and a
  worklist walk over a process table that may share or cycle.
* **Dispatch** (`Board`). Specificity order, parameter matching and the literal shortcut.
* **State over whole runs** (`Poll`, `PromiseCache`, `Explorer`, `Series`, `RateCounter`).
* **Text** (`Wrap`, `Ranges`, `PostReview`, `SiteMarkdown`). Greedy line breaking, range
  compression, diff line numbers and a fence-aware section filter.
* `Prelude`, `Text` and `Decimal` hold what the others share.

## Where the code does not do what was expected of it

For each, the exact condition is proved, with a witness where it fails.

* Conversion loses a reference for an anonymous schema that is recursive only through another
  definition, for a named one read as parameters, and for a `#` that only a definition of an
  anonymous schema uses (`MeaningIffLands`, `NothingDanglesIffLands`, and in `ConvertLimits` the
  lemmas named `...Dangles` and `NamedMutualRecursion`).
* Of two different schemas claiming one name the second's answer means the first
  (`SecondClaimIsTheFirst`, `SecondClaimChangesMeaning`). The comment at
  packages/openapi/src/refs.ts:154-158 promises a warning. Two names are claimed in silence: a named
  root that is read as parameters but referred back to, and the name a `#` is repointed at when the
  call does not register it (`SilenceIff`, `SilentStranger`).
* Properties beside a root `$ref` are never read (`PropertiesBesideARefAreLost`,
  `OwnPropertyIsLost`), and a chain of references longer than the code follows reads as no
  parameters at all (`LongerChainReadsNothing`, `ChainIsTooLong`).
* A release may ship from two commits: a run that stops after publishing some packages, a
  commit on main, then the retry. `OneReleaseOneCommit` says exactly when it does not. The
  comment at scripts/version.ts:408-412 calls such a retry clean.
* The comment at scripts/version.ts:366-367 says that `workspace:*` becomes the dependency's exact
  version. The code writes a caret range, and so does the model.
* The comment at packages/dashboard/src/board.ts:252-254 says a wildcard is the last thing tried.
  The sort compares literals and length first. It is true exactly of the tables in which no
  wildcard is more specific than a plain pattern (`WildcardsLastIff`, `WildcardBeforeParameters`).
* The literal shortcut answers without parameters. For a key with a parameter it therefore
  differs from the scan (`ShortcutIsTheScan`, and `ShortcutIsTheWinner` for any key).
* The comment at scripts/post-review.ts:149-154 says approving needs both signals. An `APPROVE`
  verdict on prose without a list approves by itself (`ApprovalNeedsAgreement`,
  `VerdictAloneApproves`).
* `wrap` drops empty words at the start of a line: a text survives every width exactly when it has
  none, or is empty (`NothingLostIff`, `LeadingSpaceIsLost`).
* `formatRanges` never joins line 0 to line 1, so its ranges have gaps between them exactly when
  the lines do not hold both (`GappedIff`, `ZeroStandsAlone`).
* `siteMarkdown` is not stable when a fence opens inside a centred block
  (`FenceInCenteredIsUnstable`). A second pass changes nothing exactly when no kept line starts a
  centred block or an excluded section and has an odd number of dropped fence lines before it
  (`FilterTwiceIff`).
* Explorer calls share a cache entry with another prefix exactly when their prefix or version has
  a line break, and are then answered with its document (`KeyIsItsOwnIff`, `WrongDocument`).
* A version called '' shares its entry with no version at all, so every history without line breaks
  is answered as recomputed exactly when asking for '' gives the primary document (`RecomputedIff`,
  `EmptyVersionIsWrong`).
* `PackageAssets` has no identity check, so a `reset` between a read and its rejection lets two
  reads run at once (`ResetNeedsTheCheck`, `TakesAnotherIff`, `UncheckedHandlerKeepsInvIff`).
* A client lost between `INCR` and `EXPIRE` leaves a counter that never expires, and a delete
  in that gap lets a stale `EXPIRE` move a later window's deadline. The windows count as promised
  all through a run exactly when neither happens (`WindowsCountIffKept`, `StrandedForEver`,
  `LossStrandsIff`, `DeleteLetsAStaleExpireExtend`).
* A changelog section whose body holds a release heading of its own reads back as several
  (`PrependThenParse`).

## Model

| member | source | states |
|---|---|---|
| Refs.SchemaStore.Warn | packages/openapi/src/refs.ts:150-152 | a message is kept once, in the order first seen |
| Refs.SchemaStore.Add | packages/openapi/src/refs.ts:159-173 | the first definition of a name stays, equal ones change nothing, a different second one only warns; the name used is the one asked for |
| Refs.FirstDefinitionStays | packages/openapi/src/refs.ts:139-173 | adding keeps every definition there is; a free name gets the schema, with its name for a title unless it has one, and a name collides exactly when what it holds is not that |
| Refs.SameMeaning | packages/openapi/src/refs.ts:13-35 | a value rewritten by a repointing unfolds, to every depth and through cycles, as the original does, when each reference's target is linked to its repointed one |
| Refs.SameMeaningResolves | packages/openapi/src/refs.ts:13-35 | the converse: if the unfoldings agree, every reference that resolved still resolves once repointed |
| Refs.RewriteNothing | packages/openapi/src/refs.ts:19-35 | rewriting by the identity gives the value back: nothing but references is touched |
| Refs.RewrittenRefs | packages/openapi/src/refs.ts:19-52 | the references collected after rewriting are exactly the images of those collected before |
| Refs.TitleKeepsRefs | packages/openapi/src/refs.ts:139-140 | adding a title neither adds nor removes a reference |
| Refs.AgreeingStores | packages/openapi/src/refs.ts:142-189 | two stores that agree on the references reachable from a value give it one meaning at every depth |
| Refs.EnqueueNew | packages/openapi/src/refs.ts:82-98 | the inner loop adds each name not seen before to the queue and to the set, and nothing else |
| Refs.ReachableComponents | packages/openapi/src/refs.ts:64-102 | the worklist ends with exactly the components some chain of references from the document reaches |
| Refs.PruneOrphans | packages/openapi/src/generate.ts:464-473 | exactly the generated components nothing reaches are removed; the others stay as they were |
| Refs.PruningKeepsMeaning | packages/openapi/src/generate.ts:464-473 | every part of the document unfolds the same before and after pruning |
| Convert.StoreDefs | packages/openapi/src/convert.ts:225-237 | whatever the order of the definitions, the store gains every kept one, repointed and titled, and the warnings are exactly the names that collide |
| Convert.ConvertRoot | packages/openapi/src/convert.ts:153-246 | all four outcomes: three degradations that warn once and store nothing, and a root with its registration name and self-reference flag |
| Convert.ConvertSchema | packages/openapi/src/convert.ts:276-302 | the answer, the store and the warnings after a call, including the permissive answer |
| Convert.NamedIsAReference | packages/openapi/src/convert.ts:288-301 | a schema with a name, or one that refers to itself, is answered with a reference that resolves in the store, under its own name when the call registers it |
| Convert.RegistersIff | packages/openapi/src/convert.ts:295-301 | the call registers a root exactly when it has a name or refers to itself and is not itself a reference that resolves; else the root is inlined and only definitions are stored |
| Convert.ConvertObject | packages/openapi/src/convert.ts:315-361 | the parameters of the object read: its `properties` as they stand, and as `required` exactly the strings it lists, in order, every one of them; no parameters and a warning when it has no properties; the store and the warnings after a call |
| Convert.StringsAreCounted | packages/openapi/src/convert.ts:354-359 | each string is required as often as it is listed, and of a list of strings the names are that list |
| Meaning.MeansAsTarget | packages/openapi/src/convert.ts:255-268 | a schema means what a bare reference to it means |
| Meaning.LoopMeansNothing | packages/openapi/src/convert.ts:295-299 | a component that is a reference to itself means exactly what shows nothing at any depth |
| ConvertMeaning.RestKeepsMeaning | packages/openapi/src/convert.ts:239 | under the two guards the converted root unfolds in the store, to every depth, as the root it was followed to did, titles included |
| ConvertMeaning.KeptKeepsMeaning | packages/openapi/src/convert.ts:225-237 | so does every definition that is kept |
| ConvertMeaning.NothingDanglesIffLands | packages/openapi/src/convert.ts:225-246 | no reference is left dangling if and only if the two guards hold |
| ConvertMeaning.SilenceIff | packages/openapi/src/refs.ts:154-173 | nothing collides if and only if the call warns of nothing and the two names it never looks at are free |
| ConvertMeaning.OrdinarySchemaLands | packages/openapi/src/convert.ts:195-246 | the guards hold, on any store, for the shapes the vendor emits for ordinary schemas |
| VendorMeaning.RootMeansRest | packages/openapi/src/convert.ts:131-144 | the emitted root, and a `#` in the emitted document, mean what the root is followed to |
| VendorMeaning.MeaningIffLands | packages/openapi/src/convert.ts:194-246 | the converted root, its component and every kept definition mean what they did in the emitted document, at every depth, if and only if the two guards hold |
| VendorMeaning.SilentCallKeepsMeaning | packages/openapi/src/convert.ts:194-246 | a call that lands and warns of nothing keeps meaning, where the two names it never looks at are free |
| VendorMeaning.SchemaAnswerMeaning | packages/openapi/src/convert.ts:276-302 | the answer of `convertSchema`, reference or inlined, means what the emitted root means |
| VendorMeaning.ObjectReadMeansRoot | packages/openapi/src/convert.ts:339-343 | without keys beside a `$ref`, the object read for the parameters means what the emitted root means |
| VendorMeaning.ObjectShapeMeaning | packages/openapi/src/convert.ts:315-361 | what is answered is the object the vendor emitted: as `required` exactly the strings that object lists, in order, as properties its own, repointed and meaning what they meant, and nothing when it has none |
| VendorMeaning.LongerChainReadsNothing | packages/openapi/src/convert.ts:339-352 | a longer chain of references than the code follows gives no parameters |
| VendorMeaning.PropertiesBesideARefAreLost | packages/openapi/src/convert.ts:339-345 | beside a root `$ref` the names read are exactly those of the referenced object, whatever the root's own |
| Documents.StoreStaysClosed | packages/openapi/src/convert.ts:225-246 | a store without dangling references has none after a conversion |
| Documents.GrowthKeepsMeaning | packages/openapi/src/refs.ts:154-173 | once closed, a store gives a value one unfolding however much is added later |
| Documents.StoreGrowsClosed | packages/openapi/src/refs.ts:142-189 | along any sequence of calls the store stays closed and keeps what it held after each earlier call |
| Documents.DocumentMeaning | packages/openapi/src/generate.ts:464-473 | after any sequence of `convertSchema` and `convertObject` calls on one store, and after pruning, what each call answered still means what the vendor emitted for it |
| ConvertLimits.AnonymousMutualRecursionDangles | packages/openapi/src/convert.ts:226-236 | an anonymous schema recursive only through another definition dangles |
| ConvertLimits.NamedMutualRecursion | packages/openapi/src/convert.ts:334-337 | a named one converts, and the same document read as parameters dangles |
| ConvertLimits.AnonymousHashInDefinitionDangles | packages/openapi/src/convert.ts:240-245 | a `#` used only inside a definition of an anonymous schema has nowhere to point |
| ConvertLimits.SecondClaimIsTheFirst | packages/openapi/src/refs.ts:154-173 | the second's answer means the vendor's root if and only if the first does, in the store before the call when that has no dangling reference |
| ConvertLimits.SecondClaimChangesMeaning | packages/openapi/src/refs.ts:154-173 | a document and a store for which it warns and does not |
| ConvertLimits.SilentStranger | packages/openapi/src/convert.ts:226-235 | a named root read as parameters over a store that holds another schema under its key: silent, nothing dangles, and a kept definition no longer means what it meant |
| ConvertLimits.ChainIsTooLong | packages/openapi/src/convert.ts:339-352 | a document whose root leads through three references to an object with a property, of which no parameter is read |
| ConvertLimits.OwnPropertyIsLost | packages/openapi/src/convert.ts:339-345 | a document whose own property beside a root `$ref` is no parameter, without a warning |
| Semver.OrderIsTransitive | scripts/version.ts:110-113 | precedence, pre-releases included, is antisymmetric and transitive, strictly as soon as one step is strict |
| Semver.OrderIsPrecedence | scripts/version.ts:110-113 | `order` is the precedence of section 11 of Semantic Versioning 2.0.0: the numbers from left to right, a release above its pre-releases, identifiers compared one by one with numbers below words; 0 exactly for versions equal but for build metadata |
| Semver.BumpTypeFrom | scripts/bump.ts:176-190 | the result is the highest bump any commit of the range asks for: major exactly when one is breaking, patch exactly when none is breaking or a feature |
| Semver.BumpIsNext | scripts/bump.ts:192-219 | exactly the plain versions bump, each to the least plain version above it in the number bumped: above its major, or within its major above its minor, or within both above its patch; a patch bump is the least plain version above it at all |
| Semver.HighestIsHighest | scripts/version.ts:105-113 | the reduction is at or above every version present |
| Semver.HighestIsFirst | scripts/version.ts:105-113 | and is the first version of the manifests that no later one is above, or zero when none is above zero |
| Semver.VersionedAre | scripts/version.ts:114-141 | the places reported are those of the manifests with a version, each once and in order |
| Semver.SharedIsAboveAll | scripts/version.ts:114-132 | the shared version is above every version present, so the "not greater" skip never fires |
| Semver.ApplyVersionBumps | scripts/version.ts:84-148 | throws exactly when the highest version is not plain; otherwise every manifest with a version moves to the next version after the highest, in the number bumped, which is above every old one; names and unversioned manifests stay, the places reported are those moved, in order, and a dry run writes nothing |
| Release.StepKeepsInv | scripts/version.ts:253-435 | every step of every run, forced ones included, keeps the release invariant |
| Release.ExecuteKeepsInv | scripts/version.ts:399-428 | the invariant holds after any interleaving of runs stopping anywhere |
| Release.ReleasesAreSafe | scripts/version.ts:399-428 | every version main carries is published for its package, nothing is published twice even if the registry check answers no, and main's shared versions strictly increase |
| Release.StepOnlyClimbs | scripts/version.ts:200-245 | a step never lowers a version on main nor changes anything on the registry |
| Release.MainOnlyClimbs | scripts/version.ts:200-245 | nor does any continuation of a run |
| Release.RetryRecovers | scripts/version.ts:408-428 | from any reachable state an uninterrupted run publishes every package at the shared version and moves main there; what an earlier run published stays as it was |
| Release.QueueIsTheChosen | scripts/version.ts:253-345 | a run publishes the releases of the chosen packages that have a version, each once and in order |
| Release.ForcedRunShips | scripts/version.ts:253-345 | an uninterrupted forced run of packages whose releases are free moves exactly the bumped ones to their next version, publishes each chosen one once, from its own commit, and puts the result on main |
| Release.OneReleaseOneCommit | scripts/version.ts:408-428 | all packages of a release come from one commit if and only if no other commit published one of them before |
| Release.ReleaseFromTwoCommits | scripts/version.ts:408-428 | a reachable release whose packages come from two commits |
| Waves.Waves | scripts/build-all.ts:62-95 | returns if and only if names are distinct and the graph restricted to workspaces is acyclic; the rounds' multiset is then the input's, parted by longest chain, in as few rounds as any layering; else the names it throws with are those of exactly the entries from which a cycle can be reached, each entry once and in input order |
| Waves.PendingIsItsOwn | scripts/build-all.ts:63-69 | the last workspace of a name waits for exactly its own dependencies that are workspaces |
| Waves.RoundIsDepth | scripts/build-all.ts:74-92 | a workspace's round is the length of its longest dependency chain |
| Waves.LayeringClimbs | scripts/build-all.ts:58-61 | any valid layering puts a workspace at least as high as each of its chains is long |
| Waves.StuckReachesCycle | scripts/build-all.ts:81-88 | from a set in which each member waits for another, each reaches a cycle |
| Waves.DoneReachesNoCycle | scripts/build-all.ts:75-79 | nothing that was placed in a round can reach a cycle |
| Waves.CycleReport | scripts/build-all.ts:81-88 | when nothing is ready, the names reported are exactly those from which a cycle can be reached, and they are the names of exactly such entries, by strictly rising places in the input |
| Waves.RoundsReport | scripts/build-all.ts:90-94 | once all names are placed, names are distinct, the graph is acyclic and the rounds are the depths |
| Board.MatchParams | packages/dashboard/src/board.ts:266-288 | parameters exactly when the pattern fits the path, in length and in every literal; each is the decoded segment where the last parameter of its name stands |
| Board.MatchBoard | packages/dashboard/src/board.ts:313-330 | in a table with a handler under this very path, that handler without parameters; else the winning route's handler and decoded parameters, and where the path is the winner's pattern filled with values, exactly these values decoded; nothing only when no route accepts the path |
| Board.SortedInOrder | packages/dashboard/src/board.ts:255-260 | after the sort no pattern stands before a more specific one |
| Board.SortedIsStable | packages/dashboard/src/board.ts:255-260 | the sort keeps the patterns, and equally specific ones in the table's order |
| Board.ScanIsMostSpecific | packages/dashboard/src/board.ts:322-330 | the scan answers with the handler and decoded parameters of the route that wins: it accepts the path, and any other that does has fewer literals, or as many and fewer segments, or as many of both and a wildcard more, or is its equal and later in the table; nothing only when none accepts |
| Board.FillThenMatch | packages/dashboard/src/board.ts:266-288 | filling a pattern with values and matching it gives exactly the decoded values back |
| Board.FitsIffFilled | packages/dashboard/src/board.ts:266-288 | a pattern without repeated names fits exactly the paths that are the pattern filled in |
| Board.CompiledKey | packages/dashboard/src/board.ts:242-250 | a key written as segments compiles to a pattern of these segments |
| Board.CompiledWildcard | packages/dashboard/src/board.ts:242-250 | with a `*` behind them, to a wildcard pattern of the segments before it |
| Board.LiteralsAreCounted | packages/dashboard/src/board.ts:248 | the literals of a pattern are its segments that do not start with a colon |
| Board.SegmentsOfPath | packages/dashboard/src/board.ts:322 | a path built of segments splits back into them |
| Board.ShortcutIsTheScan | packages/dashboard/src/board.ts:318-330 | for a canonical table and a key without a wildcard, the shortcut is what the scan gives if and only if the key has no parameter |
| Board.ShortcutIsTheWinner | packages/dashboard/src/board.ts:318-330 | for any key, one ending in a wildcard included, shortcut and scan agree if and only if the most specific pattern the scan takes has no parameter and the key's own handler |
| Board.WildcardsLastIff | packages/dashboard/src/board.ts:252-260 | after the sort the wildcards come last if and only if none has more literals than a plain pattern, nor as many and more segments |
| Board.WildcardBeforeParameters | packages/dashboard/src/board.ts:252-260 | a wildcard with one literal is tried before two parameters |
| Wrap.Wrapped | scripts/update-readme.ts:215-228 | the loop's text is the greedy lines joined by line breaks |
| Wrap.WrapIsGreedy | scripts/update-readme.ts:215-228 | without empty words the lines joined by spaces give the text back, each fits or is one word, they are a breaking, and none has fewer |
| Wrap.GreedyIsFewest | scripts/update-readme.ts:218-225 | from any word on, greedy lines are at most as many as those of any breaking |
| Wrap.LinesLoseNothing | scripts/update-readme.ts:218-227 | from any word on, the lines joined by spaces are the words joined by spaces |
| Wrap.NothingLostIff | scripts/update-readme.ts:215-228 | joining the lines with spaces gives the text back at every width if and only if the text is empty or has no empty word |
| Wrap.LeadingSpaceIsLost | scripts/update-readme.ts:219 | a leading space does not come back |
| Poll.Hook.RunEffect | internal/dashboard-ui/src/poll.ts:46-69 | a render cleans up the effect before it and starts the next generation with one request |
| Poll.Hook.Settled | internal/dashboard-ui/src/poll.ts:51-66 | what a settled request writes: nothing unless its effect is live; then data or error, loading off, and a timer if the interval asks for one |
| Poll.Hook.Fired | internal/dashboard-ui/src/poll.ts:63 | a timer that fires starts one request |
| Poll.Hook.Cleanup | internal/dashboard-ui/src/poll.ts:71-74 | cleanup stops the last effect and clears its timer |
| Poll.StepKeepsInv | internal/dashboard-ui/src/poll.ts:31-79 | every render, settlement, timer and unmount keeps the hook's invariant |
| Poll.EveryRunIsOrderly | internal/dashboard-ui/src/poll.ts:31-79 | after any run of events only the last effect can be live, it is in exactly one of in flight, armed or idle, no effect has two requests, and stopped ones have no timer |
| Poll.OnlyTheLiveRunWrites | internal/dashboard-ui/src/poll.ts:54-59 | data or error changes only when a live effect's own request settles |
| Poll.DataSurvives | internal/dashboard-ui/src/poll.ts:27-29 | data once set is never undefined again |
| Poll.NoStaleRepaint | internal/dashboard-ui/src/poll.ts:25-26 | after a new render no settlement of an earlier generation changes data or error |
| Poll.LatestIsShown | internal/dashboard-ui/src/poll.ts:53-62 | over any events what is shown is what the live effect was last answered: a failure's error, none after a success, and the value of the last success; and loading is off until the next render |
| Poll.UnansweredIsUnchanged | internal/dashboard-ui/src/poll.ts:46-69 | after a render and until the live effect is answered, data and error stay as they were and loading is on |
| Poll.RunsKeepTheirInterval | internal/dashboard-ui/src/poll.ts:46-63 | each effect keeps the interval of its own render |
| Poll.UnmountedIsQuiet | internal/dashboard-ui/src/poll.ts:71-75 | after an unmount nothing shown changes and no request starts, until another render |
| ReleaseHeading.HeadingIsParsed | scripts/changelog.ts:39 | the heading the printer writes is read back as its version and date |
| ReleaseHeading.HeadingIgnoresTrailing | scripts/changelog.ts:39 | white space after a heading keeps it one |
| ReleaseHeading.ParsedIsHeading | scripts/changelog.ts:39 | and only such a line is read as one: hashes, three numbers, a dash and a date, with nothing but white space behind |
| ReleaseHeading.TrimTakesTheEnds | scripts/changelog.ts:224 | trimming takes the white space at both ends and nothing else |
| Changelog.ParseChangelog | scripts/changelog.ts:216-241 | the loop gives the sections of the file, for any reader of headings |
| Changelog.OneSectionAHeading | scripts/changelog.ts:229-240 | as many sections as lines that are headings |
| Changelog.ReadsTheHeadings | scripts/changelog.ts:31-39 | no blank line and no line of the file's header is a heading, and white space after one is ignored |
| Changelog.PrependThenParse | scripts/changelog.ts:202-241 | parsing after prepending gives the new section followed by the old ones if and only if no line of its body is a heading, for every existing file: empty, prose only, or with releases |
| Changelog.PrependOnlyInserts | scripts/changelog.ts:202-213 | prepending inserts the section before the first release heading and keeps all the text around it; without a heading it goes behind the text, or behind the header of an empty file |
| ReleaseNotes.RenderRelease | scripts/changelog.ts:155-194 | the loop's text is the section's heading, summary, notes and groups |
| ReleaseNotes.OneGroup | scripts/changelog.ts:113-118 | every commit's group is one of the seven, and only one |
| ReleaseNotes.GroupsPartitionTheRange | scripts/changelog.ts:181-187 | the groups together hold every ordinary commit of the range exactly once |
| ReleaseNotes.EachCommitIsWrittenOnce | scripts/changelog.ts:181-187 | the groups' lines are one for each ordinary commit of the range, and their headings |
| ReleaseNotes.EveryOrdinaryCommitIsWritten | scripts/changelog.ts:169-187 | the rendered body has a line for each ordinary commit |
| ReleaseBody.GroupsAreWritten | scripts/changelog.ts:46-187 | under each of the seven titles, in this order and with nothing between them, stand the ordinary commits that belong there, in the order of the range; a title without commits is left out |
| ReleaseBody.GroupsStartAndEnd | scripts/changelog.ts:173-194 | the groups follow the summary and the notes and end the section, unless it has nothing to tell |
| ReleaseBody.FirstOnes | scripts/changelog.ts:161-167 | the summary and the notes are the first the range has |
| ReleaseBody.SummaryAndNotesComeFirst | scripts/changelog.ts:173-179 | above the groups stand the summary, capitalised, and the notes, each if there is one |
| ReleaseBody.QuietReleaseSaysSo | scripts/changelog.ts:189-191 | a release without summary, notes and ordinary commits says that nothing was recorded |
| ReleaseBody.SanitizedIsClean | scripts/changelog.ts:84-85 | what is sanitized holds no `<` and no long dash, and a text without them stays as it is |
| ReleaseBody.SanitizesInPlace | scripts/changelog.ts:84-85 | sanitizing two texts one after the other is sanitizing them together |
| ReleaseBody.SanitizesTo | scripts/changelog.ts:84-85 | `<` becomes its entity and a long dash a hyphen |
| ReleaseBody.LineShowsCommit | scripts/changelog.ts:126-132 | a commit's line starts with its scope and summary, links its pull request if there is one, and ends with a link to its full hash |
| ReleaseBody.LineNamesItsCommit | scripts/changelog.ts:126-132 | two commits with different hashes never share a line |
| ReleaseNotes.WriteChangelog | scripts/version.ts:160-198 | a version already present leaves the file as it is, any other is prepended |
| ReleaseNotes.RenderedHeading | scripts/changelog.ts:173 | a rendered section starts with a heading that reads back as the version and date given |
| ReleaseNotes.ReadShownVersion | scripts/bump.ts:192-219 | a plain version written with dots reads back as itself |
| ReleaseNotes.WriteKeepsDescending | scripts/version.ts:160-198 | a descending file stays so if and only if the version is there already or above the newest |
| ReleaseNotes.ReleasesDescend | scripts/version.ts:160-198 | over any sequence of releases, with forced bumps in between, the parsed versions strictly descend, each release adds exactly one section on top, and the older ones stay |
| PromiseCache.TakesAnotherIff | packages/openapi/src/assets.ts:87-90 | a rejection evicts another promise's entry if and only if a reset and a retry came between |
| PromiseCache.StepKeepsInv | packages/openapi/src/explorer.ts:86-102 | every ask, settlement and handler keeps the cache's invariant |
| PromiseCache.UncheckedHandlerKeepsInvIff | packages/openapi/src/assets.ts:87-90 | an unchecked handler keeps the invariant if and only if it does not take another promise's entry |
| PromiseCache.OnePromiseAtATime | packages/openapi/src/explorer.ts:86-102 | no second promise for a key while one is pending or fulfilled, and no rejected entry once its handler ran |
| PromiseCache.FirstSettlementStays | packages/openapi/src/explorer.ts:88-101 | over any history a promise whose first settlement fulfils is fulfilled ever after, and one whose first settlement rejects is rejected |
| PromiseCache.FulfilledIsKept | packages/openapi/src/explorer.ts:88-101 | over any history without a reset every later ask for a fulfilled promise's key is answered with it and makes no new one |
| PromiseCache.RejectedIsRetried | packages/openapi/src/explorer.ts:92-101 | a rejected promise answers until its handler runs, and the ask after that makes a new one |
| PromiseCache.AskedIsAnswered | packages/openapi/src/explorer.ts:86-102 | an ask is answered with a promise made for that key, the same for the next ask, and pending when it is new |
| PromiseCache.CheckNeverFails | packages/openapi/src/explorer.ts:98-100 | without resets the identity check never fails: with and without it every history ends the same |
| PromiseCache.ResetNeedsTheCheck | packages/openapi/src/assets.ts:129-131 | with a reset and no check, two reads of one package can be pending at once |
| Explorer.OpenApiExplorer.Document | packages/openapi/src/explorer.ts:53-68 | a cached document is answered unchanged; a missing one is the version's document, or the primary one, under the prefix, and is kept |
| Explorer.OpenApiExplorer.Json | packages/openapi/src/explorer.ts:70-77 | the same for its serialisation, which asks for the document only on a miss |
| Explorer.OpenApiExplorer.Page | packages/openapi/src/explorer.ts:86-102 | an ask of the promise cache, whose rules it is under: one render per key at a time, a page that rendered kept for good, a failed one rendered again; a cold page reads the document |
| Explorer.OpenApiExplorer.Evict | packages/openapi/src/explorer.ts:98-100 | the handler deletes the entry only if it is still its own |
| Explorer.PackageAssets.Resolve | packages/openapi/src/assets.ts:83-93 | one read per package at a time, under the same rules |
| Explorer.PackageAssets.Evict | packages/openapi/src/assets.ts:87-90 | the handler deletes whatever is cached under the name |
| Explorer.PackageAssets.Reset | packages/openapi/src/assets.ts:129-131 | a reset empties the map and leaves running reads alone |
| Explorer.KeysAreApart | packages/openapi/src/explorer.ts:54 | without line breaks in prefixes, one key means one prefix and one version, an absent version counting as the empty one |
| Explorer.LineBreaksCollide | packages/openapi/src/explorer.ts:54 | a line break moved between prefix and version leaves the key as it is |
| Explorer.KeyIsItsOwnIff | packages/openapi/src/explorer.ts:54 | a call shares its key with no other prefix if and only if neither its prefix nor its version has a line break |
| Explorer.LineBreakAnswersAnother | packages/openapi/src/explorer.ts:53-68 | after a call with a line break in its prefix, the call sharing its key is answered with its document |
| Explorer.WrongDocument | packages/openapi/src/explorer.ts:53-68 | a history in which that is not the document recomputation would give |
| Explorer.EmptyVersionIsAnsweredAsNone | packages/openapi/src/explorer.ts:53-68 | after a call for no version, the call for the version called '' is answered with its document |
| Explorer.RecomputedIff | packages/openapi/src/explorer.ts:53-102 | every history with prefixes free of line breaks is answered as recomputation would if and only if asking for the version called '' gives the primary document |
| Explorer.EmptyVersionIsWrong | packages/openapi/src/explorer.ts:53-68 | an explorer with a document for '' and a history that answers it with another |
| Explorer.CachedIsRecomputed | packages/openapi/src/explorer.ts:53-102 | under that condition, after any history of document, serialisation and page calls, document and serialisation are what recomputation would give |
| ProcessTree.ReadTree | internal/bench/src/resources.ts:73-107 | terminates on any table, sums each process reachable from the root through readable ones exactly once, and is null exactly when the root is unreadable |
| ProcessTree.WeightsAre | internal/bench/src/resources.ts:93-97 | what is summed is a process's ticks and its resident pages at 4096 bytes each |
| ProcessTree.RootIsRead | internal/bench/src/resources.ts:101 | the tree is empty exactly when the root cannot be read |
| ProcessTree.LargestIsMaximum | internal/bench/src/resources.ts:176-183 | the running maximum is an upper bound that is attained |
| ProcessTree.ResourceSampler.Take | internal/bench/src/resources.ts:176-183 | a readable reading is counted and kept, an unreadable one changes nothing |
| ProcessTree.ResourceSampler.Stop | internal/bench/src/resources.ts:185-202 | null exactly when nothing was read at the start or since; else the peak, the tree size and the clamped CPU over all readings taken |
| Series.CappedSeries.Get | packages/infra/src/series.ts:46-61 | the answer and the map after it, in all four branches |
| Series.CappedSeries.Clear | packages/infra/src/series.ts:38-40 | empties the map |
| Series.KeysAreInjective | packages/infra/src/series.ts:11-12 | two pairs of labels have one key if and only if they are the same pair, whatever the labels hold |
| Series.SameLabelsSameObject | packages/infra/src/series.ts:42-61 | from any cleared state the same labels are answered with the same object whatever calls come between |
| Series.NeverMoreThan129 | packages/infra/src/series.ts:22-24 | never more than 129 entries, from any cleared state |
| Series.SharedOnlyByOverflow | packages/infra/src/series.ts:46-61 | two different pairs share an object if and only if both resolve to the overflow entry |
| Series.OwnSeriesIffBelowTheCap | packages/infra/src/series.ts:46-61 | labels asked for the first time get a series of their own if and only if fewer than 128 other pairs were asked for since the clear, and else the one called `(other)` |
| RateCounter.RedisKey.Increment | packages/auth/src/redis.ts:40-44 | run alone it counts one up and sets the deadline on creation only |
| RateCounter.StepKeepsInv | packages/auth/src/redis.ts:40-44 | every command of every client, every expiry and every delete keeps the counter's invariant, unless a client owing the deadline is lost or overtaken |
| RateCounter.UnkeptStepSpoils | packages/auth/src/redis.ts:40-49 | from a sound state a step leaves the windows counting if and only if it is not such a loss or delete |
| RateCounter.WindowsCountIffKept | packages/auth/src/redis.ts:40-49 | over whole runs from the empty key: the windows count throughout if and only if no step is |
| RateCounter.EveryWindowCounts | packages/auth/src/redis.ts:40-44 | when no client owing the deadline is lost or overtaken by a delete, each window returns exactly 1, 2, 3, ... and gets its deadline exactly once, from the client that saw 1 |
| RateCounter.LaterHitsDoNotExtend | packages/auth/src/redis.ts:33-34 | a deadline that is set changes only by passing or by a delete |
| RateCounter.StrandedForEver | packages/auth/src/redis.ts:41-42 | a counter whose creator was lost stays, without a deadline, until a delete |
| RateCounter.LossStrandsIff | packages/auth/src/redis.ts:41-42 | losing a client strands the counter if and only if it had still to set the deadline |
| RateCounter.DeleteLetsAStaleExpireExtend | packages/auth/src/redis.ts:41-49 | after a delete an earlier client's EXPIRE moves the new window's deadline |
| SiteMarkdown.SiteLines | internal/docs/scripts/content.ts:148-174 | the loop keeps exactly the lines the filter wants |
| SiteMarkdown.OnlyLevelTwoDrops | internal/docs/scripts/content.ts:166-171 | only a heading of level 2 starts an excluded section, so any other ends one |
| SiteMarkdown.KeptIffWanted | internal/docs/scripts/content.ts:154-174 | a line is kept if and only if its section is not excluded and it is fenced or outside every centred block, both told from the lines before it |
| SiteMarkdown.NothingUnwantedIsKept | internal/docs/scripts/content.ts:154-174 | what is kept is a subsequence, none of it in an excluded section and no unfenced line in a centred block |
| SiteMarkdown.FilterTwiceIsFilterOnce | internal/docs/scripts/content.ts:148-174 | filtering the kept lines keeps all of them, when no fence falls in a centred block |
| SiteMarkdown.KeepsAllIff | internal/docs/scripts/content.ts:154-174 | the filter keeps all of its input if and only if no unfenced line of it starts a centred block or an excluded section; of its own output this says when a second pass changes nothing |
| SiteMarkdown.FilterTwiceIff | internal/docs/scripts/content.ts:148-174 | filtering the kept lines keeps all of them if and only if no kept line starts a block or an excluded section with an odd number of dropped fence lines before it |
| SiteMarkdown.FenceInCenteredIsUnstable | internal/docs/scripts/content.ts:155-165 | with one, a second pass drops more |
| Ranges.FormatRanges | scripts/coverage-report.ts:117-137 | the loop's text is the ranges of the sorted input, written in order |
| Ranges.TextReadsBack | scripts/coverage-report.ts:117-137 | the text, read back and expanded, gives the sorted lines |
| Ranges.RangesLoseNothing | scripts/coverage-report.ts:117-137 | expanding the ranges in order gives the sorted input, repeats and zeros included |
| Ranges.GappedIff | scripts/coverage-report.ts:125-134 | for distinct lines the ranges are separated by gaps if and only if lines 0 and 1 are not both there |
| Ranges.RangesAreFewest | scripts/coverage-report.ts:125-134 | and then no list of ranges covering the same lines is shorter |
| Ranges.ZeroStandsAlone | scripts/coverage-report.ts:126 | line 0 never joins line 1 |
| PostReview.CommentableLines | scripts/post-review.ts:221-247 | per file, the lines the cursor stops on; the last of two entries for a file counts |
| PostReview.CommentableAreShown | scripts/post-review.ts:220-247 | for well-formed hunks these are exactly the right-hand line numbers the diff shows |
| PostReview.EntryIsAPatch | scripts/post-review.ts:221-247 | a file has commentable lines if and only if some entry of its name has a patch, and they are the last such patch's |
| PostReview.BuildReview | scripts/post-review.ts:138-218 | the verdict, the inline comments and the findings outside the diff |
| PostReview.ReviewPartitions | scripts/post-review.ts:180-197 | inline and outside findings interleave back to the input: none dropped, doubled or reordered |
| PostReview.CommentsSitOnShownLines | scripts/post-review.ts:134-197 | a finding becomes an inline comment, as often as it was made, exactly when it names a file of the diff and a line that file's last patch shows on the right; every other one stands in the body as often |
| PostReview.VerdictAloneApproves | scripts/post-review.ts:149-161 | prose without a list is approved on an APPROVE verdict alone, and commented on without one |
| PostReview.ApprovalNeedsAgreement | scripts/post-review.ts:149-161 | approval exactly when there is no finding and either an APPROVE verdict or, without a verdict, a bare empty list |
| WorkspaceRanges.Manifest.ResolveField | scripts/workspace-ranges.ts:106-118 | throws exactly when some range's package is unknown; else the whole field is resolved and the report names exactly the entries rewritten |
| WorkspaceRanges.Manifest.ResolveWorkspaceDeps | scripts/workspace-ranges.ts:96-122 | the same over the three dependency fields |
| WorkspaceRanges.Manifest.AssertNoWorkspaceRanges | scripts/workspace-ranges.ts:135-153 | the offenders are exactly the workspace ranges left |
| WorkspaceRanges.Package.WithResolvedWorkspaceDeps | scripts/publish.ts:47-73 | the manifest file ends as it began in every outcome, and what ships has every range resolved and none left |
| WorkspaceRanges.ResolvedEntry | scripts/workspace-ranges.ts:81-118 | an ordinary range stays as it is, `workspace:*` and `workspace:` become the caret of the version, and any other specifier is kept before it |
| WorkspaceRanges.OnlyNestedRangesSurvive | scripts/workspace-ranges.ts:81-89 | a resolved range is still a workspace range if and only if its specifier was one |
| WorkspaceRanges.AssertionFailsOnlyForNested | scripts/workspace-ranges.ts:135-153 | with all packages known the final assertion fails if and only if some specifier is nested |
| WorkspaceRanges.LockstepRangeIsCaret | scripts/workspace-ranges.ts:81-89 | after a lockstep bump a `*` or empty range on a released package becomes `^` of the shared version, and an explicit specifier stays before it |

## Left out

* `passThrough`, `isStandardSchema`, `danglingRefs` and `snapshot` of packages/openapi, and the rest of `generate.ts`: they add no state or recursion the model lacks.
* JSON values that JavaScript treats specially: object prototypes (`__proto__`, `constructor` as keys), key order, and arrays or booleans as definitions or as `$defs` itself.
* A `$ref` inside a data keyword (`const`, `enum`, `default`) is treated as a reference, as the code does.
* The vendor's converter: its output and the schema's optional `id` are inputs, and so is the reason it may refuse.
* Warning texts: a warning is its kind and the names it mentions.
* `decodeURIComponent`, `JSON.stringify`, `withPrefix` and the upper case of a letter are arbitrary total functions, so a throwing `decodeURIComponent` is not modelled.
* The page's HTML, its hrefs and how an absent version differs there from an empty one; the renderer's outcome is an input.
* Regular expressions are classifiers, except the release heading, which is read character by character: a commit, a diff row or a README line carries what its patterns found. `slugify` and `isExcluded` are part of the classification.
* `siteMarkdown`'s joining, its collapse of blank lines and its final trim: the model ends with the kept lines. `renderDoc` and `rewriteHref` are not modelled.
* git, npm, GitHub and Redis are abstract states with atomic steps; tokens, tags, GitHub releases, the lockfile and `bun fmt` on the changelog are left out. A package added to or removed from main during a release is not modelled.
* `isVersionPublished` is a choice of each publish step: it may wrongly answer no, and answers yes only when the version is there.
* Version strings `semver.order` cannot read are not modelled: a version is its numbers, pre-release identifiers and build metadata.
* `parseReleaseTrigger`, `mergeSubject`, `getForcePublishTarget` and the change detection of `bump.ts`: they only choose whether a run starts.
* `groupByPackage`, `parseLcov` and the report of `coverage-report.ts`: sums and formatting. Lines are naturals.
* The wording of a review's body and of its comments, and how findings and verdicts are found in the text.
* React's scheduling: a render that changes the dependencies, a settlement, a timer and an unmount are atomic events in any order.
* `/proc` parsing and its races: the process table is frozen, and a field that is not a number is not modelled. `pairRounds` and the wall clock are left out; CPU time is a real number.
* `values()` of `CappedSeries` and the default of its second label. The object a factory builds is its labels and the number of objects built before it.
* `get`, `getAndDelete` and `set` of `redisStorage`.
* The sort of `findWorkspaces` and the parallel build itself.
* Characters are UTF-16 code units.
* Board.ShortcutIsTheScan: keys that end in a wildcard are in ShortcutIsTheWinner, because which pattern such a key's own path goes to depends on the whole table.
* Wrap.WrapIsGreedy: needs a text without empty words, because an empty word at the start of a line is dropped; NothingLostIff says exactly when a text survives.
* SiteMarkdown.FilterTwiceIsFilterOnce: one way, because it is the special case the code is written for; FilterTwiceIff is the exact condition.
* Changelog.ParseChangelog: takes the heading reader as a parameter; `PrependThenParse` and `ReleaseNotes` use the real one.
* Explorer.CachedIsRecomputed: needs prefixes without line breaks and a version called '' that gives the primary document, because the cache key joins the two with a line break; KeyIsItsOwnIff and RecomputedIff say exactly when it fails.
