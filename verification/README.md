# Build and release tooling: a verified model

The repository's build and release scripts hold a number of real algorithms. This project models them in Dafny and
proves what they are for.

- **Gate scheduler** (`scripts/run-gates.ts`): the depth-first cycle finder, the graph validation, and the scheduler
  as a step machine whose only free choice is which running gate settles next. `RunGates.Execute` is the loop of
  `runGates` itself; the machine's runs are what it performs. Every run keeps the safety invariant, ends, cannot
  stall, and all complete runs agree.
- **Schema path lookup** (`scripts/gen-config-catalog.ts`): the three-valued walk over recursive type declarations,
  with the one `seen` set threaded through all branches, judged against a derivation meaning of "the path is present".
  It is sound where the lookup does not pass over syntax it cannot read, for `missing` exactly there; on declarations
  that can be charted (`PathCharts`) every lookup ends, and its verdict is exact too.
  The walk's fuel only stands for the depth of the recursion: more fuel never changes an answer. Also the key-path
  parser and the worklist that collects the declarations a config type is pasted with.
- **Publication** (`scripts/publish-npm-baseline.ts`): the registry as two maps, each npm command that writes as one
  atomic step, and a process that may stop before any of them.
- **Package order** (`scripts/package-graph.ts`): the topological sort by rounds.
- **Archive dates** (`scripts/archived-agent-notes.ts`): the date check, with the date arithmetic of sections 15.9.1.3
  to 15.9.1.5, 15.9.1.12 and 15.9.4.3 of ECMA-262 edition 5.1 written out.
- **Link rewriting** (`scripts/project-doc-site.ts`), **fence splicing** (`scripts/translation-brief.ts`) and
  **package renaming** (`scripts/rescope-vendor.ts`): edits of text that must leave everything else as it is.
- **Reference faces** (`scripts/project-reference-faces.ts`), **paired derivatives**
  (`scripts/paired-markdown-derivatives.ts`) and **pairing records** (`scripts/translation-pairing-record.ts`).

`Wrappers`, `Sequences`, `Strings` and `DependencyGraph` hold what several of these share. `GateOrder`, `LinkErrors`,
`PathPlain` and `RescopePlain` tell what the definitions the others rest on do on plain inputs, by places in lists and by
the characters themselves. Code that updates state
step by step is a method with loops, or a class with the source's fields (`GateGraph.CycleFinder`,
`Publication.RegistryPublication`); the rest are functions.

## Where the code does not do what one might expect

Each of these is stated as a lemma with the failing input and, where there is one, the exact condition.

- A rename is documented as idempotent (`scripts/rescope-vendor.ts:13-15`). It is so exactly when no two tokens of one
  name share a quote character: `'cordis'cordis'` changes again on a second run (`Rescope.TwiceIsOnce`,
  `Rescope.SharedQuoteChangesAgain`). The reverse rename restores such lines too; it fails exactly on lines that held a
  new name already, other than in a quote that closes a changed token of its old name (`Rescope.ReverseUndoes`).
- `parseTranslationPairingRecord` does not read back every record that `renderTranslationPairingRecord` writes: a file
  named just `.md` cannot be a key, and a line break among the directories of the path leaves a stray line after the
  comment that carries the path (`PairingRecord.RoundTrip` gives the exact condition).
- A link is not always rewritten at its destination. The bracket scan of `labelEnd` knows neither code spans nor nested
  destinations: in ``[`](y)`](x)`` it stops inside the code span and `y` is replaced there, while the link keeps `x`
  (`LinkFailures.CodeSpanMisplaced`); in `[![a](b](c))](d)` the replaced ranges of link and image overlap and the new
  text of the link is lost (`LinkFailures.UnpairedLabelsMisplaced`). The scan of the destination stops at any white
  space, a no-break space too, and takes any character after a backslash. A destination is found exactly when both
  scans end where label and destination end (`LinkDestinations.DestinationFoundIff`): the label's brackets pair up, and
  so do the destination's parentheses, with no white space outside them. `LinkRewriting.RewriteMarkdown` replaces
  exactly the destinations of the links when this holds for each link to be replaced.
- The walk of `lookupPath` does not end on `type A = A['x'] | string`, because an indexed access adds a step and the key
  that guards against recursion counts the steps; nor on any alias that comes, whatever the path, to a circle of aliases
  with at least one indexed access (`PathDivergence.IndexedCirclesDiverge`). It ends wherever no circle of declarations
  adds more steps than it takes off (`PathTermination.BoundedLookupsEnd`). On aliases below which nothing depends on
  the path this is exact (`PathDivergence.KeepingLookupsEndIff`).
- `lookupPath` says it never answers `missing` for what it cannot see through (`scripts/gen-config-catalog.ts:315`). A
  `missing` can be wrong, and exactly then, when the lookup comes to another operator than `readonly`, or misses a
  property where a method or an index signature may stand for it (`PathSoundness.MissingIsAbsentIff`); a path found
  through `keyof` need not be there (`PathSoundness.KeysAreNotMembers`).
- Sharing the `seen` set makes a union of one interface with itself `unknown` (`PathPrecision.SharedSeenDegrades`).
  Where no declaration is entered twice with the same number of steps the verdict is exact
  (`PathPrecision.VerdictsAreExact`).
- `latest` moves last on every registry exactly when the bundle's own tag is another one, or no package comes after
  the entry package (`PublicationRestart.LatestIsLastIff`). The packaging command only creates `dev-` tags, but a
  loaded manifest may hold any tag.
- The test that only fences changed compares prose with its fences masked. A prose line that reads like a mask can
  deceive it (`MechanicalUpdate.MaskInProseDeceives`), exactly when it stands next to the fence of that mask in the
  confirmed source (`MechanicalUpdate.FencesOnlyIff`). The positions of the fences are inputs of both.
- Splicing a fence takes one carriage return off the end of each line that has one
  (`MechanicalUpdate.CarriageReturnLost`), so the spliced fence is the current one exactly when no line of a changed
  fence ends in a carriage return (`MechanicalUpdate.SplicedFencesAreCurrent`).

## Model

| member | source | states |
|---|---|---|
| `DependencyGraph.EndlessHasCycle` | scripts/run-gates.ts:675-692 | a set of names each of which needs a name of the set holds a cycle |
| `DependencyGraph.AcyclicHasMinimal` | scripts/run-gates.ts:665-666 | without cycles, any names include one that needs none of them |
| `DependencyGraph.FinishOrderMeansAcyclic` | scripts/run-gates.ts:684-690 | nodes that finished after all their needs lie on no cycle |
| `DependencyGraph.FinishedIsSafe` | scripts/run-gates.ts:676-690 | nothing that is finished leads to a cycle |
| `GateGraph.CycleFinder.constructor` | scripts/run-gates.ts:670-673 | the search starts with nothing finished and an empty path |
| `GateGraph.CycleFinder.Visit` | scripts/run-gates.ts:675-692 | either a real cycle, closed by a walk that takes the first need leading to one each time, or the node is finished, nothing finished is lost, and path and positions are restored |
| `GateGraph.CycleFinder.VisitNeeds` | scripts/run-gates.ts:684-687 | either such a cycle through the first of the needs that leads to one, or all known needs of the node on top are finished and the path is restored |
| `GateGraph.CycleFinder.Leave` | scripts/run-gates.ts:688-690 | the node on top leaves the path and is finished |
| `GateGraph.FindDependencyCycle` | scripts/run-gates.ts:669-699 | returns nothing exactly when the graph is acyclic; what it returns is a cycle of needs whose first and last element agree, found from the first gate that leads to one by taking the first such need each time |
| `GateGraph.ValidateGateGraph` | scripts/run-gates.ts:649-667 | accepts exactly the non-empty lists with distinct ids, known needs and no cycle; an error is about the first defect: the first repeated id, else the first unknown need, else the cycle of the search |
| `GateGraph.MinimalGate` | scripts/run-gates.ts:649-667 | on an accepted list any set of gates has one that needs none of the others |
| `GateScheduler.EveryRunKeeps` | scripts/run-gates.ts:723-769 | every reachable state: at most `maxActive` gates run, a gate starts at most once and only after its needs passed, results exist for exactly the decided gates and are observed once, skipping begins only when nothing runs or is ready |
| `GateScheduler.StartKeeps` | scripts/run-gates.ts:725-732 | starting the first ready gate keeps the invariant |
| `GateScheduler.SettleKeeps` | scripts/run-gates.ts:763-769 | settling any running gate keeps the invariant |
| `GateScheduler.SkipKeeps` | scripts/run-gates.ts:737-757 | skipping a blocked gate keeps the invariant |
| `GateOrder.StepMeaning` | scripts/run-gates.ts:725-768 | the gate started is ready and none before it in the list is; a worker waits only when all are busy or none is ready; the gate skipped is the first with a failed or skipped need, and its message lists these needs in their order |
| `GateOrder.RunsStepInOrder` | scripts/run-gates.ts:723-770 | every step of every run is such a step |
| `GateOrder.BlockersInOrder` | scripts/run-gates.ts:742-745 | the needs named in a skip message are exactly the failed or skipped ones, in order |
| `GateOrder.OneWorkerInTurn` | scripts/run-gates.ts:723-770 | with one worker each result is that of the first gate in the list that can run after the results before it, and at the end of the first that must be skipped |
| `GateConfluence.RunsEnd` | scripts/run-gates.ts:723-770 | no run has more than two steps for each gate |
| `GateConfluence.NoStall` | scripts/run-gates.ts:723-770 | from every reachable state some step is possible exactly as long as a gate is undecided |
| `GateConfluence.DrainedHasBlocked` | scripts/run-gates.ts:737-741 | once nothing runs and nothing is ready, an undecided gate implies a pending gate with an unsuccessful need: the stall error cannot occur |
| `GateConfluence.VerdictUnique` | scripts/run-gates.ts:779-781 | the recursive verdict (skipped iff some need did not pass, otherwise its own outcome) determines one status map |
| `GateConfluence.CompleteIsVerdict` | scripts/run-gates.ts:737-769 | a complete run ends in that status map |
| `GateConfluence.PassedMeansAllReachedPass` | scripts/run-gates.ts:779-781 | a gate passes exactly when it and all gates it reaches through needs pass on their own |
| `GateConfluence.DrainedRunsAgree` | scripts/run-gates.ts:734-761 | the skipping loop, from wherever a run entered it, gives the result it gives from the one drained state of the verdict |
| `GateConfluence.Confluence` | scripts/run-gates.ts:709-777 | complete runs with any worker limits and settling orders have equal states and equal results, skip messages included |
| `GateConfluence.ResultMeaning` | scripts/run-gates.ts:772-776 | every gate has a result with its own status, unsuccessful exactly when something it reaches does not pass |
| `GateConfluence.ExitCodeMeaning` | scripts/run-gates.ts:94-96 | the exit code is 0 when all gates reached from gates that may not fail pass on their own, and 1 otherwise, for every schedule |
| `RunGates.Execute` | scripts/run-gates.ts:709-777 | fails exactly on an invalid graph or worker count, before anything is observed; otherwise performs a complete run of the machine, starting, settling and skipping in the order told by places in the list, and returns its results in input order, each observed once, with one worker in turn |
| `RunGates.SkipBlocked` | scripts/run-gates.ts:734-760 | the skipping loop ends with every gate decided and never finds nothing to skip |
| `RunGates.SkipFindsGate` | scripts/run-gates.ts:737-758 | with gates pending it finds a blocked one, and skipping it is a step of the machine |
| `RunGates.BlockedAmongPending` | scripts/run-gates.ts:735-740 | searching the pending gates is searching all gates for a pending blocked one |
| `RunGates.ObservedOnceEach` | scripts/run-gates.ts:746-768 | the observed results are the returned ones, each once |
| `RunGates.NonePendingIsComplete` | scripts/run-gates.ts:772-776 | every gate has a result at the end: the missing-result error cannot occur |
| `PathSoundness.VerdictsAreSound` | scripts/gen-config-catalog.ts:309-403 | `found` implies the path is present if the lookup passes through no operator but `readonly`, and `missing` that it is absent if it passes over no method or index signature either, whatever the unseen places hold and whichever way unions are read |
| `PathSoundness.MissingIsAbsentIff` | scripts/gen-config-catalog.ts:332-368 | a path answered `missing` is absent under every reading exactly when the lookup comes to no operator but `readonly` and misses no property where another member may stand for it |
| `PathSoundness.KeysAreNotMembers` | scripts/gen-config-catalog.ts:380 | a path into an operator such as `keyof` need not be there, whatever is answered |
| `PathPlain.WrapperPassesThrough` | scripts/gen-config-catalog.ts:307-308 | `Partial`, `Required`, `Readonly` and `NonNullable` with an argument are looked up as their argument |
| `PathPlain.ArrayTakesElement` | scripts/gen-config-catalog.ts:395-397 | `Array` and `ReadonlyArray` with an argument take an element step into it and know of no member |
| `PathPlain.NameLeadsToDeclaration` | scripts/gen-config-catalog.ts:388-401 | any other name leads to the declaration it means, if it is not qualified and means one |
| `PathPlain.FirstMemberCounts` | scripts/gen-config-catalog.ts:337-341 | of several members of a name the first counts |
| `PathSoundness.FoundDecl` | scripts/gen-config-catalog.ts:344-361 | a `found` declaration has a derivation, whatever had been seen before |
| `PathSoundness.FoundType` | scripts/gen-config-catalog.ts:362-402 | a `found` type node has a derivation |
| `PathSoundness.FoundEvery` | scripts/gen-config-catalog.ts:370-376 | a union answered `found` has the path in every branch |
| `PathSoundness.MissingDecl` | scripts/gen-config-catalog.ts:344-361 | a `missing` declaration has no derivation of any depth |
| `PathSoundness.MissingType` | scripts/gen-config-catalog.ts:362-402 | a `missing` type node has no derivation of any depth |
| `PathSoundness.MissingUnion` | scripts/gen-config-catalog.ts:370-376 | a union answered `missing` has no branch with the path |
| `PathTermination.AnswerUnique` | scripts/gen-config-catalog.ts:317-403 | a lookup has at most one answer |
| `PathTermination.EndsDecl` | scripts/gen-config-catalog.ts:322-361 | where no circle of declarations lengthens a path, fuel for each key not entered yet suffices, as every entry uses up one key |
| `PathTermination.EndsType` | scripts/gen-config-catalog.ts:362-402 | there, below a node the descent is structural until a declaration is entered |
| `PathTermination.BoundedLookupsEnd` | scripts/gen-config-catalog.ts:317-403 | if no circle of the declarations a lookup can come to makes its path longer, it ends with exactly one answer |
| `PathTermination.PlainLookupsEnd` | scripts/gen-config-catalog.ts:317-403 | in particular without indexed access every lookup ends with exactly one answer, on arbitrarily recursive declarations |
| `PathTermination.IndexedOnceEnds` | scripts/gen-config-catalog.ts:381-385 | `type A = I['x']` ends, as nothing leads back to it |
| `PathDivergence.EntersDecl` | scripts/gen-config-catalog.ts:322-361 | after an answer every alias entered has had everything entered that it leads to whatever the path, with the steps gained on the way |
| `PathDivergence.EntersType` | scripts/gen-config-catalog.ts:362-402 | and so has a node |
| `PathDivergence.IndexedCirclesDiverge` | scripts/gen-config-catalog.ts:317-403 | an alias that leads, through any branches of unions and intersections, to a circle of aliases with at least one indexed access has no answer for any non-empty path |
| `PathDivergence.KeepingLookupsEndIff` | scripts/gen-config-catalog.ts:317-403 | where nothing below the aliases depends on the path, an alias has an answer exactly if no circle it comes to makes the path longer |
| `PathDivergence.IndexedAccessCanDiverge` | scripts/gen-config-catalog.ts:370-385 | the union of `A['x']` and a string as the body of `A` has no answer for any non-empty path |
| `PathPrecision.SharedSeenDegrades` | scripts/gen-config-catalog.ts:322-326 | a path present in both branches of a union is answered `unknown` though each branch alone is answered `found` |
| `PathPrecision.VerdictsAreExact` | scripts/gen-config-catalog.ts:309-403 | a walk that enters no declaration twice with the same number of steps answers `found` where the path is present under every reading of the unseen places and `missing` where it is present under none, and only there if it passes through no operator and over no member |
| `PathPrecision.SettledDecl` | scripts/gen-config-catalog.ts:344-361 | on such a walk an `unknown` declaration has the path under the most generous reading and lacks it under the least |
| `PathPrecision.SettledType` | scripts/gen-config-catalog.ts:362-402 | so does an `unknown` type node |
| `PathCharts.ChartedDecl` | scripts/gen-config-catalog.ts:322-361 | on a chart, a declaration whose marks all stand above it is walked without meeting a mark, and leaves marks only on what it reaches |
| `PathCharts.ChartedType` | scripts/gen-config-catalog.ts:362-402 | the same for a type node |
| `PathCharts.ChartedLookupsAreExact` | scripts/gen-config-catalog.ts:309-403 | if every circle of declarations takes steps off the path and no two branches reach the same declaration, every lookup has exactly one answer, and it is exact in this sense |
| `PathCharts.RecursionIsCharted` | scripts/gen-config-catalog.ts:322-326 | a recursive interface is such a case |
| `KeyPaths.ParsePath` | scripts/gen-config-catalog.ts:232-245 | the loops build one member step a segment and one element step for each trailing `[]` |
| `KeyPaths.KeyUnderBase` | scripts/gen-config-catalog.ts:232-245 | a key after `base.` is looked up after the steps of the base |
| `KeyPaths.ArrayUnderBase` | scripts/gen-config-catalog.ts:236-243 | `[]` after any path adds one element step |
| `KeyPaths.PlainKey` | scripts/gen-config-catalog.ts:232-245 | a key without dots that does not end in `[]` is one member |
| `ConfigClosure.CollectClosure` | scripts/gen-config-catalog.ts:663-717 | reports nothing exactly when every reached name resolves to one meaning and the config type is local; then pastes are exactly the reached local declarations, each once and the config type first, and every reached name is in exactly one table; in any case pastes, references and reports are those of the history of waiting items, in its order: the first item of a name settles its meaning, and each later one that differs is reported with both kinds |
| `ConfigClosure.TakeItem` | scripts/gen-config-catalog.ts:664-711 | one turn of the loop leaves the next tables |
| `ConfigClosure.AccountGoesOn` | scripts/gen-config-catalog.ts:664-711 | the next tables account for one more item |
| `ConfigClosure.ReachedStays` | scripts/gen-config-catalog.ts:709-714 | what is reached stays within any set closed under mentions |
| `Publication.RegistryPublication.RemoteIntegrity` | scripts/publish-npm-baseline.ts:725-742 | absent, the published integrity, or an error when it is not a SHA-512 one |
| `Publication.RegistryPublication.RemoteDistTag` | scripts/publish-npm-baseline.ts:744-753 | answers the version the tag points at, which is the release's exactly when the package is tagged with it |
| `Publication.RegistryPublication.NpmPublish` | scripts/publish-npm-baseline.ts:633-638 | one atomic write of the version and its tag, or none if the process stops |
| `Publication.RegistryPublication.EnsureDistTag` | scripts/publish-npm-baseline.ts:755-764 | writes nothing when the tag is right, one tag otherwise, and fails on an unpublished version |
| `Publication.RegistryPublication.PublishPackage` | scripts/publish-npm-baseline.ts:630-650 | one turn makes at most one write, the planned one |
| `Publication.RegistryPublication.Publish` | scripts/publish-npm-baseline.ts:625-654 | leaves the registry after as many planned writes as it got to make; success means the release is complete; with enough steps it fails with an error exactly when the starting registry gives cause for it |
| `Publication.RegistryPublication.PublishPlanned` | scripts/publish-npm-baseline.ts:630-653 | the loop, the `latest` tag and the verification have the outcome of a plan cut off after so many steps |
| `Publication.RegistryPublication.VerifyRemote` | scripts/publish-npm-baseline.ts:662-684 | passes exactly when every package has the bundled integrity and tag; otherwise says which of the checks failed on the first package that has not |
| `Publication.RegistryPublication.VerifyReleaseEntryDistTag` | scripts/publish-npm-baseline.ts:686-698 | fails exactly when `latest` of the entry package is not the release, and says where it points |
| `Publication.RegistryPublication.Verify` | scripts/publish-npm-baseline.ts:656-660 | passes exactly on a released registry: every package and both tags are as the bundle has them |
| `Publication.CompletedIsReleased` | scripts/publish-npm-baseline.ts:630-653 | a plan without error leaves every package and both tags right |
| `Publication.RunErrorIff` | scripts/publish-npm-baseline.ts:630-653 | the error is a different integrity, or one that is not SHA-512, of the first package published otherwise than in the bundle, and the missing entry package only when there is no such package |
| `Publication.PlanWithoutConflict` | scripts/publish-npm-baseline.ts:630-651 | without a conflict the writes are each package's own, told from the starting registry, in order, then `latest` if it is not right yet |
| `Publication.PlanToConflict` | scripts/publish-npm-baseline.ts:630-643 | with one they are those of the packages before it |
| `Publication.ReleasedMeans` | scripts/publish-npm-baseline.ts:649-698 | a released registry has `latest` of `@deepseek-ai/dsh` at the release |
| `PublicationRestart.Resume` | scripts/publish-npm-baseline.ts:630-651 | after stopping anywhere a rerun plans exactly the writes not made yet, with the same end |
| `PublicationRestart.CrashesDoNotMatter` | scripts/publish-npm-baseline.ts:625-654 | however often the process is stopped and rerun, the registry is as after one run with as many writes |
| `PublicationRestart.NothingPlannedIffReleased` | scripts/publish-npm-baseline.ts:639-651 | a run writes nothing and succeeds exactly on a released registry |
| `PublicationRestart.PublishSucceedsIff` | scripts/publish-npm-baseline.ts:630-651 | a run succeeds exactly when what is published under the version is the bundle's own and the entry package is there to be tagged |
| `PublicationRestart.NeverOverwrites` | scripts/publish-npm-baseline.ts:632-642 | at every point of every run no published integrity has changed, and only the version and its tags were touched |
| `PublicationRestart.LatestMovesLast` | scripts/publish-npm-baseline.ts:649-651 | `latest` reaches the release only once every package is published and tagged |
| `PublicationRestart.LatestMovesEarly` | scripts/publish-npm-baseline.ts:633-638 | with `latest` as the bundle's tag it moves before the package after the entry package is published |
| `PublicationRestart.LatestIsLastIff` | scripts/publish-npm-baseline.ts:649-651 | it moves last on all registries exactly when the bundle's tag is another one or nothing follows the entry package |
| `PackageOrder.TopoSort` | scripts/package-graph.ts:59-75 | succeeds exactly when no package reaches a cycle or an absent dependency; the output is a permutation with dependencies first, rounds are longest-chain depths, and within a round groups stand as listed, then unlisted ones by name, then packages by short name; a failure names exactly the packages that cannot be ordered, in list order |
| `PackageOrder.ComparisonIsTotal` | scripts/package-graph.ts:77-83 | the comparison is a total order that ties only packages of one group and short name |
| `PackageOrder.ComparisonMeaning` | scripts/package-graph.ts:77-83 | a group listed earlier comes first, a listed one before an unlisted one, unlisted groups go by name and one group by short name |
| `PackageOrder.RoundStep` | scripts/package-graph.ts:63-73 | a round adds a layer, and an empty one means exactly the remaining packages cannot be ordered |
| `PackageOrder.Place` | scripts/package-graph.ts:68-72 | moves a round from the remaining packages to the output |
| `PackageOrder.StuckAreUnorderable` | scripts/package-graph.ts:64-67 | with nothing ready, exactly the remaining packages reach a cycle or an absent dependency |
| `PackageOrder.RoundIsDepth` | scripts/package-graph.ts:63-73 | a package's round is the length of its longest dependency chain |
| `PackageOrder.DependenciesFirst` | scripts/package-graph.ts:65-71 | every package comes after all its dependencies |
| `CivilDate.ValidDateMeaning` | scripts/archived-agent-notes.ts:70-78 | accepts exactly the date-shaped texts naming a real date of the proleptic Gregorian calendar from year 100 on |
| `CivilDate.WrittenDateAccepted` | scripts/archived-agent-notes.ts:70-78 | a date written with zero-padded decimal numbers is accepted exactly when it is real and of year 100 or later |
| `CivilDate.AcceptedIsWritten` | scripts/archived-agent-notes.ts:71-75 | every accepted text is such a date |
| `CivilDate.ReadsBackMeaning` | scripts/archived-agent-notes.ts:76-77 | for every year, month and day the numbers read back exactly when they are a real date of year 100 or later |
| `CivilDate.ReadBackIsReal` | scripts/archived-agent-notes.ts:77 | what is read back from any day is a real date |
| `CivilDate.RealDateIsReadBack` | scripts/archived-agent-notes.ts:76-77 | making a real date's day and reading it back gives the date |
| `CivilDate.YearIsUnique` | scripts/archived-agent-notes.ts:77 | a day lies in one year |
| `CivilDate.EarlyYearsAreTaken` | scripts/archived-agent-notes.ts:76 | years 0 to 99 never read back, being taken for the 1900s |
| `LinkScan.LabelEnd` | scripts/project-doc-site.ts:71-87 | the loop finds where as many brackets have closed as were opened, or nothing |
| `LinkScan.LabelEndFindsMatch` | scripts/project-doc-site.ts:71-87 | after paired-up label text the scan stops at exactly its closing bracket |
| `LinkScan.LabelIsPairedUp` | scripts/project-doc-site.ts:71-87 | what the scan takes for the label is always paired-up text |
| `LinkScan.LabelEndFoundIff` | scripts/project-doc-site.ts:71-87 | the bracket after a label is found exactly when the label is paired-up text |
| `LinkScan.LabelStopsIff` | scripts/project-doc-site.ts:71-87 | the label is taken to end at any other place exactly when a bracket stands there and the text before it is paired up |
| `LinkScan.DestinationRange` | scripts/project-doc-site.ts:89-132 | the loops find the range and errors that the recursive scan describes |
| `LinkScan.ScanDestination` | scripts/project-doc-site.ts:109-131 | the angle-bracket and bare scans from a given start |
| `LinkScan.SkipWhitespace` | scripts/project-doc-site.ts:65-69 | the loop stops at the first character that is not white space |
| `DestinationText.BareScannedIff` | scripts/project-doc-site.ts:117-131 | the scan for a bare destination stops behind a text exactly when its parentheses pair up and its white space is inside them, or at the end of the source when it can be completed to such a text |
| `DestinationText.AngleScannedIff` | scripts/project-doc-site.ts:109-114 | the angle-bracket scan stops at the closing bracket exactly when it is the first unescaped one |
| `LinkDestinations.DestinationFoundIff` | scripts/project-doc-site.ts:89-132 | in a link, image or definition the range found is its destination, whatever follows, exactly when the label can be got over and the scan from there ends where the destination does |
| `LinkDestinations.PlainDestinationFound` | scripts/project-doc-site.ts:89-132 | a destination of letters, digits and `. / # ? = & - _ %` and the like is found from its first character to its last, before a parenthesis, a blank, a tab or a line break |
| `LinkErrors.ScanErrorIff` | scripts/project-doc-site.ts:89-116 | the error is a missing label end, separator, parenthesis or closing angle bracket exactly when the source lacks it |
| `Strings.SpacesAreListed` | scripts/project-doc-site.ts:65-69 | white space is exactly the 25 characters the standard lists |
| `DestinationText.AngleTextFound` | scripts/project-doc-site.ts:109-114 | what the angle-bracket scan takes is always text without an unescaped `>` |
| `LinkRewriting.RewriteMarkdown` | scripts/project-doc-site.ts:225-277 | fails exactly when some range cannot be found; if every link to be replaced is one whose destination is found, and each two are apart or one in the caption of the other, exactly their destinations are replaced, all at once; in any case computed ranges that share nothing are |
| `LinkRewriting.LocatedIff` | scripts/project-doc-site.ts:231-268 | the ranges located are exactly the real destinations exactly when each of them can be found |
| `LinkRewriting.FittingNodesAreDisjoint` | scripts/project-doc-site.ts:231-268 | the computed ranges of links that are apart, or one in the paired-up label of the other, share nothing |
| `LinkRewriting.CollectReplacements` | scripts/project-doc-site.ts:231-270 | collects the replacements in visiting order or the first failure |
| `LinkRewriting.FirstFailureReported` | scripts/project-doc-site.ts:231-270 | a page fails with the error of its first failing link |
| `LinkRewriting.PlainLinkRewritten` | scripts/project-doc-site.ts:225-277 | a page of one plain link keeps everything but its destination |
| `LinkRewriting.SplicingIsSubstituting` | scripts/project-doc-site.ts:272-276 | splicing by descending start replaces the ranges and keeps every other character |
| `LinkRewriting.VisitingOrderIsIrrelevant` | scripts/project-doc-site.ts:264-276 | the result does not depend on the order of visiting |
| `LinkRewriting.NestedDestinationsApart` | scripts/project-doc-site.ts:231-268 | a destination inside a paired-up label ends before the link's own destination starts |
| `LinkFailures.UnpairedLabelsOverlap` | scripts/project-doc-site.ts:71-87 | a concrete link and image to be replaced whose ranges overlap |
| `LinkFailures.UnpairedLabelsMisplaced` | scripts/project-doc-site.ts:272-276 | the wrong page that comes out of them |
| `LinkFailures.CodeSpanMisplaced` | scripts/project-doc-site.ts:71-87 | a single link with a bracket in a code span, and the wrong page that comes out |
| `CodeSplice.LinesReadBack` | scripts/translation-brief.ts:35-43 | lines joined to a text read back as they were exactly when none ends in a carriage return |
| `CodeSplice.UnendedReadsBack` | scripts/translation-brief.ts:35-39 | of a text without a final line break every line is read, the last one as it is |
| `CodeSplice.EveryText` | scripts/translation-brief.ts:35-39 | every text is nothing, lines with a final line break, or lines without one |
| `CodeSplice.WeaveIsDocument` | scripts/translation-brief.ts:167-175 | prose and spans in turn are the document |
| `CodeSplice.ReplaceSpanTexts` | scripts/translation-brief.ts:167-175 | the result is the prose unchanged with each replaced span's new lines in its place |
| `FenceMasks.MaskCodeSpans` | scripts/translation-brief.ts:177-179 | the prose with one placeholder line for each fence |
| `FenceMasks.DecimalValue` | scripts/translation-brief.ts:178 | the number in a placeholder is written in decimal digits |
| `FenceMasks.MasksDetermineProse` | scripts/translation-brief.ts:198 | no other prose gives the same masked lines exactly when no mask also stands in the prose just before or after its own place |
| `MechanicalUpdate.FencesOnlyIff` | scripts/translation-brief.ts:193-203 | given where the fences lie, an update is computed only when nothing but fences changed, exactly for the confirmed sources in whose prose no mask stands next to its own place |
| `MechanicalUpdate.UpdateDeceived` | scripts/translation-brief.ts:193-203 | for every other confirmed source a version with different prose passes the test, in which only a line was put into the first fence |
| `MechanicalUpdate.MaskInProseDeceives` | scripts/translation-brief.ts:177-198 | three documents, of fences of any length, on which an update is computed although the prose changed |
| `MechanicalUpdate.ComputeMechanicalUpdate` | scripts/translation-brief.ts:193-203 | answers exactly when the masked texts agree and the counterpart has the old fences; the answer is the counterpart's prose with the spliced fences |
| `MechanicalUpdate.UpdateCarriesFencesOver` | scripts/translation-brief.ts:193-203 | then both versions share their prose and differ in fences only, if no mask stands next to its own place in the confirmed source, and the counterpart is its own prose with the old fences |
| `MechanicalUpdate.UpdateIff` | scripts/translation-brief.ts:193-203 | if no mask stands next to its own place in the confirmed source, an update is computed exactly when the prose is the same, the counterpart has the old fences and some fence changed |
| `MechanicalUpdate.UpdateReadsBack` | scripts/translation-brief.ts:167-203 | the updated text has spans giving the counterpart's prose and the spliced fences exactly when no line of it ends in a carriage return |
| `MechanicalUpdate.SplicedFencesAreCurrent` | scripts/translation-brief.ts:200-202 | every spliced fence is the current source's exactly when no line of a changed fence ends in a carriage return |
| `MechanicalUpdate.CarriageReturnLost` | scripts/translation-brief.ts:200-202 | two documents on which the spliced fence is not the current one |
| `RescopeTokens.CutIsLine` | scripts/rescope-vendor.ts:501 | every line is a head and quote-delimited parts, which give it back |
| `RescopeTokens.TokenAtPart` | scripts/rescope-vendor.ts:501 | the token expression matches at a quote exactly when the next quote is the same and the text between is the name or the name and a subpath |
| `RescopeTokens.ReplaceIsPass` | scripts/rescope-vendor.ts:514 | the global replacement rewrites exactly the tokens whose opening quote did not close one just rewritten |
| `RescopeLines.ScalarIsUnique` | scripts/rescope-vendor.ts:502 | a line has at most one YAML name scalar |
| `RescopeLines.ScalarInHead` | scripts/rescope-vendor.ts:502 | the scalar lies before the first quote and does not depend on what follows it |
| `RescopeLines.ScalarReplaced` | scripts/rescope-vendor.ts:515 | after a replacement the scalar is the new name |
| `Rescope.RewriteLine` | scripts/rescope-vendor.ts:510-518 | the loop applies every pattern that is not skipped, tokens first |
| `Rescope.RewrittenIsClosed` | scripts/rescope-vendor.ts:510-518 | the whole table changes exactly the taken tokens and the scalar named in it and nothing else, in whatever order its names are tried |
| `Rescope.TwiceIsOnce` | scripts/rescope-vendor.ts:510-518 | rewriting is idempotent on a line exactly when no two tokens of one name share a quote |
| `Rescope.SharedQuoteChangesAgain` | scripts/rescope-vendor.ts:501-514 | for every name of every table `'name'name'` changes again |
| `Rescope.ReverseUndoes` | scripts/rescope-vendor.ts:491-518 | the reverse table undoes a rewriting exactly when the line held no new name, as scalar or token, but in quotes that close a changed token of its old name |
| `Rescope.NewNameIsNotRestored` | scripts/rescope-vendor.ts:491-518 | for every name of every table a line of the quoted new name is not restored |
| `Rescope.ActiveIsCompatible` | scripts/rescope-vendor.ts:506-513 | skipping names keeps a table free of clashes |
| `RescopePlain.ActiveKept` | scripts/rescope-vendor.ts:506-513 | exactly the patterns whose upstream name is not skipped, in order |
| `RescopePlain.QuotedNameRewritten` | scripts/rescope-vendor.ts:501-514 | a name in single quotes, double quotes or backticks, with or without a subpath, gives way to the new one |
| `RescopePlain.NameValueRewritten` | scripts/rescope-vendor.ts:502-515 | so does the value of a `name:` key, in a list item too and before a comment |
| `RescopePlain.VendoredNames` | scripts/rescope-vendor.ts:46-56 | `cordis` becomes `@deepseek-ai/cordis` and `@cordisjs/plugin-loader` becomes `@deepseek-ai/cordis-plugin-loader`, and back |
| `RescopeTable.VendoredIsTable` | scripts/rescope-vendor.ts:46-56 | the vendored packages are such a table |
| `RescopeTable.TableIsCompatible` | scripts/rescope-vendor.ts:46-56 | the names of such a table never clash, in either direction and any order |
| `RescopeTable.TableReverses` | scripts/rescope-vendor.ts:491-497 | the two directions hold each other's reversed patterns |
| `RescopeFiles.Rewrite` | scripts/rescope-vendor.ts:531-549 | keeps the number of lines, rewrites exactly the eligible ones and counts exactly those that changed |
| `RescopeFiles.NamesArePlain` | scripts/rescope-vendor.ts:536-548 | names that never clash hold no line break, so `Rewrite` may be used with them |
| `RescopeFiles.RewriteLines` | scripts/rescope-vendor.ts:534-547 | the loop with the fence flag |
| `RescopeFiles.EligibleMeaning` | scripts/rescope-vendor.ts:531-546 | in a `.md` file a line follows the rename after an odd number of fence lines, under `docs/` outside fences too, and a fence line never does; in other files every line does |
| `RescopeFiles.FenceLineMeaning` | scripts/rescope-vendor.ts:538 | a fence line has three backticks after nothing but white space |
| `RescopeFiles.DifferencesMeaning` | scripts/rescope-vendor.ts:544-545 | the count is the number of places where the lines differ |
| `RescopeFiles.FenceStays` | scripts/rescope-vendor.ts:538-541 | a rewriting neither makes nor unmakes a fence line |
| `RescopeFiles.SecondRunIsIdle` | scripts/rescope-vendor.ts:531-549 | a second run changes nothing exactly when no eligible line has tokens of one name sharing a quote |
| `RescopeFiles.ReverseRunRestores` | scripts/rescope-vendor.ts:531-549 | the reverse run restores a file exactly when each of its eligible lines is restored |
| `ReferenceFaces.CollectViolations` | scripts/project-reference-faces.ts:30-63 | reports exactly the references entering a split project wrongly from configs reached through conforming references, each once, in the order of the messages |
| `ReferenceFaces.Visit` | scripts/project-reference-faces.ts:40-59 | a config's references are each reported or followed |
| `ReferenceFaces.ProjectFaceMeaning` | scripts/project-reference-faces.ts:88-103 | a config's face is that of its nearest ancestor that has one, cyclic extension or not |
| `ReferenceFaces.LeafFace` | scripts/project-reference-faces.ts:94-95 | `tsconfig.host.json` and `tsconfig.client.json` have their face wherever they lie |
| `ReferenceFaces.BaseFace` | scripts/project-reference-faces.ts:96-97 | the base config of the workspace is the host's, the client base the client's |
| `ReferenceFaces.OtherFace` | scripts/project-reference-faces.ts:94-97 | no other config has a face by its own name |
| `ReferenceFaces.ContainsMeaning` | scripts/project-reference-faces.ts:116-121 | a directory holds itself and what lies below it |
| `ReferenceFaces.WalkStartsAtLeaves` | scripts/project-reference-faces.ts:33 | the walk starts at the host and the client config of the workspace |
| `ReferenceFaces.DeepestRootFound` | scripts/project-reference-faces.ts:116-121 | with longer roots first, the root found lies inside every other root containing the target |
| `ReferenceFaces.ConformsIff` | scripts/project-reference-faces.ts:40-59 | a reference conforms exactly when no split project holds its target, or it is the leaf of the config's face in the deepest one that does; otherwise it is reported as coming from a config without a face exactly when that has none |
| `ReferenceFaces.WalkComplete` | scripts/project-reference-faces.ts:35-60 | when the walk ends, no violation of a reached config is missing |
| `PairedDerivatives.UnsuffixedSibling` | scripts/paired-markdown-derivatives.ts:16-18 | a sibling's path is three characters shorter, so chains of siblings end |
| `PairedDerivatives.SiblingMeaning` | scripts/paired-markdown-derivatives.ts:16-18 | the sibling of `base.zh.md` is `base.md`, and no other path has one |
| `PairedDerivatives.GroupByDoc` | scripts/paired-markdown-derivatives.ts:35-41 | groups hold each document's blocks in scan order |
| `PairedDerivatives.BlocksKept` | scripts/paired-markdown-derivatives.ts:35-41 | a document's blocks are exactly those it owns, in scan order |
| `PairedDerivatives.DerivativeDocs` | scripts/paired-markdown-derivatives.ts:43-55 | finds exactly the documents whose blocks repeat their sibling's one for one |
| `PairedDerivatives.Partition` | scripts/paired-markdown-derivatives.ts:30-63 | both outputs are the blocks of the one or the other kind of document, each as often and in the order in which they stand in the input |
| `PairedDerivatives.DocumentsStayWhole` | scripts/paired-markdown-derivatives.ts:57-61 | a document goes whole to one side and not at all to the other |
| `PairedDerivatives.PartitionIsComplete` | scripts/paired-markdown-derivatives.ts:57-62 | no block is lost or doubled |
| `PairedDerivatives.DerivativeHasPrimary` | scripts/paired-markdown-derivatives.ts:43-55 | behind every derivative document stands a primary one with equal fingerprints, index for index, through chains of derivatives |
| `PairingRecord.PairFoundFromMeta` | scripts/translation-pairing-record.ts:31-53 | the pair derived from a pair's record path is the pair |
| `PairingRecord.PairOfEnglish` | scripts/translation-pairing-record.ts:31-53 | the pair of `base.md` is `base.zh.md` and `base.i18n.yaml`, and a Chinese document has none |
| `PairingRecord.OnlyMarkdownPairs` | scripts/translation-pairing-record.ts:31-53 | only paths ending in `.md` and records ending in `.i18n.yaml` have a pair |
| `PairingRecord.HashMeaning` | scripts/translation-pairing-record.ts:22 | a hash is forty lower-case hexadecimal digits |
| `PairingRecord.ParseTranslationPairingRecord` | scripts/translation-pairing-record.ts:62-77 | the loop with its early exits accepts what the fold over all lines accepts |
| `PairingRecord.AcceptedRecords` | scripts/translation-pairing-record.ts:62-77 | a record is accepted exactly when its significant lines are the two entries, in either order: no duplicate, no other key |
| `PairingRecord.RenderedLines` | scripts/translation-pairing-record.ts:86-99 | the significant lines of a rendered record |
| `PairingRecord.RoundTrip` | scripts/translation-pairing-record.ts:62-99 | parsing a rendered record gives it back exactly when the hashes are hashes, the file name can be a key, and what follows a line break in the path is all empty or comment lines |
| `PairingRecord.PlainPathsRoundTrip` | scripts/translation-pairing-record.ts:62-99 | without line breaks, colons and number signs it does so for every name but `.md` |
| `PairingRecord.DirectoryBreakUnreadable` | scripts/translation-pairing-record.ts:94 | a path with a line break whose record is not read back |
| `PairingRecord.BareNameUnreadable` | scripts/translation-pairing-record.ts:23 | a path ending in the bare name `.md` whose record is not read back |

## Left out

- Child processes, git, npm, tar, the file system and console output: their results are inputs or atomic steps.
- Execute: gate durations, output and exit details are not part of a result, and an executor that rejects is not modelled; `runGate` only ever passes or fails.
- TypeScript and Markdown parsing: type declarations, name resolution, link nodes and code spans come as inputs.
- Declaration merging in `lookupPath`: a name resolves to one declaration, as `declForTypeName` gives it.
- ChartedLookupsAreExact: charts tell beforehand that no mark is met, and ask that branches share no declaration at all; walks that pass a shared declaration by are covered by the theorem, not by a chart.
- Publish: other writers to the registry at the same time, and the `latest` tag npm may set on a package's very first publication, are not modelled; ping, identity and confirmation are left out.
- TopoSort: short names are distinct, `localeCompare` is any three-way comparison that is a total order, and the order of groups is stated for lists of at most 2^53 - 1 groups.
- CollectViolations: messages are kept as the references they report; how two messages compare is a parameter, any total order.
- RewriteMarkdown: the new destinations come with the nodes; resolving URLs and routes is file-system work. Where some destination is not found, what comes out is stated for two concrete pages only.
- ComputeMechanicalUpdate: spans are given as sorted, disjoint line ranges, in the failing cases too; that the updated text has spans for the spliced fences is proved, that a Markdown parser finds these and no others is not.
- ReplaceScalar: the line is matched as a whole, so a second `name:` after a carriage return or Unicode line separator inside a line, where the multi-line anchor would match again, is not modelled.
- RewrittenIsClosed: the order of the table by name length is not modelled, as no order matters.
- RenderTranslationPairingRecord: the wording of the comment lines is a parameter; they are single lines beginning with `#`.
- Characters are single units; UTF-16 surrogate pairs are not modelled.
- The exact edits, post-conditions and residue checks of `scripts/rescope-vendor.ts`: counts of literal substrings.
- `findExportedTypeDecl` and `foldComposed`: a guarded descent and a fold much simpler than `lookupPath`.
- The sealed manifest of archived notes, and the staging and checking of internal dependency pins: field-by-field comparisons.
- `markdownUnits`, `sectionSpans`, `spansAligned` and `fenceFor` of `scripts/translation-brief.ts`: they depend on the Markdown parser or are single expressions.
- The gate tables, rendered prose and catalog text: data.
