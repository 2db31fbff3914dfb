# lavs: a verified model

lavs tracks components and their versions, the dependencies between the components of a product, and
releases that freeze a product's active versions. This project models its four cores and proves what
holds of them for every input and every run.

- **Derived bumps.** `DependencyGraph` defines walks and proves the cycle guard exact. `BumpPropagation`
  proves the memoised depth-first traversal against a closed form: the greatest level any walk carries.
  `Impact` proves the server's forward projection and the client mock's reverse search compute the same map.
- **The release registry.** `Store` holds the tables and the relation `Next`: one atomic command, its
  outcome, and the next store. `StoreInvariant` and `StoreSteps` give the invariant and its preservation,
  `RegistryRuns` and `VersionStack` the theorems over whole runs. `CommandOutcomes` says what each command
  answers and stores on the tables alone, without the relation's own functions. `Registry` is the imperative
  form: each query is a method that updates the tables in the source's order and is proved to be one step of
  `Next`.
- **In-memory structures.** `SlidingWindow` is the limiter and `LimiterRuns` compares its runs with a log
  that never forgets. `EventBus` is the bounded fan-out, compared with the published stream.
- **Transformations.** `Migration` conserves legacy rows, `EventCache` shows the client's reducers follow
  the server, `ParamStyle` and `StatementDialect` are text rewrites that can be read back.

Conventions. Fresh ids are parameters (or, in `Migration`, a counter). A query without a unique answer
(`LIMIT 1` over ties, rows without an order, the order of a set) is a free choice, and every property holds
for each choice. A run may start from products of any policy and base version and nothing else. The clock is
a parameter. Versions pinned by a release are compared as sets of rows. `Store.Release.title` is a release's
label. Ids sort by character code.

Where code and documentation disagree, the code is modelled:

- The module text of `app/domain/bump_propagation.py` says the product bump equals the maximum own change.
  It does not when an active component depends directly on a component without a version:
  `BumpPropagation.MaxOwnChangeFails` gives an input and `BumpPropagation.MaxOwnChangeIff` the exact
  condition; `RegistryRuns.UnchangedRecutIff` is the consequence for re-cutting an unchanged product.
- `app/connections/statement_dialect.py` moves a row count behind the select head. When the head itself
  runs into the clause the two are glued (`StatementDialect.GluedExample`); the rewrite can be read back
  exactly when it does not (`StatementDialect.RewriteUndoneIff`).
- The client's rollback reducer does not demote a third active row although the server does:
  `EventCache.RollbackReducerCanDiverge` gives an instance, `EventCache.RollbackSyncIff` the exact condition for
  one rollback and `EventCache.ClientFollowsServerIff` the exact condition for a whole run.
- `SlidingWindowLimiter` promises at most `max_keys` buckets. A counting call keeps that promise exactly when
  the cap is at least one (`SlidingWindow.CapIsKeptIff`); with a cap of zero it keeps one bucket
  (`SlidingWindow.ZeroCapKeepsOne`).
- It also says a key is admitted only below `limit` admissions per window. A live eviction breaks that
  (`LimiterRuns.EvictionOverAdmits`). `LimiterRuns.DecisionIsNaiveIff` says exactly when a decision keeps it, and
  `LimiterRuns.WindowBoundedByLosses` how far it can be exceeded.

## Model

| member | source | states |
|---|---|---|
| BumpLevels.MaxLevel | app/domain/bump_propagation.py:42-47 | the result is an upper bound of the list and one of its members, or `NoBump` for the empty list |
| DependencyGraph.Adjacency | app/domain/dependency_graph.py:11-16 | the adjacency map lists exactly the edges |
| DependencyGraph.IsReachable | app/domain/dependency_graph.py:19-42 | terminates on every edge list, and returns true iff a walk (possibly of no steps) leads from start to target |
| DependencyGraph.WouldCreateCycle | app/domain/dependency_graph.py:45-59 | on an acyclic list, true iff adding the edge would create a cycle |
| DependencyGraph.EdgeKeepsAcyclicIff | app/domain/dependency_graph.py:45-59 | adding an edge to an acyclic graph keeps it acyclic iff its head cannot reach its tail |
| BumpPropagation.StrongestIsMaximum | app/domain/bump_propagation.py:61-61 | the closed form is the maximum, over all walks from a node, of the walk's end level propagated once per step |
| BumpPropagation.StrongestIsLeastSolution | app/domain/bump_propagation.py:55-72 | on every edge set, cyclic or not, the maximum over walks solves the recursive equation and is below every other solution |
| BumpPropagation.AcyclicSolutionIsUnique | app/domain/bump_propagation.py:55-72 | on an acyclic edge set the recursive equation has exactly one solution, the maximum over walks |
| BumpPropagation.CyclicSolutionsDiffer | app/domain/bump_propagation.py:88-92 | a graph with a self-edge where the equation has a second solution, so acyclicity is needed |
| BumpPropagation.Traversal.Effective | app/domain/bump_propagation.py:85-98 | terminates on cycles; the level lies between base and the maximum over walks and equals it wherever no cycle is reachable; memoised levels are never revised and the visiting set is restored |
| BumpPropagation.EffectiveLevels | app/domain/bump_propagation.py:55-100 | every node gets such a level, at least what its direct dependencies' bases imply; on an acyclic list the result is the maximum over walks, whatever the key and edge order |
| BumpPropagation.DeriveProductBump | app/domain/bump_propagation.py:103-124 | for every edge list and order: the maximum of the own levels, minor if an active component depends directly on one without a level, and major if something was removed |
| BumpPropagation.MaxOwnChangeIff | app/domain/bump_propagation.py:8-15 | the bump equals the highest own change iff a removal is already matched by a major, and a dangling edge by a minor or major, among the own changes |
| BumpPropagation.MaxOwnChangeFails | app/domain/bump_propagation.py:79-81 | an unchanged component with an edge to an unversioned one bumps the product by a minor |
| Impact.StrongestIsImpact | app/queries/component_dependencies/impact_query.py:60-76 | with every component unchanged but a major target, the strongest walk gives minor to direct dependents, patch to transitive ones and none to others, on every graph |
| Impact.ProjectImpact | app/queries/component_dependencies/impact_query.py:57-77 | the response lists, in component order, exactly the affected components other than the target with those levels |
| Impact.ImpactedBy | frontend/ui/src/mocks/handlers.ts:35-58 | the breadth-first search terminates and maps exactly the nodes other than the target that reach it to minor when direct and patch otherwise, on every edge list |
| Impact.ClientMatchesServer | frontend/ui/src/mocks/handlers.ts:28-58 | on an acyclic product graph the client's search and the server's projection give the same map |
| ChangeClassifier.DistanceIsUltrametric | app/domain/change_classifier.py:18-46 | the change level is none exactly on the same version (empty label meaning none), symmetric, and satisfies the strong triangle inequality |
| ChangeClassifier.LevelIsHighestDifference | app/domain/change_classifier.py:32-46 | major iff the majors differ, at most a patch iff major and minor agree, none iff the numbers agree and the labels do or both are empty or absent; a new component is a minor change |
| ChangeClassifier.EndToEndChangeBounded | app/domain/change_classifier.py:18-46 | over any history the end-to-end change is at most the largest single step |
| ProductVersion.SplitLosesNothing | app/domain/product_version.py:33-34 | the pieces of a split contain no separator and join back to the text |
| ProductVersion.RenderParses | app/domain/product_version.py:17-43 | parsing the rendered triple gives the triple back, for all triples |
| ProductVersion.PrereleaseIsDropped | app/domain/product_version.py:20-21 | a prerelease suffix never changes the parsed core |
| ProductVersion.ParsesIff | app/domain/product_version.py:17-43 | a text parses iff it is three non-empty runs of ASCII digits joined by dots, with perhaps a suffix that starts with a dash |
| ProductVersion.TextIsParsed | app/domain/product_version.py:33-43 | and then it is read as the positional decimal values of its first, second and third run, as major, minor and patch |
| ProductVersion.BumpedText | app/domain/product_version.py:46-125 | the bump of such a text is the text of the numerals without leading zeros: the named part plus one, the parts right of it zero, the suffix dropped; no bump leaves the text alone |
| ProductVersion.BumpSemantics | app/domain/product_version.py:46-125 | a bump fails exactly on an unparseable version with something to bump; otherwise it parses to the incremented component with the lower ones reset (`BumpedText` says the same of the text) |
| ProductVersion.BumpIsMonotone | app/domain/product_version.py:101-125 | a bump never lowers the core, and raises it exactly when the level is not none |
| ProductVersion.ClassifyInvertsBump | app/domain/product_version.py:101-125 | classifying a core against its bumped form gives back the applied level |
| StoreSteps.CreateLeavesOneActive | app/queries/versions/create_version_query.py:73-92 | on any store, a create leaves the new row as its component's only active one, changes no other component, and loses no row |
| StoreSteps.RollbackLeavesOneActive | app/queries/versions/rollback_version_query.py:110-118 | on any store, a rollback leaves the previous row as the only active one of its component, marks the target, and loses no row |
| StoreSteps.RefusedAsCycleIff | app/queries/component_dependencies/add_dependency_query.py:109-120 | once the other checks pass, an edge is refused as a cycle exactly when adding it would create one |
| StoreSteps.AddDependencyKeepsInv | app/queries/component_dependencies/add_dependency_query.py:87-126 | an accepted edge keeps every product's edges acyclic, unique, without self-edges and within the product |
| StoreSteps.RemoveDependencyKeepsInv | app/queries/component_dependencies/remove_dependency_query.py:47-61 | so does a removal |
| StoreSteps.NothingIsRemoved | app/queries/releases/cut_release_query.py:220-221 | `removed_any` is false at every cut of a reachable store |
| StoreSteps.FirstCutIsMinor | app/queries/releases/cut_release_query.py:205-227 | a product's first cut is exactly minor under both policies, whatever its edges |
| StoreSteps.CutExtendsLedger | app/queries/releases/cut_release_query.py:149-174 | the release a cut appends carries its predecessor's version bumped, the levels implied by the previous manifest, and all components the previous release had |
| StoreSteps.NextKeepsInv | app/queries/releases/cut_release_query.py:91-175 | every command keeps the invariant (one active version per versioned component, acyclic edges, unique keys and pins, an explained ledger) and only extends the store |
| RegistryRuns.EveryStateHoldsInv | app/queries/versions/rollback_version_query.py:43-48 | the invariant holds in every state of every run |
| RegistryRuns.HistoryOnlyGrows | app/queries/versions/create_version_query.py:32-34 | between any two points of a run no row is lost, only version statuses change, rolled back is terminal, and releases and pins are only appended |
| RegistryRuns.ActiveComponentsGrow | app/queries/releases/cut_release_query.py:28-35 | the active components of a product only ever grow |
| RegistryRuns.CutFreezesActive | app/queries/releases/cut_release_query.py:124-172 | a new release's manifest pins a version of a component iff the component is the product's and that version was active when it was cut |
| RegistryRuns.CutBumpFormula | app/queries/releases/cut_release_query.py:205-247 | a default-policy cut of a reachable store bumps by the highest own change, raised to minor exactly when an active component depends directly on a never-versioned one |
| RegistryRuns.UnchangedRecutIff | app/domain/product_version.py:105-106 | a cut with nothing changed stores the previous version again iff there is no such edge, and otherwise that version with its minor bumped |
| RegistryRuns.ReleaseNeverChanges | app/queries/releases/cut_release_query.py:267-281 | a release loads as the same row and manifest at every later point of a run |
| RegistryRuns.LoadShowsActiveAtCut | app/queries/releases/cut_release_query.py:124-172 | at any time after a successful cut, loading its release lists a version of a component iff that version was active in the product when it was cut |
| RegistryRuns.ChangeLevelRederivable | app/queries/releases/cut_release_query.py:208-218 | at any later time each recorded change level equals classifying the pinned version against the preceding release's pinned version; legacy releases record none |
| RegistryRuns.RationaleMatchesRelease | app/queries/releases/cut_release_query.py:223-247 | at any later time a release records an explanation iff its policy is the default, with no removal; its bump is the release's and the highest effective level, each effective level covers the own one, and the own levels are exactly the manifest's |
| RegistryRuns.RepeatedKeyReplays | app/queries/releases/cut_release_query.py:116-122 | a cut repeating the key of a successful cut reports that release, not created, and leaves the store unchanged, whatever came between |
| RegistryRuns.RepeatedKeyLoadsTheSame | app/queries/releases/cut_release_query.py:121-122 | and that release loads exactly as when it was cut |
| RegistryRuns.OneReleasePerKey | app/queries/releases/cut_release_query.py:25-27 | at every point of every run at most one release of a product carries a key |
| RegistryRuns.ProductVersionsMonotone | app/queries/releases/cut_release_query.py:139-147 | from a parseable base, all stored versions parse, never decrease along a product's releases, and increase exactly when a change was recorded in between |
| RegistryRuns.PinnedComponentsGrow | app/queries/releases/cut_release_query.py:163-172 | each release's component set contains that of every earlier release of the product |
| RegistryRuns.EndToEndLevelBounded | app/queries/releases/cut_release_query.py:208-218 | the change between the versions two releases pin for a component is at most the largest level recorded in between |
| CommandOutcomes.CreateVersionOutcome | app/queries/versions/create_version_query.py:65-98 | on any store, a create succeeds iff its component exists; it adds one active row and changes only the status of the component's active rows, to superseded |
| CommandOutcomes.RollbackOutcome | app/queries/versions/rollback_version_query.py:27-38 | on any store, a rollback is refused iff the target is unknown or no row of its component that is not rolled back has a smaller number, at the first part that differs; otherwise it re-activates one that no other such row exceeds |
| CommandOutcomes.RollbackWrites | app/queries/versions/rollback_version_query.py:109-118 | a successful rollback writes exactly the target, the re-activated row and the component's other active rows, and only their status |
| CommandOutcomes.AddDependencyOutcome | app/queries/component_dependencies/add_dependency_query.py:64-126 | an edge is added iff the product exists, both ends are its components, no row stores it and the graph stays acyclic with it; then one row is added and nothing else changes |
| CommandOutcomes.RefusedDependency | app/queries/component_dependencies/add_dependency_query.py:64-164 | a refused edge is answered by the first check that fails, in the order of the code; a cycle only when the edge would close one |
| CommandOutcomes.RemoveDependencyOutcome | app/queries/component_dependencies/remove_dependency_query.py:47-61 | a removal succeeds iff the edge is stored, and deletes exactly its row |
| CommandOutcomes.RemovedEdgeIsGone | app/queries/component_dependencies/remove_dependency_query.py:47-61 | the product is left with its other edges and every other product with its own |
| CommandOutcomes.CutOutcome | app/queries/releases/cut_release_query.py:107-175 | the answer to every cut: unknown product, the old release for a used key, nothing active, a base version that does not parse, or the new release; only the last changes anything |
| CommandOutcomes.CutStoresRow | app/queries/releases/cut_release_query.py:139-162 | the stored row has the command's product, label, notes and key, and the version of the product's last release, or its base version, bumped by the recorded level |
| CommandOutcomes.PinnedNumberIff | app/queries/releases/cut_release_query.py:249-265 | the number a release pins for a component is that of the version its manifest row names |
| CommandOutcomes.CutRecordsWalks | app/queries/releases/cut_release_query.py:223-247 | each effective level a cut records is felt along some walk of the product's edges, and no walk out of that component is felt more |
| CommandOutcomes.RecordedLevelsAreWalks | app/queries/releases/cut_release_query.py:223-247 | at any later time the loaded release still records those levels, over the edges stored when it was cut |
| CommandOutcomes.ManifestRowsAre | app/queries/releases/cut_release_query.py:62-71 | each loaded manifest row shows its component's name, its version's number and the level of its pin |
| CommandOutcomes.LoadedRowsAreFromTheCut | app/queries/releases/cut_release_query.py:163-172 | at any later time a loaded row shows the name and number as they were at the cut, and the level its version was classified at then |
| VersionStack.NextRefinesStack | app/queries/versions/rollback_version_query.py:88-118 | when creates go above everything standing and rollbacks target the active version, create pushes, rollback pops to the row below, and popping the last is refused with nothing changed |
| VersionStack.RunRefinesStack | app/queries/versions/rollback_version_query.py:27-38 | over any such run the standing versions are the stack its commands spell out |
| VersionStack.HistoryIsStack | app/queries/versions/rollback_version_query.py:27-38 | over any such run that starts before the component's first version, its standing versions and its active one are the stack its commands spell out from nothing |
| VersionStack.ActiveIsTop | app/queries/versions/rollback_version_query.py:46-48 | the active version is the top of the stack and above every other standing version |
| VersionStack.RollbackLowersActive | app/queries/versions/rollback_version_query.py:27-38 | any successful rollback of the active version strictly lowers the active version and removes exactly the target from the standing ones |
| VersionStack.RollbacksAreBounded | app/queries/versions/rollback_version_query.py:103-107 | with n standing versions at most n-1 rollbacks of the active one succeed in a row |
| Registry.Registry.CreateVersion | app/queries/versions/create_version_query.py:51-98 | supersede then insert is the create step on any store, one with several active rows included, and keeps the invariant where it holds |
| Registry.Registry.SelectPrevious | app/queries/versions/rollback_version_query.py:27-38 | some highest standing version strictly below the target, or nothing exactly when there is none |
| Registry.Registry.Rollback | app/queries/versions/rollback_version_query.py:65-122 | the three ordered updates are the rollback step, with its two error cases, on any store, and keep the invariant where it holds |
| Registry.Registry.AddDependency | app/queries/component_dependencies/add_dependency_query.py:64-164 | the ordered checks and the insert are the add step on any store, and keep the invariant where it holds |
| Registry.Registry.RemoveDependency | app/queries/component_dependencies/remove_dependency_query.py:37-61 | look-up and delete are the remove step on any store, and keep the invariant where it holds |
| Registry.Registry.PriorManifest | app/queries/releases/cut_release_query.py:249-265 | the map holds exactly the components the previous release pinned, with their versions |
| Registry.Registry.Derive | app/queries/releases/cut_release_query.py:177-247 | the loops compute the step's bump, its explanation with the exact effective levels, and the change levels |
| Registry.Registry.Cut | app/queries/releases/cut_release_query.py:91-175 | replay, refusal and the inserting loop are the cut step, and keep the invariant |
| Registry.Registry.LoadRelease | app/queries/releases/cut_release_query.py:267-281 | reads the release row, and a manifest that lists a version of a component iff the release pins it, each row with the name, number and level of its component, version and pin |
| Registry.Registry.ImpactOf | app/queries/component_dependencies/impact_query.py:29-77 | not found exactly for an unknown product or a component outside it; otherwise the exact impact map of the product's graph, each component once and in ascending order |
| SlidingWindow.SlidingWindowLimiter.Allow | app/security/sliding_window_limiter.py:51-86 | decides and updates the buckets as specified, keeps every bucket non-empty, and, when it counts, leaves the tracked keys within the cap iff the cap is at least one; a limit of zero or less admits and changes nothing |
| SlidingWindow.SlidingWindowLimiter.PruneStale | app/security/sliding_window_limiter.py:88-97 | keeps exactly the buckets whose newest admission is after the cutoff |
| SlidingWindow.SlidingWindowLimiter.EvictLeastRecent | app/security/sliding_window_limiter.py:99-104 | drops one bucket whose newest admission is oldest |
| SlidingWindow.CallKeepsBounds | app/security/sliding_window_limiter.py:17-22 | no call, whatever its limit and window, leaves an empty bucket or more buckets than the larger of the cap and one |
| SlidingWindow.CapIsKeptIff | app/security/sliding_window_limiter.py:70-77 | after a counting call the tracked keys are within the cap iff the cap is at least one; below, exactly one key is kept |
| SlidingWindow.ZeroCapKeepsOne | app/security/sliding_window_limiter.py:70-77 | an instance: a cap of zero keeps one key |
| SlidingWindow.DropsOnlyForRoom | app/security/sliding_window_limiter.py:70-77 | a call drops a bucket only for an untracked key at the cap; then no stale one stays, and a live one goes only if the live ones alone fill the cap, alone, and with the oldest newest admission |
| SlidingWindow.OthersAreKept | app/security/sliding_window_limiter.py:65-86 | every other bucket that stays is unchanged, a call for a tracked key or below the cap drops none, and a limit of zero or less admits and changes nothing |
| LimiterRuns.RunKeepsCap | app/security/sliding_window_limiter.py:17-22 | after any call of any run no bucket is empty, and the tracked keys are within the cap iff the cap is at least one |
| LimiterRuns.RunTracks | app/security/sliding_window_limiter.py:70-86 | in every run, from any point where a key is untracked (such as the start), its bucket is the sorted tail of its admission log since then, at most `limit` long; what it lacks is stale unless a live bucket was evicted |
| LimiterRuns.RefusalIsGenuine | app/security/sliding_window_limiter.py:82-83 | a refused key really has `limit` admissions in the window, evictions or not |
| LimiterRuns.DecisionIsNaive | app/security/sliding_window_limiter.py:51-86 | while no live bucket of the key was evicted, the decision equals counting its full log |
| LimiterRuns.DecisionCountsSinceLoss | app/security/sliding_window_limiter.py:51-86 | in every run, evictions or not, the decision equals counting the admissions logged since the key last lost a live bucket |
| LimiterRuns.DecisionIsNaiveIff | app/security/sliding_window_limiter.py:51-86 | so it is the naive decision iff the window's admissions from before that loss do not lift the count from below the limit to the limit or above |
| LimiterRuns.GrantedIff | app/security/sliding_window_limiter.py:79-86 | counted on the calls themselves: a call is granted iff fewer than `limit` calls were granted to its key within the window since the key last lost a live bucket |
| LimiterRuns.NoWindowExceedsLimit | app/security/sliding_window_limiter.py:11-15 | while no live bucket of the key is evicted, no half-open window of that length holds more than `limit` admissions since the start of the run, or since any point where the key was untracked |
| LimiterRuns.WindowBoundedByLosses | app/security/sliding_window_limiter.py:99-104 | in every run, no half-open window of that length holds more than `limit` admissions of a key for each live eviction of it so far, plus one more `limit` |
| LimiterRuns.PrunedKeyIsStale | app/security/sliding_window_limiter.py:88-97 | a call that drops a key, in any run, leaves it no admission in the window iff its bucket was not evicted live |
| LimiterRuns.LiveEvictionMeansFull | app/security/sliding_window_limiter.py:72-77 | in every run a live bucket is evicted only when the live buckets fill the cap, for an untracked key; every other live bucket stays as it was and has no older newest admission |
| LimiterRuns.EvictionOverAdmits | app/security/sliding_window_limiter.py:99-104 | a run of three calls in which a live eviction lets a key exceed its limit inside one window |
| LimiterRuns.FewKeysNeverEvict | app/security/sliding_window_limiter.py:71-77 | a run that asks about no more keys than the cap evicts no live bucket |
| EventBus.QueueIsSuffix | app/events/event_bus.py:56-75 | after any history of offers and takes a queue holds the newest events offered, at most 256 |
| EventBus.DropsOnlyPast256 | app/events/event_bus.py:26-26 | a queue holds at most 256 events and drops one exactly when offered one while it holds 256 |
| EventBus.ShortStreamsLoseNothing | app/events/event_bus.py:14-19 | a stream of at most 256 events is received whole, however it is consumed |
| EventBus.EventsAreConserved | app/events/event_bus.py:14-19 | offered = delivered + dropped + queued |
| EventBus.LosslessIffNothingDropped | app/events/event_bus.py:14-19 | delivered events followed by the queue are the whole stream iff nothing was dropped |
| EventBus.DeliveredInOrder | app/events/event_bus.py:77-92 | what a consumer receives is a subsequence of the stream, before the queued tail |
| EventBus.EventBus.Publish | app/events/event_bus.py:37-53 | every subscriber of the product, and no other queue, is offered the event and ends with it; the registry is unchanged |
| EventBus.EventQueue.EvictOldestAndPut | app/events/event_bus.py:56-75 | a full queue loses its oldest event and gains the new one |
| EventBus.EventBus.Subscribe | app/events/event_bus.py:77-92 | a fresh empty queue joins the product's subscribers |
| EventBus.EventBus.Unsubscribe | app/events/event_bus.py:94-110 | removes the queue if present, and the product's entry with its last subscriber |
| EventBus.LiveQueueIsStreamSuffix | app/events/event_bus.py:37-92 | in every state a live queue is the tail of its product's stream since it subscribed, and the counts add up |
| Migration.FlatToRelationalMigration.Run | app/database/migration/flat_to_relational_migration.py:72-92 | migrates every row iff the flat table has rows, there are no products and no archive is in the way, and changes nothing otherwise; after a success the gate is closed |
| Migration.FlatToRelationalMigration.CreateProductAndComponent | app/database/migration/flat_to_relational_migration.py:214-237 | appends one product and its default component under two fresh ids and changes nothing else |
| Migration.FlatToRelationalMigration.InsertRelational | app/database/migration/flat_to_relational_migration.py:186-237 | one version per row with its numbers and status under its product's name, one product and one default service component per distinct name |
| Migration.RowsAreConserved | app/database/migration/flat_to_relational_migration.py:42-52 | joining the new tables gives back the legacy rows as a multiset |
| Migration.MigratedRowByRow | app/database/migration/flat_to_relational_migration.py:206-237 | the i-th version has the i-th legacy row's numbers and status, under a default service component of a product of its name |
| Migration.FlatToRelationalMigration.RunTwice | app/database/migration/flat_to_relational_migration.py:131-150 | running twice is running once: after a success, a closed gate or a blocked archive, the second run answers the same, changes no table and mints no id |
| EventCache.RollbackSyncIff | frontend/ui/src/features/live/event-cache.ts:31-48 | the reducer agrees with the server on a component iff the rollback left no third row active there |
| EventCache.ThirdActiveIff | frontend/ui/src/features/live/event-cache.ts:26-30 | with one active row per component that is the case iff the target or the re-activated version was the active one |
| EventCache.RollbackReducerCanDiverge | frontend/ui/src/features/live/event-cache.ts:31-48 | an instance where it does not agree |
| EventCache.ComponentFollows | frontend/ui/src/features/live/event-cache.ts:17-61 | after any server step and its event, the rows a cached component shows wrongly are those the step left active as third rows and the earlier ones not set right since; they show as active and are superseded |
| EventCache.TimelineFollowsIff | frontend/ui/src/features/live/event-cache.ts:17-61 | one server step and the reducer for its event keep the cached timeline equal to the server's versions iff the step leaves no third row active in a cached component |
| EventCache.GraphFollows | frontend/ui/src/features/live/event-cache.ts:67-81 | likewise for the cached edges, without condition |
| EventCache.OneEventPerSuccess | app/queries/versions/create_version_query.py:98-108 | a version or dependency command publishes to exactly one product iff it succeeds |
| EventCache.CachedComponentFollows | frontend/ui/src/features/live/event-cache.ts:17-61 | over any run, a cached component lists the server's versions of it, and the rows whose status is off are exactly those a rollback left as third rows that no later create in the component or rollback naming them has set right |
| EventCache.ClientFollowsServerIff | frontend/ui/src/features/live/event-cache.ts:17-61 | a snapshot folded with the events of any run that follows equals the server's versions iff no cached component has such a row |
| EventCache.ClientFollowsActiveRollbacks | frontend/ui/src/features/live/event-cache.ts:26-48 | in particular when every rollback targets the version active at the time |
| EventCache.GraphFollowsServer | frontend/ui/src/features/live/event-cache.ts:67-81 | the cached edges folded with the events of any run equal the server's, without condition |
| EventCache.RepeatedFramesChangeNothing | frontend/ui/src/features/live/event-cache.ts:63-81 | an immediately repeated dependency frame changes nothing, on any cached graph |
| EventCache.RepeatedRollbackChangesNothing | frontend/ui/src/features/live/event-cache.ts:31-48 | nor does a repeated rollback frame, on any timeline |
| EventCache.RepeatedCreateIff | frontend/ui/src/features/live/event-cache.ts:17-24 | a repeated create frame changes nothing iff the client does not cache its component |
| EventCache.RepeatedCreateDuplicates | frontend/ui/src/features/live/event-cache.ts:50-61 | otherwise the version is listed twice and the component mirrors no server table |
| ParamStyle.DecodeRender | app/connections/param_style.py:39-55 | for every statement, decoding the pyformat rendering left to right recovers the text with a placeholder at each `?` |
| ParamStyle.DriverReadsCanonical | app/connections/param_style.py:52-55 | in either style the driver reads the canonical statement, and in qmark style its very text |
| ParamStyle.RenderIsInjective | app/connections/param_style.py:39-55 | different statements are rendered differently |
| StatementDialect.MatchLimitIff | app/connections/statement_dialect.py:20-22 | the matcher accepts exactly the texts of the trailing-limit pattern and captures exactly its digits |
| StatementDialect.SearchIsLeftmost | app/connections/statement_dialect.py:58-60 | the search finds the leftmost match, or there is none |
| StatementDialect.HeadIsLongest | app/connections/statement_dialect.py:23-25 | the head found is the longest prefix of the form `SELECT`, white space, perhaps `DISTINCT` and white space, in any case; none is found iff there is none |
| StatementDialect.RenderedText | app/connections/statement_dialect.py:54-65 | every rendering as a text: unchanged in the ANSI dialect or without head or clause, else the clause dropped and `TOP n ` inserted where the head ends |
| StatementDialect.RewriteMovesTokens | app/connections/statement_dialect.py:56-65 | the placeholders and text of a rewrite are the source's in the same order, with the clause dropped and the `TOP` inserted where the head ends, glued or not |
| StatementDialect.RewriteBindsTheSame | app/connections/statement_dialect.py:56-65 | binding the rewrite gives every placeholder before and after that point the parameter it has in the source |
| StatementDialect.RenderKeepsMarks | app/connections/statement_dialect.py:42-65 | every statement keeps its number of placeholders, in both dialects |
| StatementDialect.SessionBindsTheSame | app/connections/db_session.py:77-77 | what the driver reads after dialect and placeholder style, in either style, accepts a parameter list iff the canonical statement does, and binds it identically, or, when rewritten, identically on both sides of the inserted `TOP` |
| StatementDialect.RewriteCanBeUndone | app/connections/statement_dialect.py:64-65 | when the head ends before the clause, the body and the row count can be read back |
| StatementDialect.RewriteUndoneIff | app/connections/statement_dialect.py:58-65 | the rewrite can be read back iff the head ends before the clause |
| StatementDialect.GluedExample | app/connections/statement_dialect.py:64-65 | an input whose rewrite is glued |

## Left out

- BumpPropagation.EffectiveLevels: on a cyclic list the exact level of a node that can reach a cycle depends on the visiting order; it is bounded from both sides, not computed. Stored edges are never cyclic.
- Registry.Registry.Cut: the JSON text of the rationale is kept as structured data; `ORDER BY` on component ids does not affect the stored rows and is not modelled.
- Migration.FlatToRelationalMigration.Run: the order in which legacy rows are read only affects the new ids, and any order is allowed; crashes between statements are not modelled.
- LimiterRuns.DecisionIsNaive: the limit and the window are fixed per run, and time is a real number.
- EventCache.ClientFollowsServerIff: events of components created after the snapshot are ignored by the client, so only the components of the snapshot are compared.
- Legacy-migrated stores may hold any mix of statuses, so the single-active invariant is stated for runs that start without versions; `StoreSteps.CreateLeavesOneActive` and `StoreSteps.RollbackLeavesOneActive` hold on any store.
- Version strings use ASCII digits; the leniency and size limits of Python's `int()` and 32-bit column overflow are not modelled. Patterns and character classes are ASCII.
- Product description, component kind, timestamps and the text of error messages carry no behaviour here.
- Drivers, DSNs, DDL and configuration, HTTP routing, SSE framing, authentication and sessions, and the user interface.
