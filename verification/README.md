# Verified model of the GitOps plugin's core

A Dafny model of the parts of the plugin that decide what happens to a Vault server and to the plugin's own records:
the declarative reconciler, the signature threshold, the search for a commit, the periodic task and the clone quota,
with proofs of what they keep over whole runs. `dafny verify dfyconfig.toml` checks everything.

## How it is organised

| files | part of the program |
|---|---|
| `Types`, `Strings`, `Wrappers` | resources, the state registry, normal forms of namespaces and paths |
| `Templates` | substitution of `<name:key>` strings |
| `Graph`, `Ordering`, `DeleteOrder` | dependency graphs and Kahn's algorithm, for applying and for deleting |
| `Lint` | the checks on declared resources |
| `Reconciler` | `Apply` over a client, a state and a state writer |
| `Steps`, `Failures` | what one visit or removal does, case by case; which failures end a run |
| `Settling`, `Rerun`, `KeySet`, `Delivery`, `Deletions`, `Teardown`, `Moving`, `Renaming`, `Collisions` | what runs of `Apply` guarantee |
| `SharedPlace`, `RecordedCycle`, `Example` | concrete runs: those that fail a promise, and instances of the main hypotheses |
| `Pgp`, `Signatures`, `Matching`, `Sharpness` | the greedy signature threshold as a bipartite matching |
| `CommitSearch`, `Periodic`, `Continuations` | the search for the next commit; the interleaved periodic calls; runs of them that exist |
| `Trust` | the periodic task together with the signature check |
| `Quota`, `QuotaBound` | the clone size limit, single calls and interleaved ones |
| `Fanout` | paths of notes |

**The reconciler.** The program is a set of methods over the classes `Client`, `State` and `StateWriter`. The server
and the storage are free to answer anything; `Client.requests` records every request. `Apply` is proved to do exactly
what the functions `Visit` and `Removal` say (`Steps` states what that is, request by request and entry by entry), one
step at a time, for some order allowed by Kahn's algorithm, some entry allowed by `FindByNsPath` and some sequence of
answers; such a choice is a `Run`. The theorems in `Rerun`, `KeySet`, `Delivery`, `Deletions`, `Teardown`, `Moving`,
`Renaming` and `Collisions` hold for all runs, whatever was chosen and answered; the contract of `ApplyTwice` states
the first of them of the methods. Walking a Go map is an arbitrary choice of the next key. The digest, `fmt.Sprint`,
`fmt.Sscanf` and `strings.ToUpper`/`TrimSpace` are arbitrary functions (`Externals`). No theorem needs the digest to be
injective: "settled" means that the recorded digest equals the present one.

**Hypotheses.** `WellDeclared` says that names are unique (the linter checks it), that no two resources have the same
namespace and path (the linter does not check it), and that a resource depends on whatever its templates mention (the
documentation asks for it, docs/format.md:89). `Coherent` says that an entry under a declared name records that
resource's own place; an empty state is coherent. `Example` shows that the hypotheses can be met together.

**The periodic task** is a system of interleaved atomic steps of any number of calls, over the guard, the stored record,
the stored time stamp and the clock; every storage access, clone and processing may fail. **The clone quota** is such a
system too, over a counter with 64-bit wrap-around.

## What a reader of the documentation may not expect

The model follows the code. In each item the lemmas named say exactly when the code behaves one way or the other.

- Renaming is promised to send no request (docs/format.md:36). After a clean run, and as long as no left-over entry is at
  the place of a renamed resource, it does not (`RenamingAfterCleanRun`). For a single visit under a new name that holds,
  whichever matching entry is found first, exactly when there is an entry at the place and all entries there carry the
  digest (`NewNameIsFreeIff`).
- An entry without a resource can be at the place of a resource. Such a place is deleted, exactly when the entry is not
  taken over and reaches no cycle of recorded dependencies (`PlaceIsDeletedIff`); for data without templates this can be
  told beforehand, as long as no stale key reaches a cycle (`DeclaredPlaceIsDeletedIff`). So a resource that is renamed and given new data in one go is sent and
  then deleted in the same run (`RenamedAndChangedIsDeleted`, `OneOldEntry`, with the concrete runs `RenamedAndChanged` and `UpToDateAndDeleted`). A place
  at which there is no such entry is never deleted, on any run (`PlaceIsSafe`).
- The linter does not check that places are distinct. Of two resources at one place with one digest, the second takes the
  entry of the first; with different digests it does not. On an empty state, every clean run records all names exactly when no two resources
  have both place and digest in common (`EveryRunRecordsAllIff`; for digests as resolved on the way,
  `AllNamesRecordedIff`). With at most two resources at a place this decides for every first run whether the second is
  silent (`SecondRunOfPairsIsSilentIff`); with three, it can depend on the order in which a map is walked
  (`CollidingButRecorded`). On any state, a clean run records all names exactly when no visit takes over the entry of a
  resource visited before (`AllNamesRecordedIffNoneTaken`); distinct places alone do not exclude that if the state records
  another place for a name (`LiveEntryIsTaken`).
- A changed path, namespace, method or dependency list under an unchanged name is not applied: what a run notices are
  changed digests, and they cover data and revision (`ChangesAreNoticedIff`, `OtherChangesAreNotNoticed`, and the
  concrete `ChangedPathIsNotNoticed`). When path and data change together, the data are sent to the new place, and what is at
  the old one is deleted neither by this run nor by a later one, since no entry records it any more
  (`MovedAndChangedLeavesOldPlace`, `ForgottenPlaceIsSafe`).
- The delete order, like the apply order, puts dependencies before their dependents (`DependenciesAreDeletedFirst`).
- Keys that reach a cycle of recorded dependencies are never deleted, and no error tells (`RemainingStaleKeys`). Lists with
  a cycle are refused, but two lists without one, applied in turn, can leave a cycle recorded: an entry that is up to
  date keeps the dependencies it was recorded with (`ListsWithoutCycles`). When nothing is declared any more, such entries
  stay for ever (`StaysForEver`). A state leaves no cycle to any list exactly when it records none (`NoStaleCycleIff`),
  which is so as long as one and the same list has been applied (`NoStaleCycleAfter`); then a clean run of the next list
  deletes all that it does not declare and does not take over (`LaterListDeletesTheRest`).
- A worker releases the guard however it ends, as periodic.go:71-72 says. `PeriodicTask` itself returns with the guard taken
  when it cannot read the record (periodic.go:60-63). Then no later call does anything (`StrandedForever`); such a run
  exists (`StrandedIsReachable`), and a taken guard can be released exactly when no call has ended in this way
  (`ReleasableIff`).
- The time stamps of the polls keep their distance (`PollSpacing`). Of two clones, the later one is not started before the
  earlier one, but how far apart they are depends on the delays between reading the clock and starting the clone
  (`CloneSpacing`): for given delays `ClonesKeepApartIff` gives the exact distance, and `ClonesKeepPeriodIff` says for which
  delays it is that of the poll period. Without regard to delays no distance is kept (`ClonesMayCoincide`).
- The quota check is the intended one exactly when the sum stays in the 64-bit range (`CheckIsRightIff`). With at most so
  many writers in flight, each declaring at most so much, no run accepts more than the limit exactly when all they
  declare fits into the counter above the limit (`QuotaHoldsIff`).

## Model

| member | source | states |
|---|---|---|
| Types.NormalizeNamespace | pkg/gitops/normalize.go:5-14 | empty, or without leading and with trailing slash; leaves such strings alone |
| Types.NormalizePath | pkg/gitops/normalize.go:16-18 | no slash at either end; leaves such strings alone |
| Types.NamespaceIs | pkg/gitops/normalize.go:5-14 | leading slashes are dropped, and one is added at the end unless there is one or nothing is left |
| Types.PathIs | pkg/gitops/normalize.go:16-18 | exactly the slashes at both ends are dropped |
| Types.NameIs | pkg/gitops/types.go:38-48 | the name of a resource is its explicit name, or else its namespace, one slash and its path |
| Types.NormalPlaceIff | pkg/gitops/types.go:60-63 | in normal form, places match exactly if namespace and path are equal |
| Types.NormalizationSettles | pkg/gitops/normalize.go:21-24 | namespace and path get their normal form and nothing else changes, neither the state key nor the place; doing it twice is doing it once |
| Types.State.constructor | pkg/gitops/apply.go:24-26 | a missing state is an empty one |
| Types.State.FindByNsPath | pkg/gitops/types.go:56-68 | any entry at the resource's normalized place may be found, none only when there is none |
| Templates.ParsedIsTemplate | pkg/gitops/templates.go:46-58 | a recognised string is `<name:key>` with nonempty parts and no colon in the name |
| Templates.TemplateIsParsed | pkg/gitops/templates.go:46-58 | every such string is recognised, with exactly these parts |
| Templates.GetResponseDataPath | pkg/gitops/templates.go:70-100 | the segment loop is the recursive descent along the split path |
| Templates.LookupOfSegment | pkg/gitops/templates.go:82-93 | one segment selects the field of that name, or the element at the scanned index if that is in range, and nothing in any other value |
| Templates.LookupOfFirst | pkg/gitops/templates.go:74-98 | a longer path goes on with its rest from what the first segment selects; parts may be empty |
| Templates.LookupComposes | pkg/gitops/templates.go:70-100 | looking up `p.q` is looking up `q` inside the result of `p`, failures included |
| Templates.ResolveTemplates | pkg/gitops/templates.go:9-20 | terminates on every value and computes the resolution, or fails exactly when a template has no value |
| Templates.ResolveTemplatesMap | pkg/gitops/templates.go:22-32 | the same for a map, in whatever order its fields are walked |
| Templates.ResolveTemplatesSlice | pkg/gitops/templates.go:34-44 | the same for a list, item by item |
| Templates.ResolveTemplateString | pkg/gitops/templates.go:46-68 | the same for a string: unchanged, replaced as a whole, or an error |
| Templates.TemplateResolves | pkg/gitops/templates.go:59-67 | a template becomes the printed form of what its path leads to in the response of the resource it names, or fails |
| Templates.PartsResolve | pkg/gitops/templates.go:22-44 | objects and lists resolve part by part, each in its own place, and fail with any of them |
| Templates.ResolutionIsLocal | pkg/gitops/templates.go:9-68 | the result depends only on the recorded responses of the names that the data mention |
| Templates.TemplateFreeDataIsUnchanged | pkg/gitops/templates.go:9-68 | data without templates come back unchanged whatever the state |
| Templates.ResolutionKeepsShape | pkg/gitops/templates.go:22-44 | map keys, list lengths and kinds of values are kept |
| Graph.ListedNodesReachNoCycle | pkg/gitops/apply.go:295-308 | what a topological listing contains depends on no cycle |
| Graph.DependenciesComeEarlier | pkg/gitops/apply.go:295-308 | direct and transitive dependencies of a listed node are listed before it |
| Graph.StuckNodesReachACycle | pkg/gitops/apply.go:295-308 | nodes that all wait for each other reach a cycle |
| Graph.DrainedOrderIsKahn | pkg/gitops/apply.go:255-267 | when the queue is empty, exactly the nodes that reach no cycle have been listed |
| Ordering.IndexByName | pkg/gitops/apply.go:271-274 | the map holds the last resource of each effective name |
| Ordering.CollectEdges | pkg/gitops/apply.go:275-287 | in-degrees count the resolved dependencies, repetitions included, and the adjacency lists invert them |
| Ordering.QueueRoots | pkg/gitops/apply.go:288-293 | the queue starts with the resources without dependencies, in list order |
| Ordering.Release | pkg/gitops/apply.go:299-304 | every dependent loses one per edge and is queued exactly when its count gets to zero |
| Ordering.Round | pkg/gitops/apply.go:295-305 | one round keeps: counts are the dependencies not yet listed, queued are exactly those that wait for nothing |
| Ordering.Drain | pkg/gitops/apply.go:294-305 | the queue loop terminates with a topological listing of exactly the nodes that reach no cycle |
| Ordering.FullOrderIffAcyclic | pkg/gitops/apply.go:306-309 | the listing is as long as the list of resources exactly when no resource reaches a cycle |
| Ordering.TopologicalOrder | pkg/gitops/apply.go:270-310 | an error exactly when the resolved graph has a cycle; otherwise all indices once, dependencies first |
| Ordering.ResolvedIff | pkg/gitops/apply.go:279-285 | an edge leads exactly to the last resource with the name of a dependency |
| Ordering.NamedComeFirst | pkg/gitops/apply.go:270-310 | every resource comes after the last one with the name of any of its dependencies |
| Ordering.WithoutDependenciesListOrder | docs/format.md:58 | without dependencies the order is that of the list |
| DeleteOrder.CollectRecordedEdges | pkg/gitops/apply.go:234-248 | counts and adjacency invert the recorded dependencies that are to be deleted too |
| DeleteOrder.InitialQueue | pkg/gitops/apply.go:249-254 | the keys without such dependencies, once each, in any order |
| DeleteOrder.ReleaseKeys | pkg/gitops/apply.go:260-265 | every dependent loses one per edge and is queued exactly when its count gets to zero |
| DeleteOrder.DrainKeys | pkg/gitops/apply.go:255-267 | the queue loop lists exactly the keys that reach no cycle, dependencies first |
| DeleteOrder.DeleteOrderFromState | pkg/gitops/apply.go:229-268 | for any walk over the maps, a duplicate-free list of exactly the keys that reach no cycle, dependencies first |
| DeleteOrder.DependenciesAreDeletedFirst | pkg/gitops/apply.go:240-247 | a key is deleted after all keys to be deleted that it depends on, directly or not |
| Lint.LintFields | pkg/gitops/lint.go:21-44 | the first loop passes exactly well-formed fields with unique names, and otherwise reports the first fault |
| Lint.LintDependencies | pkg/gitops/lint.go:46-56 | the second loop passes exactly when every dependency is nonempty and names a resource |
| Lint.Lint | pkg/gitops/lint.go:20-58 | no error exactly when all checks hold; an error is true and nothing before it was wrong |
| Lint.LintedMeans | pkg/gitops/lint.go:20-58 | passing means path, object data, revision and method as required, unique names, and dependencies that are nonempty and declared |
| Lint.TrueComplaintMeansNotLinted | pkg/gitops/lint.go:20-58 | a resource list with a true complaint cannot pass |
| Reconciler.Client.Send | pkg/gitops/apply.go:86-101 | a request is recorded, and any reply may come back |
| Reconciler.StateWriter.SaveState | pkg/gitops/storage_state_writer.go:18-23 | the whole state is stored, or the save fails and nothing changes |
| Reconciler.VisitResource | pkg/gitops/apply.go:39-131 | the loop body makes exactly the transition `Visit`, failures at every point included |
| Reconciler.RemoveResource | pkg/gitops/apply.go:142-181 | the loop body makes exactly the transition `Removal`; 404 and 405 count as deleted |
| Reconciler.CreateOrUpdate | pkg/gitops/apply.go:38-132 | the loop is the sequence of visits in the given order up to the first failure that is not ignored |
| Reconciler.CollectStale | pkg/gitops/apply.go:33-37 | the keys of the state that belong to no resource, once each |
| Reconciler.DeleteStale | pkg/gitops/apply.go:142-182 | the loop is the sequence of removals up to the first failure that is not ignored |
| Reconciler.Reconcile | pkg/gitops/apply.go:38-184 | visits first, removals after them and only if no visit aborted |
| Reconciler.Apply | pkg/gitops/apply.go:20-185 | no client and cycles are refused with nothing touched; otherwise memory, storage and requests are those of a run that stops on the first failure not ignored, and only such a failure is returned |
| Steps.StaleIff | pkg/gitops/apply.go:134-140 | a key is stale exactly if no resource has that name |
| Steps.FailingVisit | pkg/gitops/apply.go:43-49 | without resolved data, or with data that cannot be sent, a visit fails and does nothing else |
| Steps.KnownVisit | pkg/gitops/apply.go:50-54 | a resource recorded with its present digest, of data and revision, is passed over |
| Steps.TakingVisit | pkg/gitops/apply.go:56-78 | a matching entry moves to the new name and place with everything else it holds, and nothing is requested |
| Steps.SendingVisit | pkg/gitops/apply.go:79-131 | any other visit makes exactly one request: a read for GET, else a write of exactly the resolved data; an answer is recorded with digest, dependencies, flag, response and place, and saved |
| Steps.AsksIff | pkg/gitops/apply.go:50-100 | a visit makes a request exactly in that case |
| Steps.VisitVerdict | pkg/gitops/apply.go:43-49 | a failing visit aborts if the resource does not ignore failures, and is passed over if it does |
| Steps.RemovalEffect | pkg/gitops/apply.go:143-177 | a removal deletes the recorded place and drops the entry on success, 404 and 405, and on nothing else |
| Steps.RemovalVerdict | pkg/gitops/apply.go:145-181 | a failing removal aborts if the entry does not ignore failures, and is passed over if it does |
| Failures.AbortsIff | pkg/gitops/apply.go:39-182 | a run is aborted exactly by a step that fails although its failures are not ignored |
| Failures.FineIff | pkg/gitops/apply.go:39-182 | a run is without failure exactly if each step is |
| Failures.IgnoredNeverAborts | docs/format.md:95 | if all resources and stale entries ignore failures, no run is aborted |
| Failures.UnignoredIsFine | docs/format.md:95 | if none does, a run that is not aborted is without failure |
| Settling.VisitFrame | pkg/gitops/apply.go:50-122 | a visit, however it ends, touches no entry of another declared resource and keeps the state coherent |
| Settling.VisitKeepsSettled | pkg/gitops/apply.go:40-54 | settled resources stay settled whichever is visited next, and a visit of one of them does nothing |
| Settling.VisitSettles | pkg/gitops/apply.go:40-131 | a visit without failure settles its resource once its dependencies are settled |
| Settling.UpdatesSettle | pkg/gitops/apply.go:38-132 | the visits made without failure leave all visited resources settled |
| Settling.UpdatesPassOver | pkg/gitops/apply.go:38-132 | settled resources are passed over in any order and among any other visits |
| Settling.CycleIsPassedOn | pkg/gitops/apply.go:255-267 | what reaches a cycle depends on something that reaches one |
| Settling.LeftOversReachCycles | pkg/gitops/apply.go:255-267 | keys left out of a delete order reach cycles among themselves |
| Settling.LeftOversStayLeftOver | pkg/gitops/apply.go:229-268 | keys left out because of a cycle are left out again by the next delete order |
| Rerun.CleanRunSettles | pkg/gitops/apply.go:20-185 | a run without failure settles every resource, and memory and storage agree |
| Rerun.SecondRunIsSilentIff | pkg/gitops/apply.go:20-185 | after a clean run any further run asks, saves and changes nothing, exactly when all declared names are recorded |
| Rerun.SecondRunIsSilent | pkg/gitops/apply.go:20-185 | with distinct places and a coherent state that is always so |
| Rerun.ApplyTwice | pkg/gitops/apply.go:20-185 | the same of the program: two calls of `Apply` are a run from the given state and a run from what that left; if the first had no failure, the second succeeds and leaves requests, state, storage and number of saves alone |
| Rerun.SilentIff | pkg/gitops/apply.go:38-182 | a run does nothing exactly when every resource is settled in the state and all that is left over reaches cycles |
| Rerun.NothingLeftToDelete | pkg/gitops/apply.go:134-182 | after a clean run nothing can be deleted any more, cyclic left-overs included |
| Rerun.StoredIsSettled | pkg/gitops/apply.go:123-131 | wherever a run ends, the completed visits are settled in what was stored |
| Rerun.ResumeRepeatsNothing | pkg/gitops/apply.go:39-132 | a rerun from the stored state repeats nothing for any resource whose visit was completed, whatever order and failures it meets |
| Rerun.StoredFollowsLive | pkg/gitops/apply.go:66-75 | while saves succeed, the stored state is the one in memory after every visit and every removal |
| KeySet.RemainingStaleKeys | pkg/gitops/apply.go:134-184 | after success the keys without resource are exactly those that reach a cycle and those whose deletion failed and was ignored |
| KeySet.SucceededIsRecorded | pkg/gitops/apply.go:111-132 | after success every resource not hit by an ignored failure is recorded |
| KeySet.CallDiscipline | pkg/gitops/apply.go:38-182 | on every run at most one request per visited resource in order, dependencies earlier; then one delete per key; no delete after an aborted visit |
| Delivery.SentOrKnown | pkg/gitops/apply.go:50-122 | after a clean run each resource's final data were sent in this run, as the body of a write unless it is a read, and the answer recorded, or the entry was known from the beginning |
| Delivery.ChangesAreNoticedIff | pkg/gitops/apply.go:50-54 | when resources of a settled state change under their names, the next run is silent exactly when no digest changed |
| Delivery.OtherChangesAreNotNoticed | pkg/gitops/apply.go:50-54 | with changed paths, namespaces, methods or dependencies a run is silent exactly when the unchanged resources are settled and nothing can be deleted |
| Deletions.UndeclaredStaysUnlessTaken | pkg/gitops/apply.go:56-66 | on every run an entry without a resource survives the visits, unchanged, exactly when no visit takes it over |
| Deletions.DeletedIff | pkg/gitops/apply.go:134-141 | the keys put up for deletion are exactly those without a resource that were not taken over and reach no cycle, by the state at the start |
| Deletions.DeletesAreOfUndeclared | pkg/gitops/apply.go:142-150 | on every run, aborted or not, each delete is of such an entry as it was at the start |
| Deletions.SameTargetSamePlace | pkg/gitops/apply.go:79-83 | requests with equal namespace and path are for one normalized place |
| Deletions.PlaceIsDeletedIff | pkg/gitops/apply.go:134-150 | unless a run aborts, it deletes a place exactly when an entry without a resource is there, is not taken over and reaches no cycle |
| Deletions.PlaceIsSafe | pkg/gitops/apply.go:134-150 | a place at which no entry without a resource is recorded is deleted on no run |
| Deletions.DeclaredPlaceIsDeletedIff | pkg/gitops/apply.go:56-150 | for data without templates, if no stale key reaches a cycle: the place of a declared resource is deleted exactly when an old entry is there and the name is recorded, the digest differs, or there is a second old entry |
| Deletions.SentThenDeletedIff | pkg/gitops/apply.go:79-150 | a resource is sent and its place then deleted exactly when its visit asks and its place is deleted |
| Deletions.OneOldEntry | pkg/gitops/apply.go:50-150 | with one old entry at the place, data without templates and no stale key that reaches a cycle, both are decided by the recorded digests |
| Deletions.RenamedAndChangedIsDeleted | pkg/gitops/apply.go:57-150 | data new to the place of an old entry are sent, and that entry is then deleted, templates or not |
| Deletions.SavedDeletionIsFinal | pkg/gitops/apply.go:151-176 | a rerun from the stored state does not delete again what was deleted and saved |
| Teardown.NoStaleCycleIff | pkg/gitops/apply.go:236-248 | no list finds a cycle among its stale keys exactly when the state records no cycle at all |
| Teardown.OneListRecordsNoCycle | pkg/gitops/apply.go:236-248 | a state that records the places and dependencies of one list without cycles records no cycle |
| Teardown.RunRecordsOnly | pkg/gitops/apply.go:50-132 | every run of one list with distinct places, however it ends, keeps recording exactly its dependencies |
| Teardown.NoStaleCycleAfter | pkg/gitops/apply.go:50-141 | so after it no list finds a cycle among its stale keys |
| Teardown.CleanRunDeletesAll | pkg/gitops/apply.go:134-182 | then a clean run deletes exactly what it does not declare and does not take over, and nothing else stays recorded |
| Teardown.LaterListDeletesTheRest | pkg/gitops/apply.go:134-182 | the same of any list after any run of one list on an empty state |
| Teardown.EmptyListDeletesAll | pkg/gitops/apply.go:134-182 | an empty list applied after it leaves nothing recorded |
| RecordedCycle.ListsWithoutCycles | pkg/gitops/apply.go:50-54 | two lists without cycles, applied in turn by clean runs, that leave two entries recording each other |
| RecordedCycle.StaysForEver | pkg/gitops/apply.go:255-267 | from there, with nothing declared, every run succeeds and deletes nothing |
| Moving.MovedAndChangedLeavesOldPlace | pkg/gitops/apply.go:111-122 | a resource whose path and data change is sent, its old place is not deleted, and no entry records that place any more |
| Moving.ForgottenPlaceIsSafe | pkg/gitops/apply.go:134-150 | a place that no entry records is deleted by no run of any list |
| Renaming.RenamedResolves | pkg/gitops/templates.go:46-68 | renamed data resolve in the renamed registry to what they resolved to before |
| Renaming.RenamedMentions | pkg/gitops/templates.go:46-58 | renamed data mention only new names of what they mentioned |
| Renaming.RenamingKeepsGraph | pkg/gitops/apply.go:271-287 | a consistent renaming leaves the dependency graph as it is |
| Renaming.RenamingCostsNothing | docs/format.md:36 | from a settled state, a consistent renaming to fresh names sends no request, moves every entry to its new key with digest, response and recorded dependencies, keeps what was left over, and can fail only by a failed save |
| Renaming.CleanRunLeavesSettledState | pkg/gitops/apply.go:20-185 | a clean run leaves the state from which renaming is free |
| Renaming.RenamingAfterCleanRun | docs/format.md:36 | so renaming after a clean run sends no request, also with keys left over on cycles, unless one is at the place of a renamed resource |
| Renaming.NoOldEntriesAfter | pkg/gitops/apply.go:134-182 | none is, if none was before the clean run or nothing stale was on a cycle |
| Renaming.NewNameIsFreeIff | pkg/gitops/apply.go:56-78 | a visit under a new name sends nothing for every admissible pick exactly when some entry is at the place and all entries there carry the digest |
| SharedPlace.BothPassTheLinter | pkg/gitops/lint.go:20-58 | two resources at one place pass the linter |
| SharedPlace.FirstNameIsLost | pkg/gitops/apply.go:56-66 | a clean run of the two leaves the first without an entry |
| SharedPlace.NeverSilent | pkg/gitops/apply.go:56-78 | so that no second run of these two is silent |
| Collisions.AllNamesRecordedIffNoneTaken | pkg/gitops/apply.go:56-66 | on any state a clean run records all names exactly when no visit takes over the entry of a resource visited before |
| Collisions.EntriesAreOfVisited | pkg/gitops/apply.go:56-122 | started empty, the state holds entries of visited resources only, each with that resource's place and digest |
| Collisions.AllNamesRecordedIff | pkg/gitops/apply.go:56-122 | from an empty state a clean run records all names if no two have both place and resolved digest in common; and only if, when matching entries are found first |
| Collisions.PairsLeaveNoChoice | pkg/gitops/types.go:56-68 | with at most two resources at a place, they are |
| Collisions.EveryRunRecordsAllIff | pkg/gitops/apply.go:56-122 | for data without templates every clean run records all names exactly when no two resources have both place and digest in common |
| Collisions.SecondRunOfPairsIsSilentIff | pkg/gitops/apply.go:20-185 | with at most two at a place, the second run is silent exactly in that case |
| Example.CollidingButRecorded | pkg/gitops/types.go:62-66 | with three at a place, two that collide may both stay recorded |
| Example.LiveEntryIsTaken | pkg/gitops/apply.go:56-66 | a clean run of two resources at distinct places in which one takes over the declared entry of the other |
| Example.MovedAndChanged | pkg/gitops/apply.go:111-122 | the hypotheses on a moved and changed resource can be met |
| Example.TornDown | pkg/gitops/apply.go:134-162 | a clean run of an empty list that deletes what is recorded |
| Example.RenamedAndChanged | pkg/gitops/apply.go:57-150 | a clean run that sends a resource and then deletes its place |
| Example.UpToDateAndDeleted | pkg/gitops/apply.go:52-150 | a clean run that deletes the place of an up-to-date resource and goes on recording it |
| Example.ChangedPathIsNotNoticed | pkg/gitops/apply.go:50-54 | a resource given another path: runs exist, and all of them do nothing |
| Example.ApplyingIsClean | pkg/gitops/apply.go:20-185 | the hypotheses of the silent second run can be met |
| Example.MovingIsARenaming | pkg/gitops/apply.go:56-78 | those of the renaming theorem can be met, by names that differ |
| Pgp.ScanKeys | pkg/pgp/util.go:18-46 | the first verifying key, unless an unreadable one comes before it; all keys tried before can be read |
| Pgp.VerifyPgpSignatures | pkg/pgp/util.go:12-50 | the nested loops are the greedy pass; an unreadable message is an error exactly when a key is tried |
| Matching.UnreadableIsAnError | pkg/pgp/util.go:21-24 | a key that cannot be read is an error when it is tried |
| Matching.VerifiedMatching | pkg/pgp/util.go:39-49 | what is counted is an injective matching of verifying pairs; while the count is positive the other keys come back in order, and no pair is left that could be added |
| Matching.GreedyConserves | pkg/pgp/util.go:39-44 | the number of keys drops by as much as the count |
| Matching.GreedyNeverOvershoots | pkg/pgp/util.go:39-42 | a positive count never gets below zero |
| Matching.MaximalIsHalf | pkg/pgp/util.go:17-47 | a maximal matching is at least half as large as any other |
| Matching.GreedyThreshold | pkg/pgp/util.go:12-50 | acceptance takes a matching of the required size, and follows from one of size 2 * required - 1 |
| Matching.ExactWhenOneKeyEach | pkg/pgp/util.go:12-50 | if each signature verifies under at most one key, the number counted is the smaller of required and the number of keys with a signature |
| Matching.AcceptanceIsExact | pkg/pgp/util.go:13-15 | acceptance means a nonnegative requirement met by a matching of exactly that size |
| Sharpness.ThresholdIsSharp | pkg/pgp/util.go:12-50 | for every required number some matching of size 2 * required - 2 is rejected: the bound is the best |
| Signatures.VerifyObjectSignatures | pkg/git/signatures.go:94-129 | the verdict on the notes: an error, accepted, or how many signatures are missing |
| Signatures.GreedyConcat | pkg/git/signatures.go:75-91 | two passes that hand over keys and count are one pass over both lists |
| Signatures.AcceptedIsCredited | pkg/git/signatures.go:69-129 | what is accepted has the required number of signatures under distinct keys: its own on the encoded commit, or noted ones on the hash |
| Signatures.CreditsSuffice | pkg/git/signatures.go:69-129 | twice that number of such signatures, less one, is accepted if the keys can be read; so one is when one is required |
| Signatures.AcceptedIsMatched | pkg/git/signatures.go:69-129 | acceptance is an injective matching of the required size between signatures offered and keys |
| Signatures.VerifyCommitSignatures | pkg/git/signatures.go:69-92 | accepted exactly when one greedy pass over the commit's own signature and then those of the notes reaches the required number |
| CommitSearch.CommitIter.Next | pkg/git_repository/git.go:94-101 | yields the log item by item |
| CommitSearch.FindFirstSignedCommit | pkg/git_repository/git.go:54-136 | the first of: an error, the boundary, an eligible commit; with the error cases before the loop |
| CommitSearch.SearchIsDetermined | pkg/git_repository/git.go:94-135 | that description leaves one result |
| CommitSearch.FoundIff | pkg/git_repository/git.go:94-131 | a commit is found exactly if it is signed, not from the future, not older than the last finished one and not that one, and each commit before it in the log has a reason against it |
| CommitSearch.NothingNewIff | pkg/git_repository/git.go:71-136 | nothing new is found exactly if the head is the last finished commit, or only commits with a reason against them come before that or before the end of the log |
| CommitSearch.FailedIff | pkg/git_repository/git.go:65-101 | with readable settings the search fails exactly without a readable head, or when the log fails after such commits |
| CommitSearch.FoundCommitIsNews | pkg/git_repository/git.go:106-131 | a found commit is signed, not from the future, not older than the last finished one and not the same |
| Periodic.OneWorkerNoLostUpdate | periodic.go:52-83 | for any interleaving at most one thread holds the guard, and the record a worker was handed is the stored one until it stores |
| Periodic.RecordProgresses | periodic.go:123-161 | stored dates never decrease, successive hashes differ, and each stored commit met the threshold and was not from the future when chosen |
| Periodic.RecordChangesOnlyByStoring | periodic.go:142-161 | only a worker that processed a commit changes the record |
| Periodic.PollSpacing | periodic.go:91-104 | the clock readings stored for successive attempts are more than the period less one second apart, by two nanoseconds or more |
| Periodic.CloneSpacing | periodic.go:91-117 | a clone is started before the clock is read for the next one, and no two are closer than their delays allow |
| Continuations.CloseClones | periodic.go:91-117 | for every period and all delays a run starts two clones as close as that |
| Continuations.ClonesKeepApartIff | periodic.go:91-117 | so for given delays all runs keep a distance exactly when it is less |
| Continuations.ClonesKeepPeriodIff | periodic.go:91-117 | they keep the period less one second exactly when the earlier delay is at most a nanosecond longer than the later one, or that one is longer than this distance |
| Continuations.ClonesMayCoincide | periodic.go:91-117 | without regard to delays none is kept: for every period there is a run with two clones at one time |
| Periodic.StrandedForever | periodic.go:58-63 | once the record could not be read, the guard stays taken and nothing more is attempted or stored |
| Continuations.NewsCanBeFound | pkg/git_repository/git.go:106-131 | the commits that a search may find are exactly those that are news |
| Continuations.NewsCanBeStored | periodic.go:52-161 | with a free guard and the poll period over, any commit that is news can be found, processed and stored |
| Continuations.StrandedIsReachable | periodic.go:58-63 | from every initial state a run reaches a stranded call that keeps the guard |
| Continuations.IdleGuardIff | periodic.go:52-74 | with no worker active, the guard is taken exactly when a call was stranded |
| Continuations.GuardCanBeReleased | periodic.go:73-83 | from every reachable state a holder that is not stranded can go on to release the guard |
| Continuations.ReleasableIff | periodic.go:52-83 | a taken guard can be released exactly when no call was stranded |
| Trust.FinishedIsTrusted | periodic.go:123-161 | every commit stored as finished had as many signatures as required when it was chosen, on its encoded text or its hash, verified by distinct trusted keys |
| Trust.EnoughIsSigned | pkg/git_repository/git.go:111-115 | with readable keys, twice the required number of such signatures less one makes a commit pass the check |
| Periodic.RunKeepsInvariant | periodic.go:40-187 | the invariant of guard, snapshots, history and spacing holds in every reachable state |
| Quota.LimitedStorage.RawObjectWriter | pkg/git/repository.go:51-66 | a call on its own succeeds exactly when the storage accepts and the counter, as it wraps, stays within the limit, and counts the size; a failed one leaves no trace |
| Quota.CounterIsHeld | pkg/git/repository.go:51-66 | for any interleaving the counter is the sum of the sizes held, modulo 2^64 |
| Quota.QuotaHolds | pkg/git/repository.go:51-66 | without overflow the counter is accepted plus in-flight sizes, accepted never exceeds the limit, and with none in flight it is the accepted sum |
| Quota.CheckIsRightIff | pkg/git/repository.go:55-56 | the check is that of unbounded integers exactly when the sum fits in 64 bits |
| Quota.WrappedCounterAdmitsTooMuch | pkg/git/repository.go:55-56 | a run with a limit of ten bytes that accepts more |
| QuotaBound.EnoughRoomIsSafe | pkg/git/repository.go:51-66 | with enough room above the limit for all that can be in flight, the accepted sum never exceeds the limit |
| QuotaBound.TooLittleRoom | pkg/git/repository.go:51-66 | otherwise a run within the same bounds accepts more than the limit |
| QuotaBound.QuotaHoldsIff | pkg/git/repository.go:51-66 | so the quota holds on all runs exactly when limit and bounds together fit into the counter |
| Fanout.PathsSpellTheId | pkg/git/utils.go:5-16 | each path is the id with separators put in; there are as many as pairs of characters, at least one |
| Fanout.PathsCutPairs | pkg/git/utils.go:5-16 | path number k has its separators exactly after the first k pairs of characters |
| Fanout.PathsAreDistinct | pkg/git/utils.go:5-16 | the paths of one id differ |
| Fanout.DifferentIdsShareNoPath | pkg/git/utils.go:5-16 | a path belongs to one id only |

## Left out

- Reconciler.Apply: error texts are reduced to what decides the flow (aborted or ignored, and the three kinds of returned error); a nil `Resources` map is modelled as a missing state.
- Rerun.ResumeRepeatsNothing: speaks of runs in which no failure of a visit was ignored; a visit whose failure was ignored may have asked without recording.
- Periodic.CloneSpacing: the poll period is one fixed number; a period changed between two polls is not modelled.
- Fanout.PathsSpellTheId: for ids without separators and dots, as object hashes are; the cleaning that `filepath.Join` does of other ids is not modelled.
- Templates.GetResponseDataPath: which strings `fmt.Sscanf` accepts as an index is left open.
- Types.NormalizationSettles: `NormalizeResource` is modelled on values and not through a pointer.
- Signatures.VerifyCommitSignatures: the walk through the notes tree is an input: a list of signatures, not found, or an error.
- A restart of the process, which frees the guard.
- The effect of requests on the server: replies are arbitrary, so nothing is said about what the server holds.
- JSON marshalling and reloading of the state, where numbers in responses may change their type; marshalling is taken to succeed.
- OpenPGP, SHA-256, YAML and go-git: an arbitrary verification relation, an arbitrary digest, values, and a log of commits.
- `VerifyTagSignatures` follows the same two stages as `VerifyCommitSignatures` and would add nothing new.
- Status strings, logging, token renewal, configuration endpoints, the Vault client, file loaders, the command line tool and the Terraform engine.
- `base64LineToMultiline`, which only splits a string into lines.
