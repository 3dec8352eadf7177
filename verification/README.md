# Verified model of the asset and vulnerability service

These modules model the parts of the service whose correctness rests on more than one function, and prove what those parts
promise: the asset-query compiler, the links between findings and vulnerability passports, the asset-card build jobs and the
operation registry, the local asset groups, the path tree and field catalog of the search index, the login limiter and user
administration, and three helpers of the MCP server and the MP VM client. Each `with connect()` block is one step on finite
maps. What the source computes as an expression is a function here. What it computes by changing rows or variables is a
method, proved against such a function, and the theorems are about the function.

Verify with `dafny verify dfyconfig.toml`.

## Asset queries

A query is a JSON tree of field rules and AND/OR groups. `AssetQueryTree` holds the check that accepts it and states exactly
which trees pass. `AssetQueryCompiler` compiles a tree to SQL text (`Sql`, one token for each fixed piece of text) and a list
of positional parameters. `Sql` also parses such text with SQL's precedence (INTERSECT above UNION, both left-associative,
section 7.13 of ISO/IEC 9075-2:2003), binding placeholders from left to right, and evaluates the result over an index.
`AssetQueryText` proves that parsing the compiled text gives back the intended query, and `AssetQueryMeaning` that evaluating
it selects exactly the assets that satisfy the tree under a direct reading. `AssetQueryCorrelation` says when an accepted
query still fails to compile.

## Passport links

Every finding must point at its best passport. `PassportMatching` defines the candidates of a finding and their ranking,
`PassportLinks` the incremental relink, `PassportScopes` the chunks it is done in, `PassportPlan` the pairing of vanished
passports with their successors, and `PassportStore` the tables with the upsert of a refreshed catalog.

## Jobs, operations, groups

`BuildJobs` has the build jobs with their admission limit. `Operations` has the registry and its event log, `OperationsSync`
the read model refreshed from the source tables, `OperationTable` the methods. `JobAdmission` has the transaction that
inserts a batch of jobs and registers them as operations, and `Registrations` the condition under which a list of
registrations goes through. `AssetGroups` has the hierarchy of groups and the walk that guards it, and `Uuid` the texts that
PostgreSQL reads as one id (section 8.12 of its manual).

## Index, accounts, MCP, client

`AssetTree` has the parent function of paths and the SQL filter for direct children. `FieldCatalog` has the per-asset digest
that stands in for the raw search rows, and `SearchRows` the rows that a card gives. `LoginLimiter` and `UserAdmin` model
the two parts of the account code, `SearchCache` the shared runs of the search cache, `FitResponse` the shortening of
answers, `ConnectionCheck` the polling loop, and `FirstSeen` the deduplication it uses.

## Where the code falls short

- A `same_entity` group may hold a `not_exists` rule if the operator is not in lower case: acceptance compares the operator
  as given (app/db.py:6862), the compiler lowers it first (app/db.py:6870). Such a query is accepted and then fails.
  `AssetQueryCorrelation.AcceptedCompilesExactly` says exactly which accepted queries fail, and
  `UpperCaseNotExistsIsAcceptedButFails` gives one.
- The walk up the group hierarchy compares ids as text, the table compares UUIDs, and one UUID has many texts: upper-case
  digits, no hyphens, braces. A parent given as another text of the group's own id makes the group its own parent, and a
  group given as another text than the stored one can be hung under its child. `AssetGroups.SafeUpdateKeepsForest` proves
  that the spellings `SafeSpelling` allows keep the forest, `UnsafeSpellingBreaksForest` that every other one breaks some
  forest, and `EveryIdHasUnsafeSpellings` that every id has such spellings.
- `interrupt_active` (app/repositories/passport_refresh.py:54-65) changes operation rows without logging an event, so the
  last event no longer shows the row. `Operations.InterruptRefreshUnmirrors` says which operations are affected,
  `Operations.StepKeeps` that every other step keeps the log in step, and `Operations.RestartUnmirrorsRefresh` is a run that
  loses it.
- A search of the field list looks at the one name kept in the catalog for a field of an asset. It misses an asset when a
  name that is not kept contains the search text and neither the path nor the kept name does.
  `FieldCatalog.SearchesAgreeExactly` says for which tables every search agrees with the raw rows, in assets and in samples.
  Names that are keys of a card are part of their paths and always agree; only the name of a collection can make a
  difference (`SearchRows.CardsListAlike`), and `SearchRows.SecondNameIsMissed` is a card where it does.
- Polling forgets the targets it has when the run is no longer listed at the stop, or comes back without an id
  (app/mpvm_client.py:946-948, 954-955). `ConnectionCheck.ReportsAllExactly` is the exact condition,
  `VanishedRunLosesTargets` an instance.
- A bare `asset[n]` has the parent `asset` but is selected under no parent: the filter for `asset` has no indexed branch.
  `AssetTree.SelectedByExactlyOne` has it as the one exception.

## Assumed

- Findings are stored with trimmed vulnerability ids, as insertion stores them (`clean_value`, app/db.py:4435, 7167-7171). A
  targeted relink looks them up by the stored text (app/db.py:4897), the matcher by the trimmed one (app/db.py:4964), and
  `PassportLinks.UncleanIdIsMissed` shows that the assumption is needed.

## Model

| member | source | states |
|---|---|---|
| `AssetQueryTree.AcceptedExactly` | app/db.py:6840-6865 | a query is accepted exactly when every node is well shaped, groups nest at most three deep and there are at most 20 rules, although the code checks the limits group by group |
| `AssetQueryTree.AcceptedIsBounded` | app/db.py:6738-6865 | the count returned for an accepted query is the number of collected rules, between 1 and 20, with at most three levels of groups |
| `AssetQueryText.ConditionsParse` | app/db.py:6868-6938 | the text of each operator reads back as its conditions with its own operands, among them the doubled list of `in` and the doubled value of `equals` |
| `AssetQueryText.TextDenotesIntended` | app/db.py:6941-6957 | the flat joined text, parsed with INTERSECT above UNION and placeholders bound from left to right, is the intended query and uses up exactly the returned parameters |
| `AssetQueryMeaning.NodeSelects` | app/db.py:6868-6957 | every node's query yields exactly the (asset, entity) pairs that satisfy it, host conditions as pairs without an entity |
| `AssetQueryMeaning.CompiledQuerySelectsMatches` | app/db.py:6840-6957 | the distinct assets of the compiled statement are exactly those that satisfy the tree under the direct semantics of host and same_entity scopes |
| `AssetQueryCorrelation.AcceptedCompilesExactly` | app/db.py:6941-6957 | an accepted query whose rules compile fails only with the correlation error, and exactly when a same_entity group holds a `not_exists` after lowering |
| `AssetQueryCorrelation.LowerCaseNeverFailsToCorrelate` | app/db.py:6861-6865 | with lower-case operators acceptance rules the correlation error out |
| `AssetQueryCorrelation.UpperCaseNotExistsIsAcceptedButFails` | app/db.py:6862-6870 | a query with `NOT_EXISTS` that is accepted and cannot be compiled |
| `PassportMatching.SomeoneWins` | app/db.py:5080-5092 | the ranking has a first candidate whenever there are candidates |
| `PassportMatching.WinnerUnique` | app/db.py:5080-5097 | the ranking leaves no ties: the winner is unique |
| `PassportMatching.DirectPassportWins` | app/db.py:5027-5092 | a stored passport named by the finding always wins |
| `PassportMatching.CveLinkStaysInFamily` | app/db.py:5043-5079 | a winner by CVE shares a CVE with the finding and is of its OS family or of none |
| `PassportLinks.UnaffectedKeepsWinner` | app/db.py:4889-4911 | a finding that the scope query does not return keeps its winner and its link |
| `PassportLinks.TargetedRelinkIsFull` | app/db.py:4889-5108 | after any change confined to the given passports, relinking only the affected findings gives the links of a full relink |
| `PassportLinks.UncleanIdIsMissed` | app/db.py:4895-4964 | for every finding with a padded id there is a change after which the targeted relink is not optimal |
| `PassportScopes.StartsAreEveryKth` | app/db.py:4868-4881 | the range starts are the ids at positions 0, K, 2K and so on |
| `PassportScopes.RangesAreSlices` | app/db.py:4865-4888 | the ranges between starts cut the ids exactly into slices of K |
| `PassportScopes.ScopesPartition` | app/db.py:4846-4916 | the scopes of any call hold each finding in reach exactly once and no other, and at most 5000 or 10000 findings each unless the call is for one asset; more than 20000 passports reach all findings |
| `PassportPlan.PlannedPair` | app/mpvm/passport_records.py:132-208 | a planned pair has the same external id and no conflicting package, the old id is not incoming, and outside a full catalog the identities are equal |
| `PassportPlan.ExactSuccessorWins` | app/mpvm/passport_records.py:132-208 | a sole exact successor is the one planned |
| `PassportPlan.ReplacementsAreIncoming` | app/db.py:2722-2787 | replaced ids are stored and not incoming, successors are incoming and, outside a full catalog, newly stored |
| `PassportStore.Absorb` | app/db.py:2956-2978 | a passport that takes over others keeps its own detail or takes the most recently loaded one, and has the earliest first_seen |
| `PassportStore.MergeKeepsDetail` | app/db.py:2956-2978 | after the merge there is a detail exactly when there was one before among the passports involved |
| `PassportStore.RefreshWrites` | app/db.py:2856-3032 | saving, merging, repointing and deleting change only what the relink is told about |
| `PassportStore.RefreshKeepsOptimal` | app/db.py:2856-3038 | optimal links stay optimal through a refresh, the relink of changed and absorbing passports included |
| `PassportStore.RefreshLosesNothing` | app/db.py:2794-3038 | every incoming passport is stored as it came; every known one stays or has an heir of the same external id that is not younger and keeps a loaded detail |
| `PassportStore.TakeLatest` | app/db.py:2809-2837 | the last row given for an id is the one saved, and rows without an id are counted as skipped |
| `PassportStore.Store.Winners` | app/db.py:4947-5103 | one statement yields exactly the winners' links of the findings in its scope |
| `PassportStore.Store.Reconcile` | app/db.py:4919-5108 | processing the scopes one after the other equals one relink of everything in reach, and returns the number of links made |
| `PassportStore.Store.SaveRows` | app/db.py:2856-2937 | the saved catalog, and as changed exactly the new and the content-changed ids, each once |
| `PassportStore.Store.Merge` | app/db.py:2956-2978 | every successor absorbs all passports it replaces, everything else stays |
| `PassportStore.Store.Replace` | app/db.py:2979-3027 | links to replaced passports lead to their successors and the replaced rows are gone |
| `PassportStore.Store.Upsert` | app/db.py:2790-3047 | the whole refresh: the catalog, the links as relinked over what the changed and absorbing passports reach, the counts of saved, changed, skipped and replaced rows and of links made, and that optimal links stay optimal when stored ids are clean |
| `BuildJobs.StepKeepsInvariant` | app/db.py:3832-4106 | every step keeps at most two active jobs on distinct assets and progress within 0..100, never revives a terminal job and never lowers progress |
| `BuildJobs.RunsAreSafe` | app/db.py:3832-4106 | the same over every interleaving of steps |
| `BuildJobs.CreateIsAllOrNothing` | app/db.py:3832-3953 | a batch is admitted wholly, as queued jobs beside the old ones, or the table does not change |
| `BuildJobs.StartAlwaysRuns` | app/db.py:3994-4010 | in every reachable table a queued job has no cancel request, so starting it makes it run |
| `BuildJobs.Table.CreateBatch` | app/db.py:3832-3953 | refines the step; when a batch is invalid, refused or admitted |
| `JobAdmission.Tables.CreateBatch` | app/db.py:3832-3953 | the whole transaction: a batch is admitted exactly when it is well formed, has room and free job ids, and the ids and keys of its operations are free beforehand; otherwise neither jobs nor operations change |
| `JobAdmission.AdmittedJobsAreShown` | app/db.py:3892-3953 | after admission the job invariant holds, every admitted job is shown by a queued operation, and the registry is sound, only extended and still mirrored by its log |
| `Registrations.GoesThroughExactly` | app/db.py:1047-1108 | a list of registrations of different sources goes through exactly when, in the registry before it, new sources have free and different ids, and no key is on an operation that the list does not rewrite first or twice in the list |
| `BuildJobs.Table.StartJob` | app/db.py:3994-4010 | refines the step; a row is returned exactly for a queued job |
| `BuildJobs.Table.UpdateJob` | app/db.py:4013-4053 | refines the step; progress is raised, never lowered |
| `BuildJobs.Table.RequestCancel` | app/db.py:4057-4070 | refines the step; a row is returned exactly for an active job |
| `BuildJobs.Table.FinishJob` | app/db.py:4073-4106 | refines the step |
| `BuildJobs.Table.InterruptActive` | app/db.py:3977-3991 | no job stays active, and the count is that of the active jobs before |
| `Operations.RegisterKeepsSound` | app/db.py:1018-1137 | registering keeps one operation per (kind, source), sound logs and never-falling progress, and leaves the operation's last event equal to its row |
| `Operations.InterruptStaleKeepsSound` | app/db.py:1251-1277 | interrupting stale operations keeps all of that, and leaves none stale |
| `Operations.SetRetryKeepsSound` | app/db.py:1390-1397 | linking a retry keeps all of that and does not touch the log |
| `Operations.ClearHistoryKeepsSound` | app/repositories/operations.py:45-67 | clearing the history keeps all of that |
| `Operations.InterruptRefreshUnmirrors` | app/repositories/passport_refresh.py:54-65 | interrupting a catalog refresh leaves the last event out of step with exactly the interrupted operations |
| `Operations.RestartUnmirrorsRefresh` | app/repositories/passport_refresh.py:54-65 | registering a running refresh and restarting is a run after which the log no longer shows the row |
| `Operations.StepKeeps` | app/db.py:1018-1397 | every step keeps the registry sound and only extends it, and keeps all rows mirrored by their last events exactly when it logs what it changes |
| `Operations.RunsExtend` | app/db.py:1018-1397 | along every run no operation is lost or moved, progress never falls and logs only grow |
| `Operations.RunsMirror` | app/db.py:1111-1137 | along every run of logging steps the last event of each operation is its row |
| `OperationsSync.SyncShowsSources` | app/db.py:1141-1248 | after a completed sync no source needs another, and every one synced is shown by its operation |
| `OperationsSync.SyncAgainChangesNothing` | app/db.py:1141-1248 | a second sync of unchanged sources changes no row and appends no event |
| `OperationTable.StaleInTwoSteps` | app/db.py:1251-1277 | one UPDATE and then one event for each returned row come to the specified step |
| `OperationTable.Table.AppendEvent` | app/db.py:1112-1137 | an event is appended exactly when it differs from the last one |
| `OperationTable.Table.RegisterOperation` | app/db.py:1018-1108 | refines the step, fails without effect on a taken id or key, and returns the stored row |
| `OperationTable.Table.SyncFromSources` | app/db.py:1141-1248 | refines the sync, stopping at the first failing source |
| `OperationTable.Table.InterruptStaleOperations` | app/db.py:1251-1277 | refines the step and counts the interrupted operations |
| `OperationTable.Table.SetOperationRetry` | app/db.py:1390-1397 | refines the step, returns the row as it then is or nothing, and appends no event |
| `OperationTable.SyncTwice` | app/db.py:1141-1248 | two syncs in a row leave what one leaves |
| `AssetGroups.WalkAcceptsExactly` | app/db.py:1462-1476 | the walk accepts a parent exactly when all its ancestors are active and none is spelled like the group |
| `AssetGroups.AcceptedParentIsActive` | app/db.py:1517-1531 | an accepted parent has a chain of unarchived ancestors |
| `AssetGroups.SafeUpdateKeepsForest` | app/db.py:1489-1536 | an accepted update keeps every group from being its own ancestor, if the texts are equal, one is no id, or the group is given as stored and the parent is another id; the new parent has active ancestors |
| `AssetGroups.UnsafeSpellingBreaksForest` | app/db.py:1489-1536 | every other pair of texts is accepted on some forest and makes a cycle |
| `AssetGroups.EveryIdHasUnsafeSpellings` | app/db.py:1497-1500 | every id as parent of itself, without hyphens or in braces, is such a pair |
| `Uuid.ReadIsShown` | app/db.py:671-675 | an id spelled in any accepted form is stored as one text, which is read as itself |
| `Uuid.OtherSpellings` | app/db.py:671-675 | every id is also read without hyphens and in braces |
| `AssetGroups.CreateKeepsForest` | app/db.py:1456-1486 | creation keeps the forest |
| `AssetGroups.ArchiveKeepsForest` | app/db.py:1539-1546 | archiving keeps the forest |
| `AssetGroups.RunsStayForests` | app/db.py:1456-1546 | over every run of allowed steps no group is its own ancestor and active siblings differ in name |
| `AssetGroups.StepKeepsNamesUnique` | app/db.py:941-941 | no step gives two active siblings one name, whatever the case |
| `AssetGroups.Table.CheckParents` | app/db.py:1515-1531 | the loop over parents ends on any table, by the growing set of visited ids, with the result of the recursive walk |
| `AssetGroups.Table.CreateGroup` | app/db.py:1456-1486 | refines creation, with the exact refusals, that of a taken sibling name by the unique index among them |
| `AssetGroups.Table.UpdateGroup` | app/db.py:1489-1536 | refines the update, with the exact refusals in order and the row returned |
| `AssetGroups.Table.ArchiveGroup` | app/db.py:1539-1546 | refines archiving and reports whether the group was active, or that the text is no id |
| `AssetTree.FilterAgreesWithParent` | app/db.py:5403-5487 | the filter for a parent selects exactly the listed paths whose parent it is |
| `AssetTree.OneParentAtMost` | app/db.py:5464-5487 | no path is selected under two parents |
| `AssetTree.ParentOfShown` | app/db.py:5403-5410 | the parent of a written-out path is the path it was built from |
| `AssetTree.SelectedByExactlyOne` | app/db.py:5464-5487 | every well-formed path but `asset` and a bare `asset[n]` is selected by exactly one parent |
| `AssetTree.ParentIsLower` | app/db.py:5403-5419 | going to the parent lowers a measure that also falls when a short name leads to the longer `asset` |
| `AssetTree.TreeDepth` | app/db.py:5413-5419 | the depth loop ends and computes the depth |
| `AssetTree.DepthOfShown` | app/db.py:5413-5419 | the depth of a written-out path is the number of its building steps up to `asset` |
| `FieldCatalog.BuildDigest` | app/db.py:4725-4732 | the loop over an asset's rows leaves the least name and least sample for each path and type, and nothing else |
| `FieldCatalog.CatalogListsLikeRaw` | app/db.py:6709-6735 | a filter that treats all names of a field alike lists the same minimum name, minimum sample and number of assets from the catalog as from the raw rows |
| `FieldCatalog.UnfilteredListsAgree` | app/db.py:6709-6735 | without a filter the two listings are equal |
| `FieldCatalog.FilteredListsAgree` | app/db.py:6709-6735 | with one name for each field of an asset they are equal under every filter |
| `FieldCatalog.SearchesAgreeExactly` | app/db.py:6713-6735 | every search text lists a field alike from catalog and rows if and only if every name of an asset, as a whole, is part of the path or of the kept name, and every kept sample is matched by a row that the kept name finds; the assets listed agree if and only if the first holds |
| `FieldCatalog.AmbiguousNameIsMissed` | app/db.py:6713-6735 | for a name that is not so covered there is a search text that finds an asset in the rows and misses it in the catalog |
| `FieldCatalog.UncoveredSampleIsListed` | app/db.py:6713-6735 | for a sample that is not so covered there is a search text that lists it although no row found has it |
| `FieldCatalog.NamesInPathsAgree` | app/db.py:6713-6735 | if the names of a field are part of its path, every search lists it alike |
| `SearchRows.LeavesNamed` | app/db.py:4480-4526 | every leaf is named by a key that ends its path, or by the name its document was given |
| `SearchRows.CardRowsNamed` | app/db.py:4529-4577 | only the name of a collection can be no part of the path it names |
| `SearchRows.CardsListAlike` | app/db.py:4480-4735 | for cards whose collections have their names in their paths, every search lists every field from the catalog as from the raw rows |
| `SearchRows.SecondNameIsMissed` | app/db.py:4552-4577 | a card with two collections at one path whose second name is not covered |
| `FieldCatalog.Index.Replace` | app/db.py:4705-4743 | re-indexing an asset keeps its digest in step with its rows |
| `FieldCatalog.Index.Delete` | app/db.py:4705-4743 | with an asset's rows its digest goes |
| `LoginLimiter.CheckRefines` | app/auth.py:567-580 | a check rejects exactly when the full history closes the key, and its popping keeps the history represented |
| `LoginLimiter.FailRefines` | app/auth.py:581-589 | recording a failure, with the sweep of stale keys, keeps the history represented |
| `LoginLimiter.ClearRefines` | app/auth.py:590-591 | clearing a key clears its history |
| `LoginLimiter.LimiterAnswersLikeHistory` | app/auth.py:560-591 | for every sequence of calls with a clock that never runs backwards, the limiter answers as the unpruned history does |
| `LoginLimiter.ClosedByAttempts` | app/auth.py:567-580 | for a positive limit a key is closed exactly when the failures in the window number at least the limit |
| `LoginLimiter.PopStale` | app/auth.py:574-575 | the popping loop leaves the failures within the window |
| `LoginLimiter.Limiter.CheckKey` | app/auth.py:567-580 | rejects exactly by the history, which it leaves alone |
| `LoginLimiter.Limiter.RecordFailure` | app/auth.py:581-589 | adds the failure to the history |
| `LoginLimiter.Limiter.ClearKey` | app/auth.py:590-591 | forgets the key's history |
| `UserAdmin.AdminRowsCount` | app/auth.py:455-456 | the rows of the join number as many as the active administrators |
| `UserAdmin.UpdateUserKeepsAdmin` | app/auth.py:422-446 | an accepted update leaves an active administrator |
| `UserAdmin.DeleteUserKeepsAdmin` | app/auth.py:449-462 | an accepted deletion leaves an active administrator |
| `UserAdmin.RoleChangesKeepAdmin` | app/auth.py:480-515 | cloning, changing and deleting roles leave an active administrator |
| `UserAdmin.AlwaysAnAdmin` | app/auth.py:402-515 | over every run of user and role changes there is an active administrator |
| `UserAdmin.Tables.ReplaceUserRoles` | app/auth.py:402-404 | the user has exactly the given roles, others keep theirs |
| `UserAdmin.Tables.Update` | app/auth.py:422-446 | refines the update with its errors in order |
| `UserAdmin.Tables.Delete` | app/auth.py:449-462 | refines the deletion with its errors in order |
| `SearchCache.StepKeepsInvariant` | mcp_server/vulnerabilities.py:345-364 | calls, completions and callbacks in any order keep the pending table equal to the searches in flight and the store bounded and sound |
| `SearchCache.RunsKeepInvariant` | mcp_server/vulnerabilities.py:345-364 | the same over every run from an empty cache |
| `SearchCache.OneRunPerKey` | mcp_server/vulnerabilities.py:349-353 | at most one search for a key is in flight |
| `SearchCache.ReplyIsOfTheKey` | mcp_server/vulnerabilities.py:345-355 | an answer is the newest success of the same key, finished less than the time to live ago; otherwise the caller waits for a search of its key in flight |
| `SearchCache.StepSettles` | mcp_server/vulnerabilities.py:345-364 | a finished search never changes its key or its outcome |
| `SearchCache.RunsSettle` | mcp_server/vulnerabilities.py:345-364 | over every run no search is lost, renamed or finished a second time |
| `SearchCache.WaiterIsGivenItsSearch` | mcp_server/vulnerabilities.py:349-355 | a caller told to wait for a search waits for one of its own key and is given the one outcome that search ever has |
| `SearchCache.FailuresAreNotStored` | mcp_server/vulnerabilities.py:357-361 | a stored answer comes from a successful search of its key |
| `SearchCache.EvictOldest` | mcp_server/vulnerabilities.py:362-364 | the loop leaves the allowed number of entries, none older than an evicted one, and evicts no more than it must |
| `SearchCache.Cache.GetOrStart` | mcp_server/vulnerabilities.py:345-355 | refines the call |
| `SearchCache.Cache.Finish` | mcp_server/vulnerabilities.py:357-364 | refines the callback |
| `FirstSeen.DedupeExactly` | app/mpvm_client.py:1638-1646 | deduplication is the one list with the same members in first-seen order |
| `FirstSeen.DedupeAsItArrives` | app/mpvm_client.py:958-959 | deduplicating batch by batch equals deduplicating the whole |
| `FirstSeen.DedupeKeepOrder` | app/mpvm_client.py:1638-1646 | the loop with its set of seen items computes the deduplication |
| `ConnectionCheck.FinishedExactly` | app/mpvm_client.py:1470-1483 | however and wherever inside the status value a status is spelled, an ongoing one keeps a run unfinished even with an end time; otherwise an end time or a final status finishes it |
| `ConnectionCheck.ExtractSuccessfulTargets` | app/mpvm_client.py:1433-1444 | the loops compute the deduplicated targets of the successful jobs |
| `ConnectionCheck.AllTargetsAre` | app/mpvm_client.py:1433-1467 | a target is extracted exactly when a finished connection check whose results all succeeded lists it |
| `ConnectionCheck.WaitForTargets` | app/mpvm_client.py:927-1014 | the turns taken, the exit and the targets of the loop, and at most one stop request, made exactly on the two stopping exits |
| `ConnectionCheck.ReportsAllExactly` | app/mpvm_client.py:937-1014 | the result is the deduplicated union over all polls, unless a target had answered in an earlier turn and the last turn has no run with an id and waits no longer; in that case it is not |
| `ConnectionCheck.NothingIsLost` | app/mpvm_client.py:937-1014 | while a run once seen stays listed with an id, the result on every exit has exactly the targets that answered in some poll, once each, in the order first seen |
| `ConnectionCheck.VanishedRunLosesTargets` | app/mpvm_client.py:945-950 | a target that answered and is not reported |
| `FitResponse.Fit` | mcp_server/shaping.py:16-36 | the halving loop computes the response |
| `FitResponse.ResponseKeeps` | mcp_server/shaping.py:16-36 | an answer that fits is returned as it is; otherwise it is flagged, fields keep keys and places, lists become prefixes that are empty only if the lists were, and everything else but the flags stays |
| `FitResponse.ResponseFitsOrIsMinimal` | mcp_server/shaping.py:25-36 | if the result is too large, every list is down to one element exactly when 40 halvings were enough, counted by the logarithms of the lengths |
| `FitResponse.HalveUsesOne` | mcp_server/shaping.py:30-35 | each halving lowers that count by one |
| `FitResponse.FewestHalvings` | mcp_server/shaping.py:27-35 | the halvings go on exactly until the answer fits, no list can be halved, or 40 are done |
| `FitResponse.Largest` | mcp_server/shaping.py:30-33 | the list halved is the first of the largest by serialised size |

## Left out

- HTTP, FastAPI handlers, LDAP, the connection pool, logging, CSV and XLSX, migrations, the frontend: plumbing.
- Text is folded and trimmed as ASCII with blanks only. Text columns order by code point.
- The SQL operators on values (LIKE, inet and cidr, md5 beyond equality of digests, regular expressions on OS names) are parameters or equality of what they are applied to; so are number and network parsing. NaN is not modelled. LIKE patterns are read literally, so paths and search texts are taken to hold no wildcard and paths no line break.
- The names that the fixed SQL text uses (columns, aliases) are not parsed: one token stands for each fixed piece.
- `asset_query_evidence_matches` (app/db.py:7034-7056) differs from the compiler on `equals` and `is_false`; agreement is not claimed.
- Sorting and paging of query results, saved views, diagnostics, presets, permission tables.
- The OS family and version token of a finding (app/db.py:4978-4999) are taken as read from its row. The matching of passport texts to families is a parameter.
- Catalog refresh: severity, metrics, source PDQL, last_seen and linked_at columns, remediation cases and trend rows, batch sizes of saving and deleting, progress calls, ambiguous and stale counts, and the advisory lock.
- Link optimality is stated for each refresh and each reconcile call: passport deletion, the trend snapshot without relinking and detail batches do not relink and are not modelled.
- `rebind_scan_postprocess_asset` (app/db.py:6778-6787) rewrites a job's asset without an admission check and is not among the steps of `BuildJobs`.
- Build jobs: request and stats payloads, trace ids.
- BuildJobs.Table.CreateBatch: is about the job table alone; that a failing registration also takes the batch back is in `JobAdmission.Tables.CreateBatch`.
- Operations: error, request and result payloads, subject columns, created_at and started_at; the foreign key of retry_of; how each source row is turned into arguments. A source counts as changed only if its time stamp is later, as the code compares. The sync reads all sources before it registers any, as the code does; other writers in between are not modelled.
- Groups: status, counts and time stamps; locks between concurrent updates.
- Search rows: entity path, normalised text, number and boolean columns, and the removal of repeated rows, which no digest depends on. The loops over keys and items are written as recursion.
- Accounts: passwords, sessions, permissions, audit rows; a null is_active; two updates at once, which lock only their own row.
- Login limiter: the lock; reading the clock and entering the lock are one step.
- Search cache: cancellation of waiting callers (they wait behind a shield), and errors as values given to them.
- Polling: errors raised by the API calls, messages, rejection counts and log events. A wait is given the sequence of readings it makes; a sequence that ends stands for a clock past the deadline.
- `mp10_export_VM_info.py` holds an older form of the client that discards targets on timeout; not modelled.
- PassportScopes.ScopesPartition: no bound is stated for the scope of one asset, because the code gives none.
- FitResponse.ResponseFitsOrIsMinimal: the serialised size is an arbitrary function of the value; that shorter lists serialise shorter is not used.
