# Verified model of the intent platform's stateful core

This project models, in Dafny, the state-carrying parts of the LLM/Nephio O-RAN platform and proves
what they keep over every run:

- **Intent store** (`Decimal`, `IntentIds`, `Lifecycle`, `IntentLog`, `IntentShadow`, `IntentStore`,
  `IntentStoreObject`): write-ahead log, periodic snapshot, log compaction and replay under a ten-state
  lifecycle. Memory, snapshot file and log file are three values; a step relation lets a crash or a
  failed write fall between any two durable writes. The store class with its loops is proved to take
  exactly those steps.
- **Pipelines** (`Pipeline`): up to four intent pipelines racing with user cancellation.
- **Audit queue** (`AuditQueue`): producers, batching loop, timer loop and shutdown as interleaved
  steps over an explicit heap of slice backing arrays.
- **Access control and tokens** (`StringOrder`, `Rbac`, `RbacObject`, `Tokens`, `TokenStores`,
  `BlacklistCodec`, `RateLimit`): permission cache against recomputation, revocation across garbage
  collection, the blacklist entry codec and the token bucket.
- **Integrity chain** (`HashChain`): linkage under a sliding window, and the four verifiers around it.
- **Closed loop** (`Analyzer`, `ClosedLoop`, `ClosedLoopRuns`, `Planner`, `Sentences`): metrics grouped into component
  decisions, cooldown and replica limits over unbounded runs, and the English sentence that carries a
  decision to the planner, with leftmost-regex semantics.
- **Arithmetic** (`Trend`, `Quantile`): least-squares slope, volatility and histogram quantile.

Time is a monotone integer clock, percentages are integers in tenths, other floating-point numbers are
reals, and hashes and signatures are arbitrary functions of what they cover. Calls to foreign services
are steps that succeed or raise. `dafny verify dfyconfig.toml` checks everything.

Where the code does not meet what its documentation or names suggest, the code is modelled as it is, an
exact condition is proved, and a witness lemma shows a failing case:

- A crash or failed write between log truncation and the rewrite of the snapshot offset still reloads
  correctly once, but entries logged afterwards are skipped (`IntentStore.ReloadExactIff`,
  `IntentStore.WindowRunLosesATransition`), although the comment of `_compact_wal` calls it safe.
- An append that raises leaves memory ahead of the log until the next snapshot, and a later transition
  of the same intent that is logged makes the reloaded history skip a state
  (`IntentStore.LifecycleSafety`, `IntentStore.FailedAppendTearsHistory`).
- A revoked token is accepted when a cleanup runs between the expiry check and the blacklist lookup of
  a validation, past the token's expiry, or after a revocation request with a forged earlier expiry,
  since `RevokeToken` checks no signature (`Tokens.RevokedAcceptedIff`, `Tokens.RaceReadmits`,
  `Tokens.EarlierEntryReadmits`).
- An append that raises after the final transition leaves a completed intent that is counted as failed
  (`Pipeline.MetricsAreExact`, `Pipeline.LateErrorMiscounts`), and a restart sets the completed counter
  to zero while the store keeps its completed intents (`Pipeline.RestartMiscounts`).
- `Stop` does not drain the channel (`AuditQueue.StopFlushesAllButTheChannel`,
  `AuditQueue.StopFlushesEverythingIfDrained`, `AuditQueue.StopCanLeaveEvents`).
- `AssignRolesFromClaims` can leave a stale permission cache (`Rbac.AssignLeavesCacheCoherentIff`,
  `Rbac.AssignLeavesStaleAnswer`).
- A failed signature uses up a sequence number, and `VerifyChain` rejects every non-empty chain that
  `ProcessEvent` builds (`HashChain.LinkageAndNumbering`, `HashChain.FailedSignatureLeavesGap`,
  `HashChain.VerifyChainRejectsHonestChains`).
- A cell id that contains a component name or "scale" can change what the planner reads
  (`Sentences.ScaleRoundTrip`, `Sentences.CellIdMisleadsScaling`, `Sentences.SteerRoundTrip`,
  `Sentences.CellIdMisleadsSteering`).

## Model

| member | source | states |
|---|---|---|
| `Decimal.ValueOfPrint` | llm_nephio_oran/planner/stub_planner.py:39-52 | reading a printed number gives the number back, for every natural number |
| `Decimal.ValueOfPrintPadded` | llm_nephio_oran/intentd/store.py:115-121 | zero padding to any width never changes the number read back, also for numbers wider than the field |
| `Decimal.ParseIntOfPrintInt` | pkg/auth/token_blacklist.go:563-623 | the signed 64-bit parser inverts the printer on the 64-bit range and rejects everything outside it |
| `Decimal.ParseInt64Is` | pkg/auth/token_blacklist.go:608-616 | one optional sign and one or more digits parse to their value when it is in the signed 64-bit range, and to an error otherwise |
| `Decimal.ParseInt64Rejects` | pkg/auth/token_blacklist.go:608-616 | a text of any other form is an error |
| `IntentIds.SequenceOfIntentId` | llm_nephio_oran/intentd/store.py:99-121 | the sequence number read out of an identifier is the one it was made from, for every number and date text |
| `IntentIds.InitSeqFromExisting` | llm_nephio_oran/intentd/store.py:99-112 | the raised counter covers every stored sequence number and is the old counter or one of those numbers, never more |
| `IntentIds.NextIdIsFresh` | llm_nephio_oran/intentd/store.py:115-121 | a counter that covers the stored identifiers hands out one that is not among them, and still covers them afterwards |
| `Lifecycle.HistoryBounded` | llm_nephio_oran/intentd/store.py:27-56 | a history that follows allowed edges has at most eight entries and is terminal only at its end |
| `Lifecycle.EdgesAre` | llm_nephio_oran/intentd/store.py:27-39 | the allowed edges are one stage on, failed from wherever it is not over, and cancelled from acknowledged only |
| `IntentLog.ReplayAppend` | llm_nephio_oran/intentd/store.py:392-454 | replaying a concatenation is replaying the parts, the second with what is left of the skip counter |
| `IntentLog.SnapshotPlusSuffixIsFullReplay` | llm_nephio_oran/intentd/store.py:367-454 | snapshot at an offset plus skipping replay equals full replay from empty, with blank and corrupt lines anywhere |
| `Lifecycle.ChainedStep` | llm_nephio_oran/intentd/store.py:206-221 | one more entry keeps a history chained exactly when it continues from the last one along an allowed edge |
| `IntentShadow.LinksReached` | llm_nephio_oran/intentd/store.py:206-242 | a transition that a reload has keeps the reloaded history chained exactly when the reload had all before it; otherwise it breaks it for good |
| `IntentShadow.RecordKeptIff` | llm_nephio_oran/intentd/store.py:392-454 | a reload has an intent's whole record, or even its history, exactly when it has every one of its calls |
| `IntentShadow.TableKeptIff` | llm_nephio_oran/intentd/store.py:392-454 | a reload equals memory exactly when it misses no call |
| `IntentShadow.ChainsKeptIff` | llm_nephio_oran/intentd/store.py:392-454 | a reload breaks no history exactly when no intent is torn, that is, has a transition the reload has after one it has not |
| `IntentStore.LoadAppend` | llm_nephio_oran/intentd/store.py:392-454 | a reload has an appended line exactly when the line lies beyond the snapshot's offset, and is otherwise unchanged by it |
| `IntentStore.StepKeepsInv` | llm_nephio_oran/intentd/store.py:154-242 | every create, transition, allocation, crash and durable write, each append included, failing or not, keeps: what a reload gives is memory without exactly the recorded gaps, and there are none exactly when no append failed and the offset is not ahead |
| `IntentStore.SnapshotKeepsInv` | llm_nephio_oran/intentd/store.py:300-356 | each of the three durable writes of a snapshot, succeeding or failing, keeps that invariant |
| `IntentStore.ReloadExactIff` | llm_nephio_oran/intentd/store.py:194-454 | over all runs with any crashes and any failed append, snapshot, truncation or offset write, a reload rebuilds records, histories and insertion order exactly if and only if no append failed since the last load or snapshot, and the offset is not ahead of the lines the process started from or nothing was logged since |
| `IntentStore.ReloadLosesExactlyTheGaps` | llm_nephio_oran/intentd/store.py:295-454 | over all runs from every readable disk, with crashes and failed writes anywhere and the truncation window included, a reload has the whole record exactly of the intents none of whose calls since the last load or snapshot failed to be logged or was logged below the offset, a shorter history of the others, and the insertion order of those created |
| `IntentStore.LifecycleSafety` | llm_nephio_oran/intentd/store.py:194-454 | over all runs, with failed writes anywhere and crashes anywhere, the window included, in which no crash finds a torn intent, every history in memory is well chained with at most eight entries although replay checks no edge, and a reload would keep every history chained if and only if nothing is torn |
| `IntentStore.ExactReloadIsChained` | llm_nephio_oran/intentd/store.py:325-454 | in such runs every exact reload, in particular one after a crash inside the window, gives chained histories |
| `IntentStore.RunsKeepHistories` | llm_nephio_oran/intentd/store.py:194-242 | along any run at whose crashes an intent has no gap, whatever happens to others, it never disappears, its history only grows, and a terminal record never changes at all |
| `IntentStore.CrashKeepsIff` | llm_nephio_oran/intentd/store.py:358-454 | in every reachable state, a crash and reload keeps an intent and its history if and only if the reload has every one of its calls, and keeps the order of the intents it keeps |
| `IntentStore.RunsKeepOrder` | llm_nephio_oran/intentd/store.py:154-180 | insertion order is never disturbed along any run whose crashes find no create missing |
| `IntentStore.FreshDeploymentIsGood` | llm_nephio_oran/intentd/store.py:139-152 | an empty state directory meets what these results ask of a disk |
| `IntentStore.CreateNeverOverwrites` | llm_nephio_oran/intentd/store.py:154-180 | in every run with concurrent creates and restarts, a create, logged or not, adds one new key at the end and leaves every stored record as it was |
| `IntentStore.SnapshotPassesThroughWindow` | llm_nephio_oran/intentd/store.py:300-341 | every fiftieth transition whose writes succeed passes through a state with an emptied log and a positive offset |
| `IntentStore.WindowLosesLaterEntries` | llm_nephio_oran/intentd/store.py:325-356 | a crash or failed rewrite there reloads exactly once, and the first entry logged afterwards is missing from the next reload |
| `IntentStore.WindowRunLosesATransition` | llm_nephio_oran/intentd/store.py:325-356 | a run from a directory with 49 transitions that passes through the window, crashes there and loses the next transition, although every write succeeds |
| `IntentStore.FailedAppendDiverges` | llm_nephio_oran/intentd/store.py:206-242 | once an append has raised, every reload differs from memory until the next crash or successful snapshot rename, and that rename mends it |
| `IntentStore.FailedAppendTearsHistory` | llm_nephio_oran/intentd/store.py:206-242 | a crash-free run from an empty directory after which a reload, and so memory after any crash, has a history that does not chain |
| `IntentStoreObject.ReplayWal` | llm_nephio_oran/intentd/store.py:392-454 | the loop with a running line index computes skip-counter replay and counts the same kinds of line as the writer |
| `IntentStoreObject.AfterTransitionInv` | llm_nephio_oran/intentd/store.py:194-242 | a whole transition call with its append and its possible snapshot keeps the store invariant whichever of its writes fail |
| `IntentStoreObject.AfterSnapshotInv` | llm_nephio_oran/intentd/store.py:300-356 | snapshot, compaction and offset rewrite together keep the invariant and leave memory alone |
| `IntentStoreObject.Store.constructor` | llm_nephio_oran/intentd/store.py:358-390 | loading any readable files gives the reloaded state with a counter that covers every stored identifier |
| `IntentStoreObject.Store.NextIntentId` | llm_nephio_oran/intentd/store.py:115-121 | takes exactly the allocation step and returns the date and the next number, padded to four digits |
| `IntentStoreObject.Store.Insert` | llm_nephio_oran/intentd/store.py:154-180 | the new record has the given expression, source and time, no fields and one acknowledged entry, and is the only record that changes; its line is the only one appended, or none when the append raises with the record already in memory |
| `IntentStoreObject.Store.TransitionTo` | llm_nephio_oran/intentd/store.py:194-242 | unknown intent, forbidden edge and raising append are reported exactly when they apply; a move sets exactly the well-known keys of its data, adds exactly one history entry and changes no other field and no other record; the line is appended, and every fiftieth one is followed by the snapshot writes |
| `IntentStoreObject.AdvanceMoves` | llm_nephio_oran/intentd/store.py:213-227 | moving a record gives each of the eight well-known keys in the data its value and leaves every other field as it was |
| `IntentStoreObject.Store.Move` | llm_nephio_oran/intentd/store.py:206-236 | changes the one record as a move does and appends its line, or changes the record only when the append raises |
| `IntentStoreObject.Store.CountTransition` | llm_nephio_oran/intentd/store.py:238-242 | every fiftieth transition takes the snapshot steps |
| `IntentStoreObject.Store.Cancel` | llm_nephio_oran/intentd/store.py:244-247 | takes effect exactly for an acknowledged intent, which is moved to cancelled with the user's reason even when the append raises |
| `IntentStoreObject.Store.WriteSnapshot` | llm_nephio_oran/intentd/store.py:300-356 | takes the protocol's snapshot steps up to the first write that fails; the snapshot holds memory, counter and transition count, and the log is emptied or kept accordingly |
| `Pipeline.StepKeepsInv` | llm_nephio_oran/intentd/app_v2.py:253-452 | every handler and pipeline step keeps gauge, counters, worker limit and the states each program point can see |
| `Pipeline.MetricsAreExact` | llm_nephio_oran/intentd/app_v2.py:51-452 | in every state of every interleaving, in a process started on any store, the gauge equals the running pipelines and is at most four, every pipeline about to report or past it has a terminal intent, failed equals the reported pipelines whose intent failed, was cancelled first or failed late, and the intents in completed are those loaded so, counted, about to be counted or failed late; with none running, completed equals them if and only if none was loaded so and no final append raised |
| `Pipeline.PipelineReportsOnce` | llm_nephio_oran/intentd/app_v2.py:253-452 | over every run of a process started on any store, a pipeline decrements the gauge exactly once and counts its result exactly once, takes at most fifteen steps, and always has a next step until it is over |
| `Pipeline.FinePipelineCompletes` | llm_nephio_oran/intentd/app_v2.py:253-436 | over every run, a pipeline all of whose steps go well and whose intent is not cancelled is after n steps at place n of the listed stages, so it ends completed and counted, having executed once unless it was a dry run |
| `Pipeline.ManifestErrorsFail` | llm_nephio_oran/intentd/app_v2.py:288-297 | over every run, after manifest errors the intent is never completed or counted so, and once reported it is failed and counted as failed |
| `Pipeline.RaisedIsReportedFailed` | llm_nephio_oran/intentd/app_v2.py:438-452 | a stage that raises, in any state of any run, is never counted as completed, is counted as failed once reported, and is cleaned up after |
| `Pipeline.TailSteps` | llm_nephio_oran/intentd/app_v2.py:422-452 | manifest errors are reported without cleanup, and cleanup happens after the decrement |
| `Pipeline.HandlerEffects` | llm_nephio_oran/intentd/app_v2.py:84-119 | creating, submitting, cancelling and starting change exactly what they should, cancelling only an acknowledged intent |
| `Pipeline.HandlersReadyIff` | llm_nephio_oran/intentd/app_v2.py:52-119 | a queued pipeline starts exactly when one of the four workers is free |
| `Pipeline.CompletedSplit` | llm_nephio_oran/intentd/app_v2.py:266-452 | completed intents were loaded so, are counted, are about to be counted or failed late, never two of these |
| `Pipeline.ReportedIsTerminal` | llm_nephio_oran/intentd/app_v2.py:422-452 | a pipeline that reports leaves its intent terminal, and is counted as failed exactly when the intent failed, was cancelled first or failed late |
| `Pipeline.FailedSplit` | llm_nephio_oran/intentd/app_v2.py:422-452 | in every state the failed counter's pipelines are exactly the unsuccessful ones that have reported |
| `Pipeline.Quiescent` | llm_nephio_oran/intentd/app_v2.py:422-452 | with no pipeline between increment and decrement, every started one has reported and its intent is terminal |
| `Pipeline.PipelinesFinish` | llm_nephio_oran/intentd/app_v2.py:253-452 | each pipeline step brings its own end closer and touches no other pipeline, the gauge falls only at a decrement, and terminal intents never change |
| `Pipeline.EveryLateErrorMiscounts` | llm_nephio_oran/intentd/app_v2.py:422-452 | in any state, an append raising after the final transition completes the intent while only the failed counter moves |
| `Pipeline.LateErrorMiscounts` | llm_nephio_oran/intentd/app_v2.py:84-452 | a whole run from an empty store that ends so |
| `Pipeline.RestartMiscounts` | llm_nephio_oran/intentd/app_v2.py:51-52 | after a restart on a store with a completed intent the completed counter is zero |
| `AuditQueue.AcceptedIffRoom` | pkg/audit/audit_system.go:416-447 | an event goes to the end of the channel if and only if there is room, and otherwise only the dropped counter moves |
| `AuditQueue.EveryCallIsAccountedFor` | pkg/audit/audit_system.go:416-447 | over every run the calls are those accepted plus those dropped, and the dropped are exactly those that found the channel full |
| `AuditQueue.AuditConservation` | pkg/audit/audit_system.go:381-577 | in every interleaving each accepted event is in exactly one place once, the buffer stays within max(1, BatchSize), in-flight batches keep what was copied although the buffer array is reused, and no backend gets an event twice |
| `AuditQueue.BatchesKeepOrder` | pkg/audit/audit_system.go:475-577 | over every run channel, held event and buffer are the latest accepted events in order, and every batch is a stretch of consecutive events in order |
| `AuditQueue.FlushTakesEverything` | pkg/audit/audit_system.go:475-577 | a flush starts exactly when the buffer has BatchSize events or the timer fires, takes the whole buffer, and hands the whole batch to each backend in turn |
| `AuditQueue.CanAlwaysDrain` | pkg/audit/audit_system.go:475-527 | while both loops run, from every reachable state everything accepted can be flushed without further producers |
| `AuditQueue.DrainedIsFlushed` | pkg/audit/audit_system.go:475-577 | in the state so reached each accepted event has been handed to every backend exactly once |
| `AuditQueue.StopCanAlwaysReturn` | pkg/audit/audit_system.go:336-377 | from every reachable state there is a run without producers in which Stop returns |
| `AuditQueue.StopFlushesAllButTheChannel` | pkg/audit/audit_system.go:336-377 | when Stop has returned, accepted events are exactly those flushed once to every backend plus those left in the channel |
| `AuditQueue.StopFlushesEverythingIfDrained` | pkg/audit/audit_system.go:336-377 | with an empty channel when the context is cancelled and nothing logged afterwards, everything ever accepted has reached every backend exactly once when Stop returns |
| `AuditQueue.StopCanLeaveEvents` | pkg/audit/audit_system.go:475-503 | a run from the initial state after which Stop has returned and an accepted event is in the channel and in no backend |
| `AuditQueue.StepKeepsInv` | pkg/audit/audit_system.go:475-577 | every step of every worker keeps heap, control, conservation and backend invariants |
| `AuditQueue.FlightStep` | pkg/audit/audit_system.go:531-577 | appending into the reused buffer array never alters a batch in flight |
| `AuditQueue.HandedOnce` | pkg/audit/audit_system.go:531-577 | a flushed event has reached every backend, and no backend more than once |
| `AuditQueue.AppendSlice` | pkg/audit/audit_system.go:475-503 | append in place or into a new array adds exactly one element to the slice and changes no other array |
| `StringOrder.BelowIs` | pkg/auth/rbac.go:984-1010 | the order is lexicographic: at the first difference the first text has the smaller character or has ended |
| `StringOrder.SortedListingUnique` | pkg/auth/rbac.go:984-1010 | two strictly sorted listings of the same strings are equal |
| `Rbac.CalculateIsSortedUnion` | pkg/auth/rbac.go:984-1010 | a list is the computed one if and only if it is the sorted duplicate-free union of the permissions of the user's roles |
| `Rbac.StepKeepsInv` | pkg/auth/rbac.go:508-914 | every operation keeps role lists duplicate-free and existing, and every cached entry outside the clearing gap equal to recomputation |
| `Rbac.AnswersAgreeWithRecomputation` | pkg/auth/rbac.go:592-628 | after any operations, at any time and TTL, the answer equals recomputation if and only if the user is outside the clearing gap or nothing non-empty and fresh is cached |
| `Rbac.DeleteRoleRemovesEverywhere` | pkg/auth/rbac.go:812-842 | no user holds a deleted role although one occurrence per user is removed |
| `Rbac.AssignLeavesCacheCoherentIff` | pkg/auth/rbac.go:944-980 | after the call the user's cache agrees with recomputation if and only if a mapped role exists or no non-empty entry was cached before |
| `Rbac.AssignLeavesStaleAnswer` | pkg/auth/rbac.go:944-980 | a run from a manager without users after which a user without roles is still answered with a permission |
| `RbacObject.FindFirst` | pkg/auth/rbac.go:508-572 | the first occurrence, or the length exactly when there is none |
| `RbacObject.SpliceIsRemoveFirst` | pkg/auth/rbac.go:544-572 | splicing a slice around the found index removes the first occurrence and keeps the order of the rest |
| `RbacObject.RemoveFirstSplices` | pkg/auth/rbac.go:544-572 | the list afterwards is the list before without its first occurrence, if it has one |
| `RbacObject.RbacManager.GrantRoleToUser` | pkg/auth/rbac.go:508-540 | succeeds exactly for an existing role; a role not held yet goes to the end of the user's list and drops only that user's cache entry, and nothing else changes |
| `RbacObject.RbacManager.RevokeRoleFromUser` | pkg/auth/rbac.go:544-572 | succeeds exactly when the user holds the role, whose first occurrence goes and drops only that user's cache entry; nothing else changes |
| `RbacObject.RbacManager.CalculateUserPermissions` | pkg/auth/rbac.go:984-1010 | the two nested loops compute the specified union |
| `RbacObject.RbacManager.GetUserPermissions` | pkg/auth/rbac.go:592-628 | outside the gap the answer, cached or not, is the sorted duplicate-free union of current role permissions; an entry younger than the TTL is answered and kept, otherwise the answer is stored with the time |
| `RbacObject.RbacManager.AllExist` | pkg/auth/rbac.go:736-808 | accepts a permission list exactly when all of it is known |
| `RbacObject.RbacManager.CreateRoleNamed` | pkg/auth/rbac.go:736-774 | succeeds exactly for a new named role with known permissions, which is then the only change besides the emptied cache |
| `RbacObject.RbacManager.UpdateRoleNamed` | pkg/auth/rbac.go:778-808 | succeeds exactly for an existing role with known permissions, which then has the new ones, with no other change besides the emptied cache |
| `RbacObject.RbacManager.DeleteRoleNamed` | pkg/auth/rbac.go:812-842 | the role goes, and each user's list loses its first occurrence and nothing else, in any order of the user map |
| `RbacObject.RbacManager.CreatePermissionNamed` | pkg/auth/rbac.go:884-914 | succeeds exactly for a new named permission, which is then the only change besides the emptied cache |
| `RbacObject.RbacManager.RemoveFromAllUsers` | pkg/auth/rbac.go:812-842 | every user loses the first occurrence of the role and nothing else |
| `RbacObject.RbacManager.AssignRolesFromClaims` | pkg/auth/rbac.go:944-980 | the user's roles are afterwards exactly the mapped ones that exist, each once in order; other users, roles and permissions stay, and the user's cache entry goes only if some mapped role exists |
| `Tokens.StepKeepsInv` | pkg/auth/jwt_manager.go:308-735 | every step, with validations split at every point where another call can interfere and revocations of unverified claims, keeps: the blacklist holds the last entry written for a token unless a cleanup ran past it, and an issued token is stored with its own user and expiry, was written to the blacklist, or has expired |
| `Tokens.StepProgress` | pkg/auth/memory_stores.go:91-149 | no step forgets an issued token or that one was written to the blacklist, and validations keep their token and start |
| `Tokens.AcceptsIff` | pkg/auth/jwt_manager.go:595-605 | the lookup of an open validation accepts a token that was once blacklisted if and only if its last entry expired before the token and was cleaned up, or a cleanup ran during this validation past the token's expiry |
| `Tokens.RevokedAcceptedIff` | pkg/auth/jwt_manager.go:541-735 | for a revocation call that has returned, any token it covers and any validation that starts later, in every interleaving, exactly those two ways lead to acceptance |
| `Tokens.RevocationIsPermanent` | pkg/auth/jwt_manager.go:675-735 | when every revocation request for the token claims an expiry no earlier than its own, a later validation accepts it exactly when a cleanup falls between its own two checks after expiry; so a lookup at or before the expiry, or without a cleanup during the validation, always rejects, however much was cleaned up before |
| `Tokens.RaceReadmits` | pkg/auth/jwt_manager.go:541-624 | a run from the initial state in which a cleanup between the expiry check and the lookup lets a revoked token through |
| `Tokens.RevocationCoversAndReturns` | pkg/auth/jwt_manager.go:675-735 | a user revocation covers every token issued to the user before the listing, and each call always has its next step until it returns |
| `Tokens.UnrevokedStaysValid` | pkg/auth/jwt_manager.go:541-624 | a usable token stays usable through every step that neither blacklists it nor reaches its expiry |
| `Tokens.EarlierEntryReadmits` | pkg/auth/jwt_manager.go:675-706 | a run from the initial state in which a revocation request with a forged earlier expiry makes a revoked token valid again before its expiry |
| `TokenStores.MemoryTokenStore.UpdateToken` | pkg/auth/memory_stores.go:50-64 | a deleted token is not brought back by a late update |
| `TokenStores.MemoryTokenStore.ListUserTokens` | pkg/auth/memory_stores.go:75-89 | lists every entry of the user and no other, each once |
| `TokenStores.MemoryTokenStore.CleanupExpired` | pkg/auth/memory_stores.go:91-103 | removes exactly the entries strictly past their expiry |
| `TokenStores.MemoryTokenBlacklist.CleanupExpired` | pkg/auth/memory_stores.go:137-149 | removes exactly the entries strictly past their expiry |
| `TokenStores.JwtManager.GenerateToken` | pkg/auth/jwt_manager.go:392-424 | takes the protocol's issue step: the store keeps the token with its own user and expiry |
| `TokenStores.JwtManager.CleanupOnce` | pkg/auth/jwt_manager.go:1046-1071 | takes the protocol's two cleanup steps, the blacklist at a later reading of the clock, and removes exactly what is strictly past its expiry |
| `TokenStores.JwtManager.RevokeOne` | pkg/auth/jwt_manager.go:691-701 | takes the protocol's blacklist step and then its delete step for one token |
| `TokenStores.JwtManager.RevokeToken` | pkg/auth/jwt_manager.go:675-706 | takes the protocol's start, blacklist and delete steps for the claimed token and expiry |
| `TokenStores.JwtManager.RevokeListed` | pkg/auth/jwt_manager.go:716-732 | takes two protocol steps per listed token until none is left |
| `TokenStores.JwtManager.RevokeUserTokens` | pkg/auth/jwt_manager.go:710-735 | takes the protocol's steps for a listing of the user's tokens, after which exactly those have moved from store to blacklist, each with its own expiry |
| `TokenStores.JwtManager.Parse` | pkg/auth/jwt_manager.go:541-593 | of a genuine token, passes and takes the protocol's first validation step exactly when it has not expired |
| `TokenStores.JwtManager.LookUp` | pkg/auth/jwt_manager.go:595-605 | accepts exactly when the token has no blacklist entry, whatever the time, and takes the protocol's lookup step |
| `TokenStores.JwtManager.ReadUse` | pkg/auth/jwt_manager.go:607-609 | takes the protocol's step that copies the store entry |
| `TokenStores.JwtManager.WriteUse` | pkg/auth/jwt_manager.go:611-619 | takes the protocol's write-back step, which never brings a deleted entry back |
| `TokenStores.JwtManager.ValidateToken` | pkg/auth/jwt_manager.go:541-624 | without interference, takes the four parts in turn, accepts exactly when not expired and not blacklisted, and changes only the use count of an accepted stored token |
| `BlacklistCodec.RoundTrip` | pkg/auth/token_blacklist.go:563-623 | reading back succeeds if and only if no text field contains the separator, and then gives the entry cut to seconds, for all strings, 64-bit timestamps and targets |
| `BlacklistCodec.SplitMarshal` | pkg/auth/token_blacklist.go:563-623 | with clean fields the text splits into exactly the seven fields in order |
| `BlacklistCodec.MarshalBars` | pkg/auth/token_blacklist.go:563-589 | the text has six separators plus those inside the five text fields |
| `BlacklistCodec.EntryObject.UnmarshalInto` | pkg/auth/token_blacklist.go:591-623 | succeeds exactly on six separators, then fills the five text fields in order and each timestamp that parses, keeping one that does not; on an error the object is untouched |
| `RateLimit.AdmittedInWindow` | pkg/auth/middleware.go:1042-1082 | requests of one key in any window number at most BurstSize + ceil(T * rate) admitted, with tokens in 0..BurstSize throughout, despite the floored refill |
| `RateLimit.KeysAreIndependent` | pkg/auth/middleware.go:1042-1082 | in any interleaving the requests of one key fare as if they were alone |
| `RateLimit.AdmittedInWindowPerKey` | pkg/auth/middleware.go:1042-1082 | the bound holds for each key inside any interleaving with other keys, from any bucket in range |
| `RateLimit.BucketsStayInRange` | pkg/auth/middleware.go:1042-1082 | every bucket of every limiter reached from one in range holds between zero and BurstSize tokens |
| `RateLimit.AdmittedInAnyWindow` | pkg/auth/middleware.go:1021-1082 | from the empty limiter, in any run, any stretch of requests inside a window of T has at most BurstSize + ceil(T * rate) admitted ones of each key |
| `RateLimit.BoundIsSharp` | pkg/auth/middleware.go:1042-1082 | a request pattern that attains the bound for every burst size |
| `RateLimit.RefusedIff` | pkg/auth/middleware.go:1057-1077 | a request is refused exactly when the bucket is empty and less than one token has accrued since its stamp |
| `RateLimit.ServedTokens` | pkg/auth/middleware.go:1057-1077 | a request adds the whole tokens accrued, up to the capacity, takes one if admitted, and moves the stamp exactly when a token accrued |
| `RateLimit.IdleKeyGetsItsBurst` | pkg/auth/middleware.go:1042-1082 | a key idle long enough to refill gets its whole burst at once |
| `RateLimit.ServeCredit` | pkg/auth/middleware.go:1057-1077 | tokens plus the part accrued since the stamp grow at most at the rate, and each admission costs one |
| `RateLimit.RateLimiter.Handle` | pkg/auth/middleware.go:1042-1082 | creates or finds the key's bucket, serves the request as specified and touches no other bucket; a non-positive burst admits nothing |
| `HashChain.LinkageAndNumbering` | pkg/audit/integrity.go:242-348 | after any events with any failures and truncations linkage holds, and retained numbers are consecutive up to the current one if and only if no signature failed after the oldest retained link |
| `HashChain.FailedSignatureSkipsANumber` | pkg/audit/integrity.go:242-348 | on any chain with room, a success, a failed signature and a success leave two links whose numbers are two apart |
| `HashChain.FailedSignatureLeavesGap` | pkg/audit/integrity.go:242-348 | from the empty chain the two links are numbered 1 and 3 |
| `HashChain.LinkedStep` | pkg/audit/integrity.go:242-348 | one event keeps every pointer, also through the 10000-link truncation |
| `HashChain.NumberedStep` | pkg/audit/integrity.go:242-348 | one event keeps numbers ascending and in place exactly from the last failed signature on |
| `HashChain.VerifyChain` | pkg/audit/integrity.go:425-557 | valid exactly when every link passes its four checks, and so on a linked chain only when the chain is empty |
| `HashChain.VerifyChainRejectsHonestChains` | pkg/audit/integrity.go:425-557 | of the chains ProcessEvent builds, only the empty one passes |
| `HashChain.IntegrityChain.ProcessEvent` | pkg/audit/integrity.go:242-348 | a success stamps the event with the hash of its content, the current hash or genesis and the signature over number, id, hash and chain hash, and appends exactly that link to the newest 10000; a failure leaves event and links alone and uses up a number only if signing failed |
| `HashChain.IntegrityChain.Seal` | pkg/audit/integrity.go:263-335 | numbers, hashes and signs one link from the event's id, hash and previous hash, and appends it |
| `HashChain.IntegrityChain.Extend` | pkg/audit/integrity.go:242-348 | appends one link and keeps the newest ones |
| `HashChain.IntegrityChain.VerifyEventChain` | pkg/audit/integrity.go:874-897 | accepts exactly the events that carry the non-empty hash of their own content |
| `HashChain.IntegrityChain.ProcessInOrder` | pkg/audit/integrity.go:242-348 | of events processed in order with any failures, each success carries its own hash and points at a successful predecessor, and each failure is left alone, whatever the chain held |
| `HashChain.IntegrityChain.ProcessAndVerify` | pkg/audit/integrity.go:874-897 | new distinct events put through ProcessEvent pass VerifyEventChain if and only if all were processed successfully, and raise no linkage violation in ValidateEventChain if and only if all were or none was |
| `HashChain.ValidateEventChain` | pkg/audit/integrity.go:997-1076 | valid exactly when every event points at the one before and each has its integrity fields and a recent timestamp; both passes report the same number of breaks |
| `HashChain.SortTimeline` | pkg/audit/integrity.go:1115-1137 | the in-place exchange sort orders by time and permutes the events |
| `Trend.DenominatorClosedForm` | pkg/automation/failure_prediction.go:596-632 | the denominator is n^2 (n^2 - 1) / 12, so the zero branch is unreachable for two or more points |
| `Trend.LinearSlope` | pkg/automation/failure_prediction.go:596-632 | returns the solution of the normal equation, or zero for fewer than two points |
| `Trend.Quotient` | pkg/automation/failure_prediction.go:596-632 | the division is defined and solves the normal equation |
| `Trend.SlopeIsLeastSquares` | pkg/automation/failure_prediction.go:596-632 | with the intercept that goes with it, no other line has a smaller squared error on the series |
| `Trend.SlopeOfLine` | pkg/automation/failure_prediction.go:596-632 | on data a*i + b the slope is a |
| `Trend.SlopeOfRisingSeries` | pkg/automation/failure_prediction.go:596-632 | the slope of a non-decreasing series is never negative |
| `Trend.NumeratorNonNegative` | pkg/automation/failure_prediction.go:596-632 | Chebyshev's sum inequality for the index sequence |
| `Trend.VarianceIsMeanSquaredDeviation` | pkg/automation/failure_prediction.go:530-560 | the number under the square root is the mean squared deviation from the mean |
| `Trend.VarianceOfNonNegative` | pkg/automation/failure_prediction.go:530-560 | the variance under the square root is never negative, on any series |
| `Trend.Volatility` | pkg/automation/failure_prediction.go:530-560 | zero for short series and zero mean, else root of the variance over the mean, with a root that need only be defined on non-negative numbers |
| `Quantile.HistogramQuantile` | llm_nephio_oran/observability/pipeline_metrics.py:278-318 | the scan over sorted buckets computes the estimate the next lemmas are about |
| `Quantile.EstimateInSameBucket` | llm_nephio_oran/observability/pipeline_metrics.py:278-318 | the estimate is in the bucket of the true rank-ceil(q*n) observation for every non-negative observation list with these counts, and divides it as q*n divides the bucket's count, or is the largest finite bound when that observation is above all of them |
| `Quantile.InterpolateIs` | llm_nephio_oran/observability/pipeline_metrics.py:307-313 | interpolation is linear: distance from the lower bound times count equals rank within the bucket times width |
| `Quantile.EstimateMonotone` | llm_nephio_oran/observability/pipeline_metrics.py:278-318 | a higher quantile never has a lower estimate |
| `Quantile.SortsAnyOrder` | llm_nephio_oran/observability/pipeline_metrics.py:278-318 | buckets in any order sort to the one strictly ascending listing |
| `Analyzer.SteerThreshold` | llm_nephio_oran/closedloop/analyzer.py:145-157 | the threshold is the CQI gap in tenths, and 100 when the gap is larger |
| `Analyzer.MetricsAnalyzer.Recommend` | llm_nephio_oran/closedloop/analyzer.py:58-125 | exactly when to scale out and exactly when to scale in; every recommendation moves by at most one replica, and approval is asked exactly for a scale-out from three or more |
| `Analyzer.RunIsDisciplined` | llm_nephio_oran/closedloop/analyzer.py:45-125 | over any run replicas stay in 1..max, each recorded action moves them by one from where the last left them, and consecutive ones are a cooldown apart |
| `Analyzer.SpanAtLeast` | llm_nephio_oran/closedloop/analyzer.py:50-56 | actions i and j are at least (j - i) cooldowns apart |
| `Analyzer.ActionsInWindow` | llm_nephio_oran/closedloop/analyzer.py:45-125 | any window of T holds at most floor(T / cooldown) + 1 recorded actions of a component |
| `ClosedLoop.SummaryByCell` | llm_nephio_oran/kpimon/bridge.py:44-73 | one entry per cell in order of first appearance, with its first gNB and the UEs of all its slices, and the per-cell totals sum to the total of active UEs |
| `ClosedLoop.ResolveIs` | llm_nephio_oran/closedloop/e2_closed_loop.py:26-30 | a gNB named gnb-central counts towards the core's free5gc-amf, and every other one towards oai-odu |
| `ClosedLoop.CellPeak` | llm_nephio_oran/closedloop/e2_closed_loop.py:164-167 | the highest PRB usage over the slices of a cell |
| `ClosedLoop.GroupByComponent` | llm_nephio_oran/closedloop/e2_closed_loop.py:155-168 | every cell is filed under the component it resolves to and nowhere else, with its own peak and UEs |
| `ClosedLoop.FileCell` | llm_nephio_oran/closedloop/e2_closed_loop.py:161-168 | filing one cell loses none filed before |
| `ClosedLoop.GroupPeak` | llm_nephio_oran/closedloop/e2_closed_loop.py:171-172 | the largest peak among a component's cells |
| `ClosedLoop.PeakOfPeaks` | llm_nephio_oran/closedloop/e2_closed_loop.py:155-187 | the largest of the cell peaks is the largest over all slice snapshots of the component |
| `ClosedLoop.DecisionMatchesVerdict` | llm_nephio_oran/closedloop/e2_closed_loop.py:74-106 | analysing that peak decides as the flat specification over slice snapshots does |
| `ClosedLoop.OtherComponents` | llm_nephio_oran/closedloop/e2_closed_loop.py:291-297 | the groups of a cycle have different component names, so acting on one starts no cooldown for another |
| `ClosedLoop.CycleIsStep` | llm_nephio_oran/closedloop/e2_closed_loop.py:143-198 | a whole cycle is, for every observed component, one step of the single-component loop whose runs are disciplined |
| `ClosedLoopRuns.ActionsAreLoopActions` | llm_nephio_oran/closedloop/e2_closed_loop.py:143-198 | over any number of cycles, seen or not seen and cut short or not, what is recorded for a component is what its own loop records |
| `ClosedLoopRuns.ControllerRunsAreDisciplined` | llm_nephio_oran/closedloop/e2_closed_loop.py:108-198 | over any run of the whole controller with replicas fed back, each component's recorded actions stay in 1..max replicas, move by one from where the last left them, and are a cooldown apart |
| `ClosedLoopRuns.ControllerActionsInWindow` | llm_nephio_oran/closedloop/e2_closed_loop.py:108-198 | any window of T holds at most floor(T / cooldown) + 1 recorded actions of each component |
| `ClosedLoopRuns.RunCycles` | llm_nephio_oran/closedloop/e2_closed_loop.py:143-198 | calling the controller once per observation produces rounds of the kind those results are about |
| `ClosedLoop.Controller.Decide` | llm_nephio_oran/closedloop/e2_closed_loop.py:108-141 | acts exactly when the flat verdict asks for it; a post that raises records nothing |
| `ClosedLoop.Controller.Advance` | llm_nephio_oran/closedloop/e2_closed_loop.py:170-198 | one iteration answers one more component and keeps the cooldowns of those to come |
| `ClosedLoop.Controller.DecideAll` | llm_nephio_oran/closedloop/e2_closed_loop.py:170-198 | the loop answers every component, or stops at the first post that raises with what was done so far |
| `ClosedLoop.Controller.RunCycle` | llm_nephio_oran/closedloop/e2_closed_loop.py:143-198 | no component is acted on twice, each action is the one the flat specification asks for, moves by one replica and names one of the component's own cells, all asked for are taken unless a post raises, and exactly those are recorded |
| `Planner.MatchAtIsMatches` | llm_nephio_oran/planner/stub_planner.py:39-52 | the greedy matcher finds a group exactly when the declarative meaning of the pattern has it, so backtracking never matters |
| `Planner.SearchIsLeftmost` | llm_nephio_oran/planner/stub_planner.py:39-52 | search returns a group exactly when it is that of the leftmost match |
| `Planner.SearchFails` | llm_nephio_oran/planner/stub_planner.py:39-52 | search fails exactly when nothing matches anywhere |
| `Planner.ExtractIs` | llm_nephio_oran/planner/stub_planner.py:39-52 | what is extracted is the number in the group of the leftmost match, clamped |
| `Planner.Clamp` | llm_nephio_oran/planner/stub_planner.py:43-52 | within the bounds the number itself, outside the nearer bound |
| `Planner.BlanksAre` | llm_nephio_oran/planner/stub_planner.py:39-52 | which characters are blanks of the patterns |
| `Planner.LetterLowered` | llm_nephio_oran/planner/stub_planner.py:30-36 | each capital becomes its small letter |
| `Sentences.NamesIndependent` | llm_nephio_oran/planner/stub_planner.py:9-13 | no listed component name occurs in a later one, so list order hides none |
| `Sentences.FirstInIs` | llm_nephio_oran/planner/stub_planner.py:30-36 | a component that occurs is the extracted one exactly when no earlier-listed one occurs |
| `Sentences.ComponentsInSentence` | llm_nephio_oran/closedloop/e2_closed_loop.py:120-123 | a listed name occurs in the scaling sentence only as the scaled component or inside the cell id |
| `Sentences.ComponentReadBack` | llm_nephio_oran/planner/stub_planner.py:30-36 | the component read back is the one written if and only if the lower-cased cell id holds no earlier-listed name |
| `Sentences.CountReadBack` | llm_nephio_oran/planner/stub_planner.py:39-44 | the count read back is the count written, clamped to 1..200, for every cell id |
| `Sentences.ScaleRoundTrip` | llm_nephio_oran/planner/stub_planner.py:55-73 | every scaling sentence is planned as a scaling with the written count, and with the written component and its domain if and only if the cell id holds no earlier-listed name |
| `Sentences.ControllerScaling` | llm_nephio_oran/closedloop/e2_closed_loop.py:108-123 | of the two components the controller scales, oai-odu always survives and free5gc-amf exactly when the cell id holds none of the six names before it |
| `Sentences.ScaleInSteering` | llm_nephio_oran/closedloop/e2_closed_loop.py:241-243 | the steering sentence contains "scale" exactly when the cell id does |
| `Sentences.ThresholdReadBack` | llm_nephio_oran/planner/stub_planner.py:47-52 | the threshold read back is the first one written, clamped to 0..100, although a second number follows an equals sign |
| `Sentences.SteerRoundTrip` | llm_nephio_oran/planner/stub_planner.py:74-84 | the steering sentence configures ric-ts with the written threshold if and only if "scale" is not in the lower-cased cell id |
| `Sentences.ControllerSteering` | llm_nephio_oran/closedloop/analyzer.py:145-157 | the threshold chosen from the CQI is the threshold configured |
| `Sentences.PlanIs` | llm_nephio_oran/planner/stub_planner.py:55-94 | for every text the keywords decide the kind; scaling and deployment are of the first listed component named in it, trafficgen if none is, in the domain listed for it, with one replica for a deployment; steering is of ric-ts |
| `Sentences.PlanDefaults` | llm_nephio_oran/planner/stub_planner.py:30-94 | a text with no known component and no matching number is planned by its keywords alone, with every default value |
| `Sentences.FirstNumberFound` | llm_nephio_oran/planner/stub_planner.py:39-44 | the first number of a text, if any blanks and replica follow it, is the number extracted |
| `Sentences.FirstThresholdFound` | llm_nephio_oran/planner/stub_planner.py:47-52 | the number after the first threshold and any blanks is the number extracted |
| `Sentences.TenthsReadBack` | llm_nephio_oran/closedloop/e2_closed_loop.py:120-123 | a value printed with one decimal reads back as its tenths |
| `Sentences.CellIdMisleadsScaling` | llm_nephio_oran/planner/stub_planner.py:30-36 | a cell named oai-odu makes the planner scale the wrong component |
| `Sentences.CellIdMisleadsSteering` | llm_nephio_oran/planner/stub_planner.py:63-73 | a cell named scale turns steering into scaling |

## Left out

- Torn writes: a log line is appended whole or not at all, renames are atomic, and a failed truncation leaves the log as it was.
- JSON encoding of records, including `default=str`; records are values that encode losslessly. An unreadable snapshot file counts as missing.
- IntentIds.SequenceOfIntentId: suffixes that Python's `int` accepts beyond plain digits (signs, blanks, underscores) are read as having no number, because the store never makes such identifiers.
- `build_report`, `get`, `list_all` and `ComplianceState` of the store: projections of the records.
- Pipeline.MetricsAreExact: stage durations, histogram metrics and what a stage computes are not modelled; a stage succeeds, reports manifest errors or raises. Executor order and shutdown are not modelled.
- AuditQueue.StopFlushesAllButTheChannel: a restart after Stop and a second Stop call are not modelled; severity filtering, enrichment and validation happen before an event counts as accepted; a backend that reports an error has still been handed the batch.
- Rbac.AnswersAgreeWithRecomputation: callers that modify a returned or stored slice or role after the call are not modelled; role metadata, `matchesPermission`, policies and `CheckAccess` are left out.
- Tokens.RevokedAcceptedIff: token ids are unique and the clock is monotone; the in-memory stores report no error, and a revocation request without an expiry claim, which panics before changing anything, is not a step. A restart, which forgets the in-memory blacklist and store while a configured signing key stays, so that a revoked token is valid again, is outside the model. Tokens of `generateLegacyToken` are never stored and so are outside a user revocation.
- Key rotation, token parsing, RSA signatures, Redis-backed stores and the local cache of the blacklist.
- RateLimit.AdmittedInWindow: the product of elapsed minutes and rate is exact, without floating-point rounding; `KeyGenerator` and the handlers are left out.
- HashChain.LinkageAndNumbering: hashes are arbitrary non-empty texts and the sequence number does not wrap; `VerifyEvent`, chain export, recovery and forensic analysis other than timeline order are left out.
- Trend.LinearSlope and Quantile.HistogramQuantile: exact reals instead of floating-point numbers; parsing of bucket bounds is left out.
- ClosedLoop.SummaryByCell: throughput, average PRB and slice lists of the summary are left out, because no decision uses them. PRB usage comes in tenths already, so rounding to one decimal changes nothing.
- ClosedLoop.Controller.RunCycle: the scaling path only; the CQI path adds a per-cell cooldown of the same kind and the choice between direct policy and sentence, and `low_cqi_cells` a per-cell mean. Dry runs without a client record the same action without posting.
- Sentences.ScaleRoundTrip and Sentences.SteerRoundTrip: letter case, digits and white space are those of ASCII; other scripts' digits and case folding are not modelled. Percentages and CQI values are printed from tenths.
- `plan_from_text`: the plan's identifier, slice profile and policy sections, which do not depend on the text beyond what is modelled.
- Git, Gitea, Porch, ConfigSync, Kubernetes, Ollama, Prometheus, SMTP and LDAP calls, HTTP handlers and configuration.
