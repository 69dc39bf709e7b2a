# Verification of engram9's write path

A Dafny model of the ACP write path of engram9 and of the link handling of its OKF bundles. The write path is a
durable work queue that feeds a transactional store: `/remember` appends events, a coordinator batches the pending ones
and hands each batch to an agent turn, the turn edits a copy of the wiki, a gate judges the copy, and whole trees are
swapped. Compile turns walk the same event log with a cursor. Run `dafny verify dfyconfig.toml` to check everything.

How the files follow the program:

- `Batching`, `Packing`, `Ordering`: forming batches under three caps. `Verdicts`, `Reasons`: reading an agent's report.
- `Splitting`, `Schedule`, `Poison`: splitting failed batches, the growing work list, and how far one bad event reaches.
- `Breaker`: the unknown-streak breaker over whole runs. `Coordinator`: the class with the flush loop, proved against
  `Flushing` (a flush as the history of its attempts); `FlushLaws` says what every flush guarantees, and `Deferral` what
  runs of flushes and admin requests do.
- `Store`, `StoreRuns`: the pending-event store, its status log, and what runs and restarts keep.
- `Wiki`, `Validator`, `ValidatorLaws`, `WikiRuns`: the wiki as a tree of files, the commit gate, and whole runs of turns.
- `Commits`, `Ingest`, `WikiLock`: the tree swap step by step, one batch turn, and the mutex over all interleavings.
- `EventLog`, `Compile`, `CompileTurn`, `CompileRuns`: event log, receipts, one compile turn, and the cursor over runs.
- `Rewriting`, `CodeSpans`, `Migration`, `Links`, `LinkResolution`, `LinkRoundTrip`, `Paths`: the wikilink rewriter, and
  the way of a link from the rewriter to the validator and back to the file.
- `Text`, `Sums`, `Counting`, `Turns`: strings as Go sees them, totals over sets, counting, shared types.

Code that changes state is modelled by classes and loops that are proved against values; the laws are lemmas about those
values and about runs of steps. What the code leaves to the world (the agent, clock, disk and file system) is an
arbitrary function or parameter: every append, rename, removal and copy may fail, wholly or part-way.

What the proofs show about the code that its documentation does not say:

- After a compile turn has archived a page other than a structural index page, no later turn that stages a wiki is
  accepted: an archived page without an identical active twin is a taxonomy violation when kept and a deletion when
  dropped (`WikiRuns.NoTurnAfterMove`). An archived index page comes back with the next rebuild; turns are then accepted
  again and may overwrite its archived copy (`WikiRuns.MovedIndexComesBack`).
- A turn that changes nothing is accepted exactly under the condition of `ValidatorLaws.NoOpTurn`.
- `NotifyAppended` keeps memory and status log in agreement exactly for events without an outcome
  (`StoreRuns.NotifyAgreesIff`); a failed status write or reset may leave the log ahead of memory, exactly as
  `StoreRuns.FailedWriteAgreesIff` and `StoreRuns.FailedResetAgreesIff` say.
- A status record that follows a torn line is lost with it (`StoreRuns.TornLineSwallowsNextRecord`).
- An event written without its newline is readable until the next append, and then both are lost
  (`EventLog.UnterminatedRecordIsLost`). The readable log only grows exactly while no append continues such a record
  (`CompileRuns.LogGrowsIff`); one that does can leave the cursor beyond the log and let a later event fall below it
  unserved (`CompileRuns.LostRecordSkipsEvent`).
- A cursor write that is cut short can move the cursor back, which repeats events but skips none
  (`EventLog.CutWriteGoesBack`, `CompileRuns.GapFree`).
- A receipt write that stops right before its newline moves the cursor past events that were never served
  (`CompileRuns.FailedReadMovesCursor`); a committed turn was served its window exactly when its receipt file ended in a
  newline (`CompileRuns.GapFree`).
- A percent sign is not escaped, so escaping is undone exactly for texts without one of the six codes
  (`Links.EscapeRoundTrip`).
- A wiki link does not lead to its file from a page whose directory is that very path (`LinkRoundTrip.LinkLeadsToFile`).
- The branch of `flush` for an unknown batch status cannot reach the limit of consecutive errors, because the count was
  just reset; the flush loop proves that branch dead.

## Model

| member | source | states |
|---|---|---|
| `Batching.LeastKeyExists` | internal/agent/batch.go:136-150 | a non-empty context always has a least key, so serialising it key by key is well defined |
| `Batching.MakeBatch` | internal/agent/batch.go:196-215 | the batch holds the events as given, its byte and token sizes are those of its events, and its id is the digest of its sorted ids |
| `Batching.BatchIdOfSet` | internal/agent/batch.go:196-205 | batches with the same ids have the same batch id, whatever the order, depth or origin of the events |
| `Batching.FormBatches` | internal/agent/batch.go:156-194 | the loop over running sums forms exactly the greedy grouping of the sorted events |
| `Batching.CutBatches` | internal/agent/batch.go:171-194 | the loop with `start` and two running sums cuts where the greedy recursion cuts, and its sums never drift |
| `Batching.LoopPacks` | internal/agent/batch.go:171-194 | cutting by positions and running sums is greedy packing under the three recomputed caps |
| `Batching.FitsBetweenIsFits` | internal/agent/batch.go:180-186 | the differences of running sums that the loop compares are the sizes of the open batch |
| `Batching.BatchesAreOptimal` | internal/agent/batch.go:156-194 | the batches concatenate to the sorted input, every batch of two or more meets all three caps, and no other cut of that order with oversize singletons allowed uses fewer |
| `Packing.GreedyIsOptimal` | internal/agent/batch.go:171-194 | greedy packing is minimal for every test that is closed under sublists |
| `Packing.GroupsPartition` | internal/agent/batch.go:171-194 | greedy groups are non-empty, admissible and concatenate to the input |
| `Batching.OrderBlind` | internal/agent/batch.go:164-170 | any permutation of the same events gives the same batches |
| `Ordering.SortedUnique` | internal/agent/batch.go:164-170 | two sorted lists with the same elements are equal when the order tells the elements apart |
| `Reasons.ClampReason` | internal/agent/batch.go:74-83 | a reason of the closed list is kept and any other becomes unclassified |
| `Verdicts.ParseEventResults` | internal/agent/batch.go:255-301 | one result per event in batch order: the last well-formed verdict that names it, or unknown with the reason the code picks |
| `Verdicts.CollectVerdicts` | internal/agent/batch.go:256-276 | after the lines are read, the map holds exactly the last verdict of each event of the batch |
| `Verdicts.LastVerdictIsLast` | internal/agent/batch.go:256-276 | the verdict used is that of the last line that names the event |
| `Verdicts.ResultsAreComplete` | internal/agent/batch.go:277-301 | every result is about its event, and an unknown one has a reason from the closed list and a non-empty transcript |
| `Verdicts.SummaryBuilder.AppendAgentMessageChunk` | internal/agent/backend_acp.go:587-595 | a newline goes in front of every non-empty chunk when the builder is not empty; an empty chunk changes nothing |
| `Verdicts.SummaryLines` | internal/agent/backend_acp.go:587-595 | the lines of the accumulated summary are the lines of the chunks, in order |
| `Verdicts.ReportRoundTrip` | internal/agent/batch.go:244-253 | a verdict printed in the format the prompt asks for parses back to the same verdict |
| `Verdicts.WholeReportRoundTrip` | internal/agent/batch.go:244-301 | a whole report of distinct events, in any order, parses back to every verdict it prints |
| `Splitting.SplitByViolationPaths` | internal/agent/coordinator.go:800-837 | the suspect part is the events whose verdict integrated a violating page, in order, and the rest is the other; nothing is split when one part is empty |
| `Splitting.PartitionBatch` | internal/agent/coordinator.go:812-830 | the two parts are the events that pass and fail the test, each in batch order |
| `Splitting.ClassifyAndSplit` | internal/agent/coordinator.go:788-798 | a single event or a batch at depth 2 is not split; violations decide first, bisection otherwise |
| `Splitting.BlindBisect` | internal/agent/coordinator.go:839-848 | the halves are the events before and from the middle, one deeper |
| `Splitting.RetriesShareOut` | internal/agent/coordinator.go:788-848 | whatever splits a batch, the parts are two, non-empty, one deeper, and share out exactly its events |
| `Splitting.BisectionHalves` | internal/agent/coordinator.go:839-848 | the halves differ in size by at most one and concatenate to the batch |
| `Splitting.SharedSizes` | internal/agent/coordinator.go:800-837 | either part of a shared-out batch is strictly smaller than it |
| `Schedule.EventsConserved` | internal/agent/coordinator.go:515-633 | at every point of a flush the events it started with are, as a multiset, those of finished, dropped and not-yet-run batches, splits included |
| `Schedule.SevenAttemptsPerBatch` | internal/agent/coordinator.go:515-633 | a flush makes at most 7 attempts per batch it formed (weights 7, 3, 1 by depth) |
| `Schedule.AttemptsSplitInTwo` | internal/agent/coordinator.go:515-633 | attempts are successes plus failures |
| `Schedule.TotalsAddUp` | internal/agent/coordinator.go:515-633 | integrated, skipped, failed and unknown events add up to the events of finished batches |
| `Breaker.InvAlways` | internal/agent/coordinator.go:658-699 | the breaker invariant holds over every interleaving of notifies, resets, flush starts, batches, flush ends and scheduling |
| `Breaker.BreakerBound` | internal/agent/coordinator.go:658-699 | since the last adjudicated outcome, all-unknown batches are at most 3 plus the recovery steps; the reason counts sum to the unknown results; at most 3 transcripts; no batch runs while suspended |
| `Breaker.TrippedMeansQuiet` | internal/agent/coordinator.go:473-484 | once tripped with no recovery step since, no batch runs and no automatic flush starts |
| `Breaker.StopRecordSurvives` | internal/agent/coordinator.go:281-321 | the stop record is removed only by a notify, a reset or an explicit flush |
| `Poison.PoisonIsBounded` | internal/agent/coordinator.go:788-856 | with nothing interrupted, every event succeeds or fails, and at most max(5, ceil(M/4)) events fail per poison event |
| `Poison.PoisonFails` | internal/agent/coordinator.go:788-856 | every poison event is among the failed ones |
| `Poison.AttemptIsolates` | internal/agent/coordinator.go:788-848 | the halves of a failed batch hold its poison; a batch that fails for good is small and holds poison |
| `Poison.FormedBatches` | internal/agent/batch.go:156-194 | the batches formed from pending events hold exactly them, at depth 0 and in size |
| `Flushing.TalliesNext` | internal/agent/coordinator.go:515-633 | the counters after one more attempt are those of the longer history |
| `Flushing.HistoryGoesOn` | internal/agent/coordinator.go:515-633 | an attempt that does not stop the flush leaves it at the loop head with its retries in front of the rest |
| `Flushing.HistoryEnds` | internal/agent/coordinator.go:544-627 | an attempt that stops the flush ends it with the reason of the branch taken |
| `Coordinator.BatchCoordinator.constructor` | internal/agent/coordinator.go:244-274 | a new coordinator is neither suspended nor deferring, with an empty streak |
| `Coordinator.BatchCoordinator.NotifyNewEvent` | internal/agent/coordinator.go:281-288 | the event is pending again and the suspension and stop record are lifted |
| `Coordinator.BatchCoordinator.ResetEvent` | internal/agent/coordinator.go:297-321 | only an unknown or failed event is reset; it is then pending in log and memory and the suspension is lifted |
| `Coordinator.BatchCoordinator.ConfirmEvent` | internal/agent/coordinator.go:323-340 | only an unknown event is confirmed; it becomes integrated |
| `Coordinator.BatchCoordinator.RecordStatusWriteFailure` | internal/agent/coordinator.go:772-779 | the third failure of an event defers it |
| `Coordinator.BatchCoordinator.ClearStatusWriteFailure` | internal/agent/coordinator.go:781-786 | a success forgets the failures and the deferral of that event alone |
| `Coordinator.BatchCoordinator.PersistEventStatuses` | internal/agent/coordinator.go:741-770 | every verdict of a success is posted in order, each failure counted and each success cleared |
| `Coordinator.BatchCoordinator.PersistBatchFailure` | internal/agent/coordinator.go:604-613 | every event of a batch that failed for good is posted as failed, with the failure reason |
| `Coordinator.BatchCoordinator.RecordBatchOutcomes` | internal/agent/coordinator.go:658-699 | the streak, its reasons and its transcripts move as the breaker says, and the result tells whether it tripped |
| `Coordinator.BatchCoordinator.RecordOuterError` | internal/agent/coordinator.go:727-733 | the count of consecutive errors goes up by one |
| `Coordinator.BatchCoordinator.InsertBatches` | internal/agent/coordinator.go:850-856 | the retries stand right behind the tried batch, the rest behind them |
| `Coordinator.BatchCoordinator.FinishAttempt` | internal/agent/coordinator.go:542-629 | after an outcome of any kind, result, log, breaker, error count, retries and stop reason are those the history prescribes |
| `Coordinator.BatchCoordinator.RunNext` | internal/agent/coordinator.go:517-629 | one round of the loop makes the history one attempt longer, and either ends the flush or uses up weight |
| `Coordinator.BatchCoordinator.RunBatches` | internal/agent/coordinator.go:515-633 | the loop over the growing work list terminates and is a history of genuine attempts; counters, log, breaker and stop reason are those of that history |
| `Coordinator.BatchCoordinator.PrepareFlush` | internal/agent/coordinator.go:486-510 | pending events are listed, write failures of others forgotten, deferred events left out |
| `Coordinator.BatchCoordinator.Flush` | internal/agent/coordinator.go:473-633 | a flush that may not start changes nothing; any other is a history on the batches formed from the actionable events |
| `Coordinator.BatchCoordinator.ScheduleNext` | internal/agent/coordinator.go:430-460 | a flush that stopped on the error limit, the store or the streak suspends; the timer is set again exactly when not suspended and more events are pending than deferred or they cannot be counted |
| `Deferral.DeferredIsLeftAlone` | internal/agent/coordinator.go:473-633 | over any run of flushes, notifies, resets and confirms, an event that is deferred and still pending stays so, and no batch ever holds it |
| `Deferral.NeverTried` | internal/agent/coordinator.go:497-515 | no batch of a flush holds an event that was deferred and pending when it started |
| `FlushLaws.FlushBalances` | internal/agent/coordinator.go:473-633 | for any flush: conservation after every attempt, at most 7 attempts per batch, attempted = succeeded + failed, and the four event totals add up to the finished events |
| `FlushLaws.PoisonFlushIsBounded` | internal/agent/coordinator.go:473-633 | an uninterrupted flush against a poisoned backend runs to completion and fails at most max(5, ceil(M/4)) events per poison event |
| `FlushLaws.PoisonFlushSettles` | internal/agent/coordinator.go:473-633 | after it every actionable event is terminal in the store, and every poison event is failed |
| `Store.PendingEventStore.New` | internal/agent/store.go:114-168 | a store opens, bootstraps or is refused exactly as the file, the events and the epoch say |
| `Store.PendingEventStore.BootstrapWithEvents` | internal/agent/store.go:191-255 | the bootstrap writes a header and one row per older event, and only if no status file is there |
| `Store.PendingEventStore.LoadStatusLog` | internal/agent/store.go:257-294 | the terminal map is the replay of the valid lines; a log with no valid line or too many bad ones is refused and nothing changes |
| `Store.PendingEventStore.ReconcilePending` | internal/agent/store.go:332-352 | known and pending are rebuilt from the snapshot and the events that were pending are carried over |
| `Store.PendingEventStore.ListPendingEvents` | internal/agent/store.go:354-381 | what is listed is the part of the snapshot that has not ended, in the order of the snapshot |
| `Store.PendingEventStore.NotifyAppended` | internal/agent/store.go:394-403 | the event is known and pending and has no outcome |
| `Store.PendingEventStore.WriteStatuses` | internal/agent/store.go:409-457 | memory follows the log only when the whole append succeeded; unknown rows are clamped to the closed list first |
| `Store.PendingEventStore.WriteTombstone` | internal/agent/store.go:459-479 | a reset that reached the log makes the event pending |
| `Store.PendingEventStore.GetEventStatus` | internal/agent/store.go:510-524 | not found, pending or the outcome |
| `Store.PendingEventStore.RecoverFromCrash` | internal/agent/store.go:528-585 | exactly the pending events that the wiki names are recovered, each once and in sorted order; a failed walk changes nothing |
| `Store.PendingEventStore.Counts` | internal/agent/store.go:613-633 | the counters are the sizes of the sets of known events by status |
| `Store.PendingEventStore.UnknownByReason` | internal/agent/store.go:590-611 | the keys are in the closed list and each value is the number of unknown events filed under it |
| `StoreRuns.PartitionAlways` | internal/agent/store.go:332-479 | in every reachable state, stale snapshots and failed appends included, pending and terminal are disjoint and cover the known ids |
| `StoreRuns.OpenPartition` | internal/agent/store.go:114-168 | a store that opens starts in such a state |
| `StoreRuns.PendingUntilWritten` | internal/agent/store.go:394-457 | over any run an event leaves pending only through a successful status write that names it |
| `StoreRuns.StaleSnapshotIsSafe` | internal/agent/store.go:332-381 | reconciling with a snapshot of any age drops no pending event and revives no ended one |
| `StoreRuns.CountsAddUp` | internal/agent/store.go:613-633 | Total = Pending + Integrated + Skipped + Failed + Unknown in every partitioned state |
| `StoreRuns.ReasonsAddUp` | internal/agent/store.go:590-611 | the six reasons sum to Unknown, legacy rows included |
| `StoreRuns.AgreesAlways` | internal/agent/store.go:296-321 | over every run of orderly steps the terminal map equals the replay of the log |
| `StoreRuns.NotifyAgreesIff` | internal/agent/store.go:394-403 | a notify keeps that agreement exactly when the event had no outcome |
| `StoreRuns.FailedWriteAgreesIff` | internal/agent/store.go:481-499 | a failed write of any entries keeps it exactly when no row was cut and the rows that reached the file repeat what memory holds |
| `StoreRuns.FailedResetAgreesIff` | internal/agent/store.go:459-499 | a failed reset keeps it exactly when nothing of it reached the file, or all of it did and the event had no outcome |
| `StoreRuns.BootstrapAgrees` | internal/agent/store.go:191-255 | a fresh bootstrap file replays to the memory it was written with |
| `StoreRuns.LastRecordWins` | internal/agent/store.go:309-321 | an event has the outcome of the last valid record about it, and none after a reset |
| `StoreRuns.NoRecordNoOutcome` | internal/agent/store.go:309-321 | an event without a valid record has no outcome |
| `StoreRuns.RestartIsReconcile` | internal/agent/store.go:114-168 | reopening a log that agrees with memory is a reconciliation with the raw log |
| `StoreRuns.CrashedAppend` | internal/agent/store.go:481-499 | a restart after a crash anywhere in an append replays the old log and the records written whole |
| `StoreRuns.TornLineSwallowsNextRecord` | internal/agent/store.go:257-294 | after a torn line the next record is lost, which is why the log must end in a newline |
| `Validator.WikiValidator.constructor` | internal/agent/validator.go:29-34 | a budget that is not positive becomes one megabyte |
| `Validator.WikiValidator.CheckStaged` | internal/agent/validator.go:68-158 | the complaints and the budget share of one staged file |
| `Validator.WikiValidator.CheckProduction` | internal/agent/validator.go:179-216 | the complaint about one file of production, if it was lost |
| `Validator.WikiValidator.WalkStaging` | internal/agent/validator.go:67-161 | the walk reports exactly the complaints about staged files and sums their budget shares |
| `Validator.WikiValidator.WalkProduction` | internal/agent/validator.go:170-219 | the walk reports exactly the losses |
| `Validator.WikiValidator.Validate` | internal/agent/validator.go:52-224 | no violation is returned exactly when the staged tree is acceptable, and the violations are exactly the complaints |
| `ValidatorLaws.NothingDestroyed` | internal/agent/validator.go:170-216 | a page missing after an accepted turn is under archive/ byte for byte; an archived page is never missing |
| `ValidatorLaws.ArchivedPageNeedsTwin` | internal/agent/validator.go:96-112 | while production holds an archived page, a turn is accepted only with paired moves on, the active twin still there and the archived page staged with the bytes of that twin |
| `ValidatorLaws.MoveBlocksLaterTurns` | internal/agent/validator.go:96-133 | the tree that a moving turn leaves accepts no turn without blanket deletion, whatever that stages |
| `ValidatorLaws.NoOpTurn` | internal/agent/validator.go:67-161 | a turn that changes nothing is accepted exactly when every file of production is itself allowed |
| `ValidatorLaws.GrowthBound` | internal/agent/validator.go:146-168 | an accepted turn grows the active pages, or any part of them, by at most the budget |
| `WikiRuns.NoPageIsLost` | internal/agent/validator.go:170-216 | over any run of committed turns and index rebuilds, page names present as themselves or under archive/ only grow, and archived pages stay |
| `WikiRuns.MovedPageKeepsItsBytes` | internal/agent/validator.go:170-216 | over any run, a page that no rebuild writes and that is gone has in the archive exactly the bytes it had when it was last active |
| `WikiRuns.NoTurnAfterMove` | internal/agent/validator.go:96-133 | over any run, once a page that no rebuild writes is gone and its archived copy is there, no turn that stages a wiki is accepted again, however many rebuilds run |
| `WikiRuns.MovedIndexComesBack` | internal/agent/validator.go:96-112 | an index page that a turn archived and a rebuild wrote again opens the gate, and the next turn overwrites the archived copy |
| `WikiRuns.RebuildTouchesIndexes` | internal/storage/fs.go:400-465 | however far the five writes of a rebuild got and whatever text they left, only structural index pages differ |
| `WikiRuns.ChangeKeepsArchived` | internal/agent/validator.go:96-112 | once a page that no rebuild writes is archived and gone, neither its archived copy nor its absence changes again |
| `WikiRuns.GrowthOverRun` | internal/agent/validator.go:146-168 | n turns grow the content pages by at most n times the budget, however many rebuilds run between |
| `Commits.ProductionStore.constructor` | internal/agent/backend_acp.go:812-835 | the directories start as found |
| `Commits.ProductionStore.MergeWiki` | internal/agent/backend_acp.go:812-857 | at every step and crash point production is the complete old tree, the complete new tree, or absent with the complete old tree in the backup; each state follows by one file-system step |
| `Commits.ProductionStore.CommitStagingTurn` | internal/agent/backend_acp.go:487-510 | a turn stopped by validation or the hook, or not meant to merge, leaves every directory as it was; a merged one was accepted |
| `Commits.ProductionStore.RebuildIndex` | internal/storage/fs.go:400-465 | the five writes leave exactly the tree they should, at every point only structural index pages differ, and the error is that of the last write |
| `Ingest.RunBatchIngest` | internal/agent/backend_acp.go:168-221 | the mutex is given back on every path; success means accepted, merged and one adjudication per event; anything else reports nothing and leaves production alone |
| `Ingest.ParsedIsComplete` | internal/agent/backend_acp.go:217-220 | the results are one per event of the batch, in order, none with a foreign status |
| `WikiLock.SerialisedSwaps` | internal/agent/backend_acp.go:168-221 | in every interleaving of batch, compile, recall and recovery turns the mutex is never unlocked while free, a finished turn locked and unlocked it once, and each merge replaced exactly the tree its staging was copied from with no write between |
| `WikiLock.MergeBuildsOnLastWrite` | internal/api/handler.go:405-445 | a merge builds on the result of the write before it, whichever turn made it |
| `WikiLock.NoDeadlock` | internal/agent/backend_acp.go:183-196 | while some turn is not over some turn can go on, cancelled waiters included |
| `WikiLock.InvAlways` | internal/agent/backend_acp.go:168-221 | the lock invariant holds in every state of every run |
| `EventLog.AppendExtends` | internal/storage/fs.go:107-135 | an append extends what can be read exactly when it does not continue a whole record that lacks its newline; a successful one adds its event when the file ends in a newline and adds nothing otherwise |
| `EventLog.UnterminatedRecordIsLost` | internal/storage/fs.go:83-104 | a record written without its newline is read back until the next append makes both unreadable |
| `EventLog.FS.constructor` | internal/storage/fs.go:83-104 | memory holds the events that can be read from the file |
| `EventLog.FS.AppendEvent` | internal/storage/fs.go:107-135 | the event is in memory exactly when the write succeeded |
| `EventLog.FS.ReadEventsSince` | internal/storage/fs.go:138-152 | the page is the events from the cursor on, and its new cursor the length of the log |
| `EventLog.FS.SetCompileCursor` | internal/storage/fs.go:503-505 | a cursor that was written is read back |
| `EventLog.FS.GetCompileCursor` | internal/storage/fs.go:508-518 | a missing or unreadable file stands for the start of the log |
| `EventLog.CursorRoundTrip` | internal/storage/fs.go:503-518 | written cursors are read back; a write cut short leaves a cursor no larger than the new one |
| `EventLog.CutWriteGoesBack` | internal/storage/fs.go:503-505 | a cut write can move the cursor back |
| `Compile.Server.AppendReceipt` | internal/mcp/compile.go:17-39 | one line with nonce, start and end is appended to whatever the file ends with |
| `Compile.Server.ExecCompileReadEventsSince` | internal/mcp/compile.go:46-89 | exactly the events of the window are served, with a receipt for exactly them; without a receipt nothing is served |
| `Compile.ReadReceiptEntries` | internal/agent/backend_acp_compile.go:172-196 | the file is read exactly when every line parses |
| `Compile.ValidateCompileReceipt` | internal/agent/backend_acp_compile.go:133-167 | accepted exactly when every line parses, one line alone has the nonce of the turn and it starts at the expected cursor; the cursor is clamped |
| `Compile.StaleEntriesDoNotCount` | internal/agent/backend_acp_compile.go:139-146 | a receipt without the nonce of the turn has no entry of the turn |
| `Compile.StaleEntriesDoNotMatter` | internal/agent/backend_acp_compile.go:139-167 | the verdict on a receipt is unchanged when parsed entries of other nonces are put in or taken out anywhere |
| `Compile.BoundedReadIsExact` | internal/mcp/compile.go:58-76 | a read from the cursor serves the events up to the bound and yields the bound |
| `CompileTurn.RunCompile` | internal/agent/backend_acp_compile.go:59-127 | a cursor is yielded exactly by a merged turn and lies in its window; a turn that broke, or whose staging or receipt was rejected, leaves every directory as it was |
| `CompileTurn.HandleCompile` | internal/api/handler.go:441-467 | the cursor file is written only after a merged turn that yielded a larger cursor |
| `CompileRuns.InvAlways` | internal/agent/backend_acp_compile.go:59-167 | the cursor invariant holds over every interleaving of appends and compile turns that succeed, fail or die, while no append continues an unterminated record |
| `CompileRuns.LogGrowsIff` | internal/storage/fs.go:107-135 | move by move the readable log only grows exactly while no append continues an unterminated record |
| `CompileRuns.GapFree` | internal/agent/backend_acp_compile.go:59-167 | while no append continues an unterminated record: the cursor never passes the log, every event below it was covered by a committed turn, and a committed turn yields its bound and was served exactly its window if and only if its receipt file ended in a newline |
| `CompileRuns.WholeReceiptsServe` | internal/mcp/compile.go:17-39 | when no receipt write of the run stops right before its newline, every committed turn had a closed receipt |
| `CompileRuns.EveryEventServed` | internal/agent/backend_acp_compile.go:59-167 | then every event below the cursor was served, at its place, by a committed turn |
| `CompileRuns.LostRecordSkipsEvent` | internal/storage/fs.go:107-135 | a run with one append onto an unterminated record leaves the cursor beyond the log, and then an event below the cursor that no turn served |
| `CompileRuns.CursorNeverGoesBack` | internal/api/handler.go:441-467 | without cut cursor writes the cursor only moves forward, whatever happens to the log |
| `CompileRuns.ExactlyOnce` | internal/api/handler.go:441-467 | while no append continues an unterminated record and every committed turn persists its cursor, each event below it was covered by exactly one committed turn |
| `CompileRuns.FailedReadMovesCursor` | internal/mcp/compile.go:17-39 | a receipt write that stops right before its newline serves nothing and still moves the cursor |
| `Links.EscapeIsInvisible` | internal/okf/migration.go:665-686 | escaping never changes what a destination decodes to |
| `Links.EscapeRoundTrip` | internal/okf/validator.go:407-415 | decoding undoes escaping exactly for the texts without one of the six literal codes |
| `Links.MarkdownLinkDestination` | internal/okf/validator.go:334-363 | the part between angle brackets, or up to the first unquoted white space |
| `Links.DestinationIsUnique` | internal/okf/validator.go:334-363 | that destination is unique |
| `LinkResolution.ResolveLink` | internal/okf/validator.go:300-320 | which file, if any, a raw destination is checked against |
| `LinkResolution.HrefLeads` | internal/okf/migration.go:648-654 | from any page the relative path to a clean target leads to it, and is empty exactly when the page directory is the target |
| `Paths.JoinIsClean` | internal/okf/migration.go:647-651 | joining by components is cleaning the joined text |
| `LinkRoundTrip.LinkLeadsToFile` | internal/okf/migration.go:638-663 | from a page at any depth the href of a clean target is read back whole and leads to the target file exactly when the page directory is not that file |
| `Migration.ReplacementIsLink` | internal/okf/migration.go:555-573 | a wiki link with or without a caption is a match, and is replaced by the link made for its target and its trimmed caption |
| `Migration.WikiLinkLeadsToFile` | internal/okf/migration.go:555-573 | the replacement of a wiki link to a clean target, with or without a caption, is matched by the link check and leads to the file the target names exactly when the page directory is not that file |
| `Rewriting.ConvertTwice` | internal/okf/migration.go:555-573 | replacing matches in replaced text changes nothing |
| `Rewriting.NoNewMatch` | internal/okf/migration.go:555-573 | no replacement makes a new match with the text around it |
| `Rewriting.OnlyMatchesChange` | internal/okf/migration.go:555-573 | the text outside the matches is unchanged and in order |
| `CodeSpans.ConvertOutsideInlineCode` | internal/okf/migration.go:488-511 | the loop converts exactly the prose between code spans |
| `CodeSpans.ConvertPage` | internal/okf/migration.go:432-449 | the loop converts exactly the lines outside fences |
| `CodeSpans.CodeIsSafe` | internal/okf/migration.go:488-511 | the spans of a converted line are those of the line, code byte for byte |
| `CodeSpans.FencesAreSafe` | internal/okf/migration.go:432-449 | fence markers and fenced lines come through byte for byte |
| `CodeSpans.FenceStays` | internal/okf/migration.go:436-440 | a converted line opens or closes a fence exactly when the line does |
| `CodeSpans.LineTwice` | internal/okf/migration.go:488-511 | converting a converted line changes nothing |
| `CodeSpans.BodyTwice` | internal/okf/migration.go:432-449 | converting a converted page changes nothing |
| `Migration.ConvertWikiLinks` | internal/okf/migration.go:432-449 | the page with every match outside code replaced by its link |
| `Migration.ReplacementIsTame` | internal/okf/migration.go:555-573 | a match stays as it is or becomes a link whose text and destination hold no bracket, backtick or newline |
| `Migration.ConversionIsIdempotent` | internal/okf/migration.go:432-449 | convertWikiLinks applied twice is convertWikiLinks applied once, for every page |
| `Migration.ConversionIsCodeSafe` | internal/okf/migration.go:432-511 | line by line, fences and inline code come through byte for byte and only prose is converted |

## Left out

- The ACP subprocess, its JSON-RPC framing, pipes, timers, wall-clock values, progress logs and status pages.
- HTTP handlers other than compile and the order of append and notify; admin tokens, environment, CLI and the plugin.
- LLM backends, retry, redaction, prompts, MCP dispatch, `internal/repo`, the runner and health derivation.
- JSON and YAML encoding, `fsync` and directory walking: a log is a sequence of complete, bad or torn lines, a tree a map from paths to contents.
- Files and directories of the same name, symbolic links and unreadable files; read errors other than a missing file.
- SHA-256 is an arbitrary function from text to text, so the id laws hold for any digest.
- Strings are sequences of Unicode scalars; invalid UTF-8 is not modelled, and `len` is the UTF-8 length.
- `strings.Title` and `strings.ToLower` change ASCII letters only.
- Walk order: the violations of one file are together, but files come in any order.
- `normalizeMarkdownLinks` and page migration as a whole; `RebuildIndex` text (it is any change of the structural index pages).
- `validateLinks` as a loop over a page with code stripped: one link is modelled, from its text to the file it is checked against.
- `isRepoSourceAnchor` is any test that only accepts links with a colon.
- The root directory of a bundle is taken to be non-empty text.
- Process-crash recovery of a `.backup` tree at the next start, which the code does not attempt.
- Coordinator.BatchCoordinator.Flush: is not interleaved with notifies and resets; those interleavings are in `Breaker` and `StoreRuns`.
- Batching.FormBatches: the panic on limits that are not positive is a precondition.
- Store.PendingEventStore.GetEventStatus: the raw log is a set of ids that can always be read.
- Ingest.RunBatchIngest: the wait for the mutex and its helper are in `WikiLock`; here the mutex is free when it is taken.
- CompileTurn.HandleCompile: runs without appends in between; those interleavings are in `CompileRuns`.
- CompileRuns.GapFree: for runs in which no append continues a whole record that lacks its newline (`CompileRuns.LostRecordSkipsEvent` shows what happens otherwise), and nonces that no older receipt has.
- WikiRuns.MovedPageKeepsItsBytes: for pages other than the structural index pages (`WikiRuns.MovedIndexComesBack` shows what happens to those).
- Deferral.DeferredIsLeftAlone: for flushes whose snapshot holds the event and whose verdicts are about events of the batch, as the append-only log and `Ingest.RunBatchIngest` provide.
- FlushLaws.PoisonFlushSettles: for pending events with distinct non-empty ids, which the event log assigns.
- LinkRoundTrip.LinkLeadsToFile: for paths without `#`, `?`, `:`, literal escape codes and white space other than the plain space, under a directory of the bundle.
- Migration.ConversionIsIdempotent: for pages at a path below the root that does not climb, as the walk over a bundle gives.
