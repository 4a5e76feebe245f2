# Spock, modelled and verified

Spock is multi-master logical replication for PostgreSQL. This project models the apply worker, the
publisher's output plugin and the protocols between them, and proves what they keep over whole runs.

| file | component |
|---|---|
| `Wal.dfy` | the publisher's stream of committed transactions |
| `SlotGroup.dfy` | parallel slot groups: several walsenders claim transactions, several apply workers commit them in order |
| `Progress.dfy` | the shared progress registry: merging, forcing, dumping and loading |
| `RowConflict.dfy` | applying one row change: conflict resolution and delta columns |
| `Convergence.dfy` | every delivery order of full-row changes ends in the same row |
| `TwoNode.dfy` | two nodes that write concurrently and exchange their writes |
| `ApplyExceptions.dfy` | one transaction through any failure pattern: plain pass, try-mode replays, restarts |
| `TransactionStream.dfy` | streams of transactions: what each leaves for the next, over failures, restarts and disabled subscriptions |
| `ReplayQueue.dfy` | the replay queue: a list in memory and a file of length-prefixed records as one FIFO |
| `TableSync.dfy` | handing a table from its copy through the sync worker to the main apply worker |
| `FlushFeedback.dfy` | which positions are reported back to the publisher |
| `Dependency.dfy` | the dependency walk behind DROP ... RESTRICT / CASCADE |
| `Dedup.dfy` | in-place elimination of duplicate dependency references |
| `StandbyConfirmation.dfy` | holding WAL back until enough standby slots have flushed it |
| `RelMetaCache.dfy` | which relation descriptions the subscriber already has |

## How the model is built

- Object state that the C code updates in place is a class; its methods are proved against functions of
  the old state. Loops over arrays and lists are loops.
- Protocols are state machines. A run is any sequence of attempted steps, a step that is not enabled does
  nothing, and every theorem about runs quantifies over all such sequences. So all interleavings are
  covered.
- LSNs and timestamps are integers. Fixed-width arithmetic is written out where it matters: delta columns
  (`Fits`), the 32-bit record header (`Le32`, `FromLe32`) and the unsigned comparison of sub-object numbers
  (`Unsigned`).
- What the code asks of its surroundings is a parameter: where errors and lost connections strike
  (`Attempt`), how many bytes the disk takes (`accepted`), the local flush position, hash iteration order
  (`order`), what the library sort leaves (`sorted`), what each poll of the replication slots finds
  (`polls`), and when invalidations arrive (`reading`, `writing`, `later`).
- Assumed of the stream: commit records occupy disjoint increasing intervals `[commitLsn, endLsn)`. A
  keepalive never passes the start of the commit record of a transaction that is still to come
  (`TableSync.Enabled`), and any position received lies before the end of such a transaction
  (`FlushFeedback.Feedback.TrackCommit`). A COMMIT message carries an insert position of the publisher at
  or past the end of its transaction (`SlotGroup.AllAnnounced`).
- Assertions of the C code are not assumed where the code can be reached without them: a replay may be
  restarted while replay mode is still on, against the assertion at `src/spock_apply.c:4801`.

## Properties that hold only under a condition

Each of these is proved as an equivalence, with the failing side shown by a run or an input.

- **Commit order of a slot group** holds in every interleaving exactly when commit timestamps are positive
  and strictly increase with LSN (`SlotGroup.CommitOrderKeptExactlyWhen`, `DisorderBreaksCommitOrder`).
- **Two nodes agree** after every full exchange exactly when their tiebreakers differ
  (`TwoNode.AgreementExactlyWhen`); with equal ones they swap values (`EqualTiebreakersSwap`).
- **A dumped registry reloads** to the same map exactly when the new table is large enough and each record
  has a positive commit timestamp or no commit block (`Progress.SnapshotRoundTrip`).
- **A replay returns everything** exactly when no record was cut short and none exceeds the allocator's
  limit (`ReplayQueue.ReplayIsFifo`).
- **A delivery on which nothing fails applies the transaction** exactly when BEGIN does not enter try mode,
  or the mode is DISCARD, or there is nothing to apply
  (`ApplyExceptions.CleanAttemptAppliesAllExactlyWhen`). BEGIN enters try mode whenever the exception-log
  slot still carries the transaction's commit LSN, and an exit on a lost connection leaves it there. So a
  connection lost in mid-transaction (`PlainPassExitsExactlyWhen`) makes TRANSDISCARD drop the transaction
  when it is sent again (`LostConnectionDiscardsTransaction`). The comment at `src/spock_apply.c:3652-3696` and the release notes
  (`docs/spock_release_notes.md:427-435`) say the re-throw prevents this; the model follows the code.
- **SUB_DISABLE disables the subscription** exactly when the disable is not made inside the open local
  transaction (`ApplyExceptions.DisabledExactlyWhen`): `spock_disable_subscription` commits only a
  transaction it began itself, and the exit that follows rolls an open one back. A transaction whose first
  relation is missing, with the buffer running empty right after, is sent again for ever
  (`MissingRelationNeverDisables`). The comment at `src/spock_apply.c:3714-3715` says the function takes care
  of this itself; its own header, `src/spock_exception_handler.c:225-229`, says the caller must.
- **A transaction delivered cleanly is applied in full, whatever came before it in the stream**, exactly when it
  is not the one before it sent again to a new worker process whose exception-log entry still carries it, or
  the mode is DISCARD, or there is nothing to apply (`TransactionStream.CleanItemAppliesExactlyWhen`). So a
  transaction sent again after SUB_DISABLE disabled the subscription and it was enabled again is applied
  exactly when the disabling error had not struck before its first change had begun
  (`ResentAfterDisableExactlyWhen`); in that case it disables the subscription once more although nothing
  fails, and only the delivery after that applies it (`SecondResendApplies`). The comment at
  `src/spock_apply.c:877-881` promises it for the first.
- **The origin passes a transaction** exactly when it commits and has no changes or its local commit wrote
  something (`ApplyExceptions.RunOutcome`). A transaction discarded with logging off, or one whose changes all
  belong to tables being synchronised, commits without moving the origin.
- **Nothing is lost** under DISCARD and TRANSDISCARD exactly when no relation was missing, whose entry holds no
  row, and exception logging is on or nothing was left unapplied (`ApplyExceptions.NothingLostExactlyWhen`).
- **A spilled record cut short leads to a clean restart**, as the comment at `src/spock_apply.c:4532-4538`
  promises, exactly when no change before it has set the exception flag in that replay
  (`ApplyExceptions.TornRecordExitsExactlyWhen`); otherwise the queue is replayed again, without end if a
  change fails each time (`TornRecordReplaysForever`).
- **A flushed commit is reported as flushed** exactly when others are still outstanding or the received
  position has reached its end (`FlushFeedback.Feedback.SendFeedback`): once the list is empty the received
  position is reported instead.
- **The standby shortcut lets nothing through too early** after a scan exactly when no named slot reports
  position 0, or the last one scanned does, or enough are past the least position scanned after the last 0
  (`StandbyConfirmation.ShortcutSafeExactlyWhen`), because 0 also stands for "none yet" in the scan. In
  every other case the next call releases too early (`HarmfulScanReleasesEarly`).
- **A row change is preceded by a description newer than every invalidation before its schema check** exactly
  when no whole-cache invalidation has overtaken that description (`RelMetaCache.Cache.Change`), that is,
  none arrived while the entry was valid and cached (`OvertakenStep`). The callback looks the invalid OID up
  like any other and marks nothing, unlike those at `src/spock_relcache.c:329-351` and
  `src/spock_repset.c:226-242`; `WholeInvalidationMissed` gives the row that goes out uncovered.
- **RESTRICT refuses** only with quiet mode off (`Dependency.TryDropDependencies`). The comment at
  `src/spock_dependency.c:710-711` describes quiet mode as less output only; the early return also skips
  the refusal.

## Model

| member | source | states |
|---|---|---|
| SlotGroup.OutputPlugin.DecodeBegin | src/spock_output_plugin.c:519-582 | a transaction is claimed by the first member to reach it; later ones skip it; the predecessor's timestamp is saved when the group moves on |
| SlotGroup.OutputPlugin.DecodeCommit | src/spock_output_plugin.c:646-678 | exactly the claimed transactions are sent, and the skip flag never outlives its transaction |
| SlotGroup.DecodeClaimsOnlyTheNext | src/spock_output_plugin.c:534-582 | BEGIN claims a transaction exactly when it is the first unclaimed one |
| SlotGroup.OnlyTheNextMayProceed | src/spock_apply.c:286-330 | in a reachable state a worker passes the commit-order wait only with the next transaction of the publisher's order |
| SlotGroup.StepKeepsInv | src/spock_apply.c:1025-1057 | claims, deliveries, commits, publications and statistics in any order keep the protocol invariant |
| SlotGroup.ReachableIsGood | src/spock_apply.c:286-330 | the invariant holds after every schedule |
| SlotGroup.ClaimedOnceCommittedInOrder | src/spock_output_plugin.c:534-582 | in every interleaving each decoded transaction is claimed exactly once and the subscriber has committed a prefix of the publisher's order |
| SlotGroup.LeastUncommittedIsAtHead | src/spock_apply.c:286-330 | the least claimed but uncommitted transaction is at the head of its stream, and its wait is over or about to be |
| SlotGroup.GroupNeverBlocks | src/spock_apply.c:286-330 | until everything claimed is committed and published some apply step is enabled, and each apply step does one unit of the remaining work |
| SlotGroup.DisorderBreaksCommitOrder | src/spock_output_plugin.c:545-549 | for any stream whose timestamps are not ordered, a schedule that commits out of order |
| SlotGroup.CommitOrderKeptExactlyWhen | src/spock_output_plugin.c:534-582 | commit order holds in every interleaving if and only if timestamps are positive and strictly increase with LSN |
| SlotGroup.EntryStaysBounded | src/spock_apply.c:1025-1057 | in every interleaving the entry's insert and received LSN stay at or above its commit LSN, although a commit update only copies the entry's own insert LSN |
| SlotGroup.StepPublishesNewest | src/spock_apply.c:1025-1057 | each step keeps the entry at the newest published transaction, and a publication stamps the time of the update |
| SlotGroup.EntryTellsNewest | src/spock_apply.c:1025-1057 | in every interleaving of a stream with ordered timestamps the entry carries the end and the timestamp of the newest published transaction, and a received LSN at or past that end |
| Progress.ProgressUpdateStruct | src/spock_group.c:266-320 | the field-by-field update is the merge |
| Progress.MergeAllSummarises | src/spock_group.c:266-320 | after any updates the entry holds the commit block of the latest timestamp and the maxima of both LSNs |
| Progress.MergeDependsOnlyOnSet | src/spock_group.c:266-320 | the entry depends only on the set of updates, not on order or repetition |
| Progress.LsnsNeverDecrease | src/spock_group.c:266-320 | no LSN in the entry falls when commit LSNs rise with timestamps |
| Progress.BoundsHoldOverRuns | src/spock_group.c:266-320 | insert and received LSN stay at or above the commit LSN over any mix of updates whose own commit block is bounded and forced entries; that the apply workers' updates keep the bound is `SlotGroup.EntryStaysBounded` |
| Progress.SnapshotRoundTrip | src/spock_group.c:470-661 | loading a dump restores the map for any iteration order if and only if it fits and every record is restorable |
| Progress.Registry.ProgressUpdate | src/spock_group.c:331-395 | the named entry is merged or created, unless the table is full, and no other entry changes |
| Progress.UpdatesMergePerKey | src/spock_group.c:331-395 | after any sequence of updates that fits the table an entry exists for exactly the keys updated, and each is the merge of the updates to its own key |
| Progress.Registry.ForceSetOne | src/spock_group.c:711-783 | the commit block is the given one, each of insert and received LSN is the larger of the given one and the commit LSN, and no other entry changes |
| Progress.Registry.ResourceDump | src/spock_group.c:470-569 | the file holds header and every entry in iteration order |
| Progress.Registry.ResourceLoad | src/spock_group.c:578-661 | a foreign file is ignored, a short one is an error, any other is merged entry by entry |
| Progress.Restart | src/spock_group.c:470-661 | dump and load across a restart restore the registry if and only if it fits and every record is restorable |
| RowConflict.ConflictResolveByTimestamp | src/spock_conflict.c:98-200 | later timestamp wins (or loses, for first-update-wins); on a tie the same origin wins, otherwise the lower tiebreaker |
| RowConflict.BuildDeltaTuple | src/spock_apply_heap.c:511-580 | each delta column becomes local + (new - old), or the new value when the old one is null; an overflow is an error |
| RowConflict.SlotModifyData | src/spock_apply_heap.c:337-384 | a mapped column that the change sends holds the new value or null, every other one its old cell |
| RowConflict.StoreDeltas | src/spock_apply_heap.c:299-323 | the rebuilt row carries deltas in delta columns and the current values elsewhere |
| RowConflict.HandleConflictAndApply | src/spock_apply_heap.c:588-790 | for any change, full or partial: when the remote row wins an ordinary mapped column holds the new value if sent and the local one otherwise; when it loses every ordinary one is the local one; counters move either way; timestamp and origin are the winner's; an error exactly when the resolver raises one or a counter overflows |
| RowConflict.ApplyChangeWrites | src/spock_apply_heap.c:588-790 | the same of the specification, column by column |
| Convergence.DeliverMerges | src/spock_apply_heap.c:637-779 | any delivery succeeds within range and leaves the winner's ordinary columns and start plus all differences in each counter |
| Convergence.DeliveryOrderIrrelevant | src/spock_apply_heap.c:637-779 | any two delivery orders of the same changes succeed and end in the same row |
| Convergence.NextDeltaFits | src/spock_functions.c:3436-3470 | no intermediate counter overflows when start and the sum of absolute differences fit |
| Convergence.InsertIsFullRow | src/spock_apply_heap.c:816-830 | an INSERT that meets an existing row is one of these changes, adding its whole value to each counter |
| TwoNode.DecisionIsPreference | src/spock_conflict.c:98-200 | each node's decision is the order by timestamp, then lower tiebreaker, of the two latest writes |
| TwoNode.StepKeepsInv | src/spock_conflict.c:98-200 | a local write or a delivery keeps each node at the preferred write it knows of |
| TwoNode.TwoNodesAgree | src/spock_conflict.c:98-200 | after a full exchange both nodes hold the greatest write by (timestamp, lower tiebreaker) and the same counters |
| TwoNode.EqualTiebreakersSwap | src/spock_conflict.c:98-200 | with equal tiebreakers a run after which the nodes disagree |
| TwoNode.AgreementExactlyWhen | src/spock_conflict.c:98-200 | every full exchange ends in agreement if and only if the tiebreakers differ |
| ApplyExceptions.ApplyWorker.HandleBegin | src/spock_apply.c:566-785 | try mode is entered exactly when the exception-log slot carries this commit LSN at the first BEGIN, or was on already |
| ApplyExceptions.ApplyWorker.HandleRow | src/spock_apply.c:1379-1562 | what a row change does in each mode to the open transaction, the log, the exception flag and the flow |
| ApplyExceptions.ApplyWorker.LogException | src/spock_apply.c:338-363 | an entry is written exactly when the logging setting asks for it, without a row when the relation is missing |
| ApplyExceptions.ApplyWorker.CommitMessage | src/spock_apply.c:790-1134 | what COMMIT makes durable, which origin position it records and whether it is recorded at all, when it clears the slot and when it raises |
| ApplyExceptions.ApplyWorker.CommitLocally | src/spock_apply.c:937-940 | rows and log entries become durable; the origin moves exactly when the transaction has an id |
| ApplyExceptions.ApplyWorker.DisableSubscription | src/spock_exception_handler.c:231-277 | the subscription ends up disabled, with an entry in the exception log, exactly when no local transaction is open |
| ApplyExceptions.ApplyWorker.CatchError | src/spock_apply.c:3648-3833 | exit, disable, a disable that is rolled back, or replay, and an aborted local transaction in each case |
| ApplyExceptions.ApplyWorker.Apply | src/spock_apply.c:3648-3833 | the delivery loop ends in the specified outcome, with the worker as `TransactionStream.SlotAfterRun` describes it for the next transaction |
| ApplyExceptions.AttemptOutcome | src/spock_apply.c:790-1134 | one delivery commits the specified rows, logged rows and blank entries and moves the origin exactly when there are no changes or the commit wrote something, or it applies nothing and leaves the origin short of the transaction |
| ApplyExceptions.WroteExactlyWhen | src/spock_apply.c:993-1000 | the local transaction gets an id exactly when some change takes one or leaves a log entry |
| ApplyExceptions.LiveLists | src/spock_apply.c:369-390 | the live changes are exactly those not skipped for synchronisation, each once and in order |
| ApplyExceptions.SurvivorsList | src/spock_apply.c:1379-1562 | the survivors are exactly those of them whose operation succeeds, in order |
| ApplyExceptions.CasualtiesList | src/spock_apply.c:1379-1562 | the casualties are exactly those whose operation fails, in order |
| ApplyExceptions.FoundLists | src/spock_apply.c:1379-1562 | the changes logged in a read-only pass are exactly those whose relation is found, in order |
| ApplyExceptions.RunOutcome | src/spock_apply.c:3648-3833 | over any failure pattern: all changes after a plain pass, survivors in order for DISCARD, none for TRANSDISCARD, no commit for SUB_DISABLE; the origin passes the transaction if and only if it commits and has no changes or wrote something |
| ApplyExceptions.NothingLostExactlyWhen | src/spock_apply.c:338-363 | over any run that commits, the row of every change is in the table or in the exception log, none in both, if and only if no relation was missing and logging is on or nothing was left unapplied |
| ApplyExceptions.DisabledExactlyWhen | src/spock_apply.c:3717-3733 | a SUB_DISABLE attempt ends disabled if and only if it runs in try mode and either walks the whole transaction and commits its log entries, or breaks before any change has begun |
| ApplyExceptions.SubDisableLeaves | src/spock_apply.c:877-968 | the whole database after a SUB_DISABLE attempt: unchanged, or the row of every change and an entry for every missing relation in the exception log, the origin at the start of the commit record so that the transaction is sent again, and an entry for the disabling |
| ApplyExceptions.MissingRelationNeverDisables | src/spock_apply.c:3584-3609 | a missing first relation found when the buffer runs empty never disables, however often the transaction is sent |
| ApplyExceptions.CleanAttemptAppliesAllExactlyWhen | src/spock_apply.c:730-757 | a delivery without failures applies everything if and only if BEGIN stays out of try mode, or the mode is DISCARD, or there is nothing to apply |
| ApplyExceptions.PlainFailureLeadsToTryMode | src/spock_apply.c:730-757 | any error on a plain pass makes the next attempt a try-mode one, unless the server is restarted in between |
| ApplyExceptions.LostConnectionDiscardsTransaction | src/spock_apply.c:3688-3699 | whenever a plain pass exits, TRANSDISCARD drops the transaction on its next delivery, although nothing fails on it; the origin passes it exactly when logging is on and there was something to apply |
| ApplyExceptions.PlainPassExitsExactlyWhen | src/spock_apply.c:3688-3699 | a plain pass exits if and only if the first change that does not go through breaks on a lost connection, or all go through and the commit fails with the connection down |
| ApplyExceptions.TornRecordExitsExactlyWhen | src/spock_apply.c:3746-3753 | a replay that meets a record cut short leads to an exit if and only if no change before it has set the exception flag |
| ApplyExceptions.TornRecordReplaysForever | src/spock_apply.c:3760-3832 | with a change that fails on every replay the worker replays the queue again, however often |
| TransactionStream.CommittedLeavesTryMode | src/spock_apply.c:1126-1129 | once an attempt has committed, the next transaction, whatever its commit LSN, is not met in try mode |
| TransactionStream.SlotAfterAttempt | src/spock_apply.c:900-962 | an attempt leaves the exception-log entry at the transaction's commit LSN, or reset, exactly when a try-mode pass of TRANSDISCARD or SUB_DISABLE reaches the commit and no relation was missing or, for SUB_DISABLE, the commit succeeds |
| TransactionStream.NextAttemptTriesExactlyWhen | src/spock_apply.c:730-757 | after an attempt that did not commit, the next delivery is met in try mode if and only if the entry was not reset and the server not restarted |
| TransactionStream.SlotAfterRun | src/spock_apply.c:1126-1129 | the same after any number of attempts; a committed run leaves try mode off |
| TransactionStream.EntersTryModeExactlyWhen | src/spock_apply.c:730-757 | in any stream, the first delivery of a transaction is met in try mode if and only if it is the previous one sent again to a new process of the same server run and that one had not reset the entry |
| TransactionStream.CleanItemAppliesExactlyWhen | src/spock_apply.c:566-785 | in any stream, a clean delivery adds exactly the transaction's live changes to the tables if and only if it is not such a repeat, or the mode is DISCARD, or there is nothing to apply |
| TransactionStream.StreamApplies | src/spock_apply.c:566-1134 | over a whole stream with any failures and restarts the tables gain, transaction by transaction, all live changes of each one delivered cleanly and the due part of each other one |
| TransactionStream.ApplyStream | src/spock_apply.c:566-1134 | the worker's tables after a stream are those |
| TransactionStream.ResentAfterDisableExactlyWhen | src/spock_apply.c:730-757 | sent again cleanly after SUB_DISABLE disabled the subscription and it was enabled again, a transaction is applied in full if and only if the disabling error had not struck before the first change had begun, or there is nothing to apply |
| TransactionStream.SecondResendApplies | src/spock_apply.c:3717-3733 | in the failing case the clean delivery disables once more, and the next one after that applies everything |
| ReplayQueue.HeaderRoundTrip | src/spock_apply.c:4540-4562 | a length header reads back as the length written |
| ReplayQueue.ParseOnDisk | src/spock_apply.c:4551-4600 | on a file of records, the last perhaps cut short, reading at a record start yields exactly that record, or an error when it is incomplete or too long |
| ReplayQueue.ReplayIsFifo | src/spock_apply.c:4648-4690 | a replay yields everything appended, in order, if and only if no record is cut short or too long; otherwise everything before the first such record and then an error |
| ReplayQueue.Spill.WriteEntry | src/spock_apply.c:4525-4542 | a record is added whole, or counted but cut short when the write fails part-way |
| ReplayQueue.Spill.ReadEntry | src/spock_apply.c:4551-4600 | the next record, or an error exactly when it is cut short or too long |
| ReplayQueue.Queue.Append | src/spock_apply.c:4707-4790 | the message joins the end of the queue wherever it is stored; the queue turns to the file exactly when the bytes in memory would pass the limit |
| ReplayQueue.Queue.StartReplay | src/spock_apply.c:4798-4822 | from any state, also in mid-replay or after an error, the next message is the first again and nothing is lost |
| ReplayQueue.Queue.NextEntry | src/spock_apply.c:4648-4690 | the next message in order; replay mode ends exactly when all were returned |
| ReplayQueue.Queue.Reset | src/spock_apply.c:4610-4638 | the queue is empty and ready for appends |
| ReplayQueue.Queue.Replay | src/spock_apply.c:4648-4690 | a whole replay, the first or a later one, returns what the FIFO demands; after one without error appends may follow |
| TableSync.ShouldApplyChangesForRel | src/spock_apply.c:369-390 | a change is applied exactly when no entry for its table holds it back |
| TableSync.SyncSideCoversMain | src/spock_sync.c:1932-1973 | the sync worker stops no earlier than the main worker's position |
| TableSync.MainTakesTheRest | src/spock_apply.c:369-390 | the main worker takes exactly the transactions whose commit record starts at or after that point |
| TableSync.ReadyMeansPassed | src/spock_apply.c:4237-4252 | a table becomes READY only when the main worker has passed everything the sync worker applied |
| TableSync.StepKeepsTable | src/spock_apply.c:4132-4271 | every step of copy, catch-up and main apply keeps the table at the touching transactions of a stream prefix |
| TableSync.ExactlyOnce | src/spock_apply.c:4132-4271 | on every schedule no transaction is held twice, out of order or wrongly, and once handed over none is missing |
| TableSync.CatchupNeverStuck | src/spock_apply.c:1062-1090 | while the main worker waits, the sync worker has a transaction left or may stop |
| TableSync.ProcessMovesOn | src/spock_apply.c:4192-4252 | a waiting table moves to CATCHUP at the first pass at which the main worker has reached the sync worker's start, and a synchronised one to READY at the first pass whose position has reached the stop point; otherwise the status stays |
| TableSync.HandoverFromSyncWait | src/spock_apply.c:4192-4252 | from every reachable waiting state at which the main worker has reached that start, a continuation ends in READY with exactly the touching transactions the main worker has passed |
| TableSync.HandoverCompletes | src/spock_apply.c:4132-4271 | from every reachable state of a stream that starts at the main worker's start position, such a continuation exists |
| FlushFeedback.Feedback.TrackCommit | src/spock_apply.c:983-988 | each local commit is remembered with its remote end |
| FlushFeedback.Feedback.GetFlushPosition | src/spock_apply.c:2880-2917 | exactly the flushed front of the list is removed; write and flush are the ends of list and front |
| FlushFeedback.TrimKeepsComplete | src/spock_apply.c:2880-2917 | trimming drops no commit that is not flushed |
| FlushFeedback.CompleteIsHonest | src/spock_apply.c:3055-3072 | a position below everything still listed covers only flushed or empty transactions |
| FlushFeedback.Feedback.SendFeedback | src/spock_apply.c:3035-3124 | a commit that was listed is reported flushed if and only if it is flushed and others remain or the received position has reached its end; write is at or past every listed commit, and both at or past the received position when nothing is left; over all calls no report covers an unflushed commit, none goes back, flush never passes apply, and every flushed commit stays covered while the received position covers the commits seen |
| FlushFeedback.GoalsReport | src/spock_apply.c:3035-3072 | the computed positions cover every flushed commit and every listed one |
| FlushFeedback.StillReported | src/spock_apply.c:3055-3072 | when the received position covers the whole list, every commit that has left it stays covered by the reported flush position |
| Dependency.Traversal.StackPresentAddFlags | src/spock_dependency.c:1780-1823 | present or not, with the flags merged into that entry alone |
| Dependency.Traversal.TargetPresentAddFlags | src/spock_dependency.c:1713-1774 | present or not, with the flags merged into that entry alone |
| Dependency.Traversal.Find | src/spock_dependency.c:324-667 | the recursion terminates on any graph and takes only the walk's steps |
| Dependency.AfterSound | src/spock_dependency.c:324-667 | every state of the walk lists no object twice, keeps deletion order up to cycles, and carries in each flag set exactly the kinds of the edges taken |
| Dependency.FindDependents | src/spock_dependency.c:324-667 | lists exactly the transitive dependents once each, original last, in deletion order up to cycles, with the kinds of all edges into the list |
| Dependency.AcyclicOrder | src/spock_dependency.c:564-667 | without cycles every dependent precedes what it depends on |
| Dependency.ReportDependentObjects | src/spock_dependency.c:682-848 | refuses exactly when RESTRICT, quiet mode off, and some listed object is neither original nor reached by AUTO |
| Dependency.BlockingFlags | src/spock_dependency.c:737-798 | such an object is one held only by NORMAL dependencies into the listed set |
| Dependency.TryDropDependencies | src/spock_dependency.c:1829-1881 | refused exactly in that case; otherwise all transitive dependents but the original are dropped, dependents first |
| Dedup.CompactKeepsExactly | src/spock_dependency.c:1581-1611 | the result is strictly sorted and holds every part reference, and a whole-object reference exactly when no part of it is referenced |
| Dedup.EliminateDuplicates | src/spock_dependency.c:1561-1614 | the same of the array, in terms of the unsorted input |
| StandbyConfirmation.Scan | src/spock_failover_slots.c:1420-1456 | the loop computes the minimum as defined, and how many of the slots that are in use, named and past the position are missing to the required count |
| StandbyConfirmation.EnoughExactly | src/spock_failover_slots.c:1420-1456 | enough confirmations means: the number of slots in use, named and flushed to the position is at least the lesser of the setting and the number of names, or all names for -1 |
| StandbyConfirmation.ScanOldestExactly | src/spock_failover_slots.c:1450-1452 | the scan finds the true minimum if and only if no named slot reports 0 or the last one does |
| StandbyConfirmation.ShortcutSafeExactlyWhen | src/spock_failover_slots.c:1459-1471 | with the bound a releasing scan leaves, the shortcut lets through only what enough slots have flushed, if and only if no named slot reported 0, or the last one did, or enough are past the least position after the last 0 |
| StandbyConfirmation.SafetySurvivesAdvance | src/spock_failover_slots.c:1341-1374 | a safe bound stays safe while positions do not fall |
| StandbyConfirmation.HarmfulScanReleasesEarly | src/spock_failover_slots.c:1341-1374 | for any positions outside that condition, two successive calls of which the second releases WAL that too few slots have flushed |
| StandbyConfirmation.ZeroBetweenIsHarmful | src/spock_failover_slots.c:1450-1452 | such positions exist, and a zero alone does not make them |
| StandbyConfirmation.Waiter.Wait | src/spock_failover_slots.c:1385-1471 | a scan releases at the first poll at which that many named slots in use have flushed the position and at no other; the shortcut releases only then while its bound is safe; the bound stays safe if and only if the releasing scan was harmless |
| RelMetaCache.CoveredWhenHeld | src/spock_output_plugin.c:1039-1052 | when nothing is sent, the row is covered if and only if no whole-cache invalidation has overtaken the description |
| RelMetaCache.OvertakenStep | src/spock_output_plugin.c:1459-1486 | that happens exactly when one arrives while the entry is valid and cached, and lasts until the relation is invalidated by itself, described again or the session ends |
| RelMetaCache.CoveredWithoutWholeInvalidations | src/spock_output_plugin.c:1459-1486 | without whole-cache invalidations every row change is covered |
| RelMetaCache.SendingKeepsAccurate | src/spock_output_plugin.c:1459-1486 | a description counts as held exactly when no invalidation of its relation arrived since the schema check |
| RelMetaCache.Cache.InvalidationCallback | src/spock_output_plugin.c:1459-1486 | the entry is marked invalid and counted; an unknown relation, and the invalid OID, changes nothing |
| RelMetaCache.Cache.GetRelation | src/spock_output_plugin.c:1537-1561 | a missing or invalid entry becomes valid and not cached, any other stays |
| RelMetaCache.Cache.MaybeSendSchema | src/spock_output_plugin.c:1022-1053 | a description is sent exactly when the entry was not valid and cached; afterwards valid cached entries are again exactly the descriptions held |
| RelMetaCache.Cache.Change | src/spock_output_plugin.c:1056-1084 | over all calls, each row change is preceded by a description newer than every invalidation before its schema check if and only if no whole-cache invalidation has overtaken it |
| RelMetaCache.WholeInvalidationMissed | src/spock_output_plugin.c:1459-1486 | whenever one arrives while the entry is valid and cached, the next row change is not covered |
| RelMetaCache.MissedInFreshSession | src/spock_output_plugin.c:1459-1486 | a fresh session gets there after one row change |
| RelMetaCache.Cache.Prune | src/spock_output_plugin.c:1602-1651 | below half the initial size nothing happens, otherwise exactly the invalid entries go |
| RelMetaCache.Cache.Flush | src/spock_output_plugin.c:1571-1594 | the cache is empty and nothing counts as described any more |

## Left out

- libpq, sockets, latches, memory contexts, configuration, log and JSON formatting: only their outcomes appear, as parameters.
- Slot-group members that leave or restart, and the last position kept while others stay attached.
- Three or more nodes on equal timestamps: the tiebreak compares the applying node with the sender, so delivery orders can differ.
- Deletes, updates of missing rows, and conflicts found through another unique index.
- Convergence.DeliveryOrderIrrelevant: full rows with logged old values of delta columns only; with a null old value the remote counter replaces the local one.
- Skipping a transaction by LSN, forwarded origins, and queued TABLESYNC or SEQUENCE messages inside a failed transaction.
- The lookup of the exception-log slot by name prefix and the numbering of log entries; a subscription has one slot.
- ReplayQueue.Queue.Append: the list in memory is a sequence with a cursor, so links between entries and the freeing of buffers are not modelled.
- Several tables synchronising at once in one state: each table's handover is modelled by itself; a sync that fails is not modelled.
- FlushFeedback.Feedback.SendFeedback: no synchronous standby is defined; the hold for one does not limit the reported flush in the code.
- Dependency.Traversal.Find: whole objects with NORMAL and AUTO dependencies; sub-objects, pinned objects, INTERNAL and EXTENSION ownership and concurrent drops are not modelled.
- Dependency.ReportDependentObjects: the decision only, not the messages.
- Dedup.EliminateDuplicates: the library sort is given by its result.
- StandbyConfirmation.Waiter.Wait: slot names and required count do not change, so a walsender that finds its own slot among the names is one with a required count of 0.
- RelMetaCache.Cache.Change: what a description or a row contains.
- Version negotiation, parameter parsing, automatic DDL replication, read-only mode and monitoring functions: single-branch facts.
