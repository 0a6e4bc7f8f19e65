# hiveframe, modelled and proved

A Dafny model of hiveframe's stateful core: a dataframe that many transactions write
to, its write-ahead log, the replication of that log, the division of rows among
writers, checkpoints kept as deltas, and the synchronisation of cluster metadata.
Each class of the source that changes its fields is a Dafny class; its methods are
proved equal to functions of the old state, and the results are lemmas about those
functions and about all runs of them. Every induction is written out.

| file | what it holds |
|---|---|
| `JsonScanner` | the bracket scanner that finds a JSON value inside prose |
| `Replication`, `ReplicationRuns` | a reader's pointer, applied set and reorder buffer; the writer's ack counter; the network around them |
| `Registry` | weighted partitions, owner lookup, partition maps (`core/sqlite_registry.py` runs the same algorithm over a table) |
| `CellIds`, `Store`, `CellWrites`, `RowEdits`, `WriteNode` | the shared table: cell transactions with rollback, row edits with stable identities |
| `EditMeaning` | row edits by position and by identity |
| `RowRuns`, `RowRestore`, `NodeRuns` | runs of row edits; deleting a row and restoring it; runs that mix row edits with cell transactions |
| `Transactions`, `Locks`, `Wal`, `Coordinator` | the parts of a commit |
| `Commits`, `Replay` | interleaved commits against the log; replaying the log |
| `Frames`, `Checkpoints`, `CheckpointRuns`, `CheckpointLimits`, `DFrame` | snapshots, the checkpoint chain, runs of everything that touches it, and when a delta is taken or a checkpoint dropped |
| `OpIds`, `OpLog`, `Resync` | operation ids, leader-wins acceptance, chunked resync |
| `Seeding`, `Aggregation`, `AggregateMeaning`, `RecordBatches` | distributed seeding, aggregation over chunks and what its result says of the rows, reading from the middle of a parquet file |
| `Wrappers`, `Sequences`, `Text`, `Digits` | helpers |

## What the code does not keep

Where a promise does not hold on all inputs, the model keeps the code and the lemmas
say exactly when it holds.

- A delta that had to wait in the reorder buffer is never applied, although the
  pointer passes it: its LSN is reserved in the set that the pointer loop walks.
- A sync response applies an entry again that lies 128 or more below the pointer.
- Re-registering a writer with another role leaves its slots to nobody until the next
  rebalance.
- `_rollback` does not take back columns that the refused transaction created. The
  log then no longer explains the node.
- Locks are kept per cell text, and two texts such as "a_1" and "a_01" can name one
  cell. The log explains the cells in every run over a set of texts if and only if no
  two of them do.
- Replay takes every write of an entry to expect the value before the entry, so an
  entry that names a cell twice is lost.
- Pruning rebases the latest old manual checkpoint instead of the window's first. One
  manual and 31 automatic checkpoints are enough to lose the newest one.
- A frame without a row record has as many rows as the longest frame: it keeps its
  snapshot exactly while the others stay within the table.
- Acks are counted without asking who sent them: with two readers or more, one ack
  received twice can confirm what a reader has not applied.
- Operation ids sort as text, so epoch 10 comes before epoch 9; and they do not name
  their node, so two nodes can give out the same one. Sending a batch again changes
  nothing if and only if operations under one id agree.
- `compact(0)` reports all entries as removed and removes none; a negative count
  always misreports.
- `fail` in the state ROLLED_BACK falls back to FAILED without a record.
- If no writer has a positive weight, all but the last get one slot each.
- When the first transaction after a checkpoint failed, the next checkpoint is stored
  whole, although the log would do.
- Restoring a deleted row of a frame without columns inserts one row too many.

## Conventions

A column text "frame::name" is the value `Framed(frame, name)`, cut at the first "::";
row identities "r0", "r1", ... are `R(0)`, `R(1)`, .... A cell holds null or a text.
Clocks, the network, the JSON reader, the digest, row-group batching and owner lookup
during a load are parameters. Floating-point weights and sums are reals; Python's
`round` is modelled with its half-to-even rule. `hist`, `frames` and `delivered` are
history variables: they record what happened and decide nothing.

## Model

| member | source | states |
|---|---|---|
| JsonScanner.ExtractBalanced | agent/prompt.py:134-171 | The loop with stack and flags returns `e` exactly when `source[start..e]` is bracket-matched outside strings and no shorter slice from `start` is; nothing when no such end exists |
| JsonScanner.ClosesIffFirstMatch | agent/prompt.py:139-171 | The automaton closes on a text if and only if the text is in a bracket grammar that knows no stack, and no non-empty proper prefix is |
| JsonScanner.JsonEndIsFound | agent/prompt.py:134-171 | For every object or array of the RFC 8259 grammar (sections 4, 5 and 7), and any text before and after it, the end looked for is the end of the value |
| JsonScanner.ParseEmbedded | agent/prompt.py:173-185 | The search returns the first candidate that the JSON reader accepts, and nothing only if there is none |
| JsonScanner.EmbeddedJsonIsTheFirstCandidate | agent/prompt.py:173-185 | A value after bracket-free prose is that first candidate, whatever follows it |
| Replication.DeltaKeepsGood | core/replication.py:183-264 | Any delta, in any order and any number of times, keeps: pointer maximal, every LSN up to it applied or buffered, nothing applied twice; an ack means a first apply; a buffered delta stays buffered |
| Replication.DeltaOutcome | core/replication.py:183-245 | From every state: a delta is acked if and only if its LSN is new and not 1 to 64 LSNs ahead of the next one, and is then applied exactly once with the pointer moved as far as it goes and the set cut to 128; one that is so far ahead is buffered under its LSN; any other changes nothing |
| Replication.InOrderIsApplied | core/replication.py:204-213 | Deltas that come in order are all applied, in that order |
| Replication.DrainIsIdle | core/replication.py:235-264 | After an apply the drain loop has nothing to do |
| Replication.AppliedIffNeverBuffered | core/replication.py:183-264 | Over every run of deltas, an LSN up to the pointer was applied if and only if no delta with it was ever put in the reorder buffer |
| Replication.SwappedPairLosesOne | core/replication.py:215-222 | Deltas 2 then 1: the pointer passes 2, which is never applied |
| Replication.SyncKeepsGood | core/replication.py:333-353 | A sync response with entries at most 127 below the pointer keeps the whole invariant |
| Replication.SyncOutcome | core/replication.py:333-353 | A sync response hands over, once each, exactly the entries whose LSN is not in the applied set |
| Replication.SyncAppliesTwiceIff | core/replication.py:333-353 | A sync response applies an entry twice if and only if it holds one 128 or more below the pointer that is not buffered |
| Replication.ReadReplica.HandleDeltaMessage | core/replication.py:183-233 | The handler on the fields has the outcome of `Replication.DeltaOutcome`, keeps the invariant, and acks only a first apply |
| Replication.ReadReplica.ApplyDeltaEntry | core/replication.py:235-245 | Callback, applied set, pointer loop and pruning, as a function of the old state |
| Replication.ReadReplica.DrainReorderBuffer | core/replication.py:247-264 | The drain loop as a function of the old state |
| Replication.ReadReplica.HandleSyncResponse | core/replication.py:333-353 | The sync loop as a function of the old state |
| ReplicationRuns.AckCounter.Await | core/replication.py:81-112 | Registers a waiter for all readers, or is done at once without readers |
| ReplicationRuns.AckCounter.HandleDeltaAck | core/replication.py:277-289 | Counts an ack; done exactly when the expected number is reached, and the waiter goes |
| ReplicationRuns.EventKeepsInv | core/replication.py:81-289 | Broadcasts, waits, arrivals, losses, repetitions, sync responses and timeouts, but for an ack received once more, keep: an ack exists only after its apply; a waiter has counted no more than the distinct readers whose ack arrived; what is confirmed is applied everywhere |
| ReplicationRuns.ConfirmedMeansApplied | core/replication.py:81-122 | In every run in which no ack is received twice, `replicate_tx(lsn)` returning True means every reader applied exactly the payload broadcast under that LSN, once |
| ReplicationRuns.AllAcksConfirm | core/replication.py:102-122 | And conversely: when the acks of all readers arrive between the beginning of the wait and its timeout, `replicate_tx` returns True, whatever else happens |
| ReplicationRuns.ArrivalSendsAck | core/replication.py:183-233 | An arriving delta puts an ack on the way exactly when the reader takes it at once |
| ReplicationRuns.RepeatedAckConfirmsEarly | core/replication.py:277-289 | For every set of two or more readers there is a run, one reader's ack repeated, in which `replicate_tx` returns True while another reader has applied nothing |
| ReplicationRuns.RepeatedAcksAreSafeIff | core/replication.py:81-289 | If acks may be received any number of times, confirmation means application everywhere in every run if and only if there is at most one reader |
| Registry.CutTilesIff | core/registry.py:112-139 | The cut tiles [0, 10000) if and only if there are 1 to 10000 writers |
| Registry.SharesAreFair | core/registry.py:112-125 | For 1 to 10000 non-negative weights, not all zero: each writer has a slot and is within n - 1 slots of weight / total * 10000; after a clamped share every later writer gets exactly one |
| Registry.AnySharesAreFair | core/registry.py:112-125 | The same for any weights, negative ones counting as zero |
| Registry.WithoutWeightAllButLastGetOne | core/registry.py:112-125 | Without a positive weight every writer but the last gets exactly one slot |
| Registry.RebalanceIsFair | core/registry.py:106-125 | After a rebalance each healthy writer has a slot and is within n - 1 slots of what its own weight among the owners' weights entitles it to |
| Registry.RebalanceTilesIff | core/registry.py:99-139 | A rebalance leaves the healthy writers, sorted by id, tiling the slots if and only if they are at most 10000 |
| Registry.StepKeepsTilingIff | core/registry.py:84-96 | One register or status event keeps the tiling if and only if it does not take the write role from an owner by re-registering it |
| Registry.WithdrawalLeavesGap | core/registry.py:84-96 | Re-registering one of several owners with another role leaves its slots unowned |
| Registry.EventOutcome | core/registry.py:84-252 | An event gives the node it names the status or the registration it says, and changes no other node's role, status or weight |
| Registry.OwnersAfter | core/registry.py:84-252 | The owners after an event: a failed or suspect node is out at once, a healthy writer is in |
| Registry.LastEventDecides | core/registry.py:84-252 | In every run a node owns slots exactly when the last event that names it left it a healthy writer |
| Registry.LastRegistrationDecidesRole | core/registry.py:84-92 | Role and weight are those of the last registration |
| Registry.RunsStayTiled | core/registry.py:84-252 | Over every run without such withdrawals and with at most 10000 writers the tiling holds throughout |
| Registry.RunsFromEmptyAreTiled | core/registry.py:84-252 | In particular over every such run of a registry that starts empty |
| Registry.EveryRowHasOneOwner | core/registry.py:141-157 | In a tiling every row has exactly one owner and lookup returns it: the fallback is never used |
| Registry.ScanOutcome | core/registry.py:141-157 | In any registry lookup finds the first owner in id order whose range holds the row modulo 10000, or else the last owner |
| Registry.RowsWrapAround | core/registry.py:148-151 | Neighbouring rows have neighbouring slots, and rows 10000 apart the same owner |
| Registry.OwnMapIsValidIff | core/registry.py:277-304 | The map of a registry passes validation if and only if it has writers, they tile the slots, and none has an empty id |
| Registry.FollowerRoutesLikeLeader | core/registry.py:254-275 | After applying the leader's map a follower that knows the same writers routes every row as the leader does |
| Registry.ClusterRegistry.RebalancePartitions | core/registry.py:106-139 | The cursor loop over the writers is the division into shares, written into the node records |
| Registry.ClusterRegistry.Register | core/registry.py:84-96 | Inserts the node and rebalances if it is a writer |
| Registry.ClusterRegistry.MarkHealthy | core/registry.py:210-223 | Status change, and a rebalance for writers |
| Registry.ClusterRegistry.MarkSuspect | core/registry.py:237-252 | Status change, and a rebalance for writers |
| Registry.ClusterRegistry.MarkFailed | core/registry.py:225-235 | The event whose outcome `Registry.OwnersAfter` states: the node is out, and the others are rebalanced |
| Registry.ClusterRegistry.GetOwnerForRow | core/registry.py:141-157 | The scan finds the sole owner in a tiling; nothing only without writers |
| Registry.ClusterRegistry.ValidatePartitionMap | core/registry.py:277-304 | Accepts exactly the maps that tile the slots with distinct registered writers |
| CellIds.PrintedReadsIff | core/write_node.py:485-493 | A cell is read back from the text "frame::name_row" or "name_row" if and only if its frame does not run into the separator, or its name holds none and is not empty |
| CellIds.RefusedIff | core/write_node.py:485-493 | A text is refused if and only if it is no bulk marker and has no digits behind an underscore that is not its first character |
| CellIds.CanonicalIffNoSpareZero | core/write_node.py:485-493 | An id that names a cell is the one its cell prints if and only if the row has no spare zero |
| CellIds.SpareZeroAliases | core/write_node.py:485-493 | "a_1" and "a_01" are one cell under two ids |
| Store.GrowKeeps | core/write_node.py:389-392 | Growing the table changes no cell that can be read |
| Store.ExtentIsLastFilled | core/write_node.py:394-407 | The extent is one past the last row with a value |
| Store.SameRows | core/write_node.py:394-420 | A frame's row count depends on nothing but its record and its cells |
| CellWrites.ApplyAcceptsIff | core/write_node.py:96-153 | A transaction is accepted if and only if each write expects what the writes before it leave |
| CellWrites.AcceptedWrites | core/write_node.py:96-160 | An accepted transaction leaves its last write in every cell it names, changes no other, and counts the version up by one |
| CellWrites.FailureRestoresIff | core/write_node.py:67-119 | A refused transaction always restores length, row records, identities and version; every cell if and only if it left no value in a column it had to create |
| CellWrites.FailureIsInvisible | core/write_node.py:67-119 | On existing columns a refused transaction changes nothing that can be read |
| CellWrites.DirtyColumnSurvives | core/write_node.py:76-78 | A write to a new column survives the conflict after it |
| CellWrites.RecordedRows | core/write_node.py:409-420 | A recorded row count becomes the larger of itself and what was written |
| CellWrites.RecordedElsewhere | core/write_node.py:142-148 | Frames that are not written keep their record |
| WriteNode.WriteNode.Apply | core/write_node.py:60-160 | Snapshots, write loop, rollback or records and version: equal to the function the lemmas are about |
| WriteNode.WriteNode.Rollback | core/write_node.py:228-237 | All columns cut to the old length, the snapshot ones restored |
| WriteNode.WriteNode.WriteCell | core/write_node.py:102-121 | Row and column made to exist, optimistic check, assignment |
| WriteNode.WriteNode.EnsureRow | core/write_node.py:389-392 | The table padded with nulls up to the row |
| WriteNode.WriteNode.RecordRows | core/write_node.py:409-420 | The row record of one frame, which only grows |
| WriteNode.WriteNode.EnsureRowIds | core/write_node.py:422-433 | The id loop: every row has an identity and the counter is past them |
| WriteNode.WriteNode.NextRowId | core/write_node.py:435-438 | The id with the counter's number; the counter goes up |
| WriteNode.WriteNode.RestoreRowIds | core/write_node.py:440-455 | The stored identities replaced and the counter moved past their numbers |
| RowEdits.RestoredAreBelow | core/write_node.py:440-455 | After restoring identities none of them will be issued again |
| WriteNode.WriteNode.InsertRows | core/write_node.py:272-310 | The column and id loops of insert_rows, equal to the function the lemmas are about |
| WriteNode.WriteNode.DeleteRows | core/write_node.py:312-334 | The column loop and the pops from the back, equal to the function the lemmas are about |
| WriteNode.WriteNode.ApplyEdit | core/write_node.py:93-153 | A transaction with one row edit: refused without a frame, otherwise the edit and one version more |
| WriteNode.PopAll | core/write_node.py:330-331 | Popping positions from the highest down is removing them all |
| EditMeaning.InsertOpensGap | core/write_node.py:272-310 | Rows and identities in front of the place of insertion stay, the others move down as they are, the new rows hold the default; the place is the end without a position, and never outside the frame |
| EditMeaning.InsertAppends | core/write_node.py:276 | Without a position an insertion appends |
| EditMeaning.AskedAreUsed | core/write_node.py:302-308 | Usable requested identities are given in their order, and the counter issues the rest |
| EditMeaning.WantedIff | core/write_node.py:304-305 | Which requested identities are used |
| EditMeaning.TakenIff | core/write_node.py:312-320 | A row is deleted if and only if it is named by its position or by its identity |
| EditMeaning.RestoredAre | core/write_node.py:440-455 | Restored identities are stored as given; without any nothing changes |
| EditMeaning.RestoredCounter | core/write_node.py:440-455 | The counter is then past their number and past each number in them, and no further |
| EditMeaning.EditVerdict | core/write_node.py:262-266 | An edit of a node in order is accepted if and only if it names a frame |
| RowEdits.InsertIsSplice | core/write_node.py:272-310 | insert_rows splices `count` default rows and their new identities in at the position; all other rows keep contents, identity and order |
| RowEdits.InsertKeepsIdsDistinctIff | core/write_node.py:302-308 | An insertion keeps identities distinct if and only if the used requested ids do not repeat and none is about to be issued |
| RowEdits.InsertKeepsGood | core/write_node.py:272-310 | With requested ids that were issued before, the whole invariant of the node is kept |
| RowEdits.DeleteIsRemoval | core/write_node.py:312-334 | delete_rows takes out exactly the rows named by position or identity, with their identities, and keeps the invariant; a frame without columns is left alone |
| RowEdits.ConfinedLeavesOthers | core/write_node.py:262-334 | An edit that writes no cell or record outside its frame leaves every other frame's rows, contents and identities untouched |
| RowRuns.IdsStayDistinct | core/write_node.py:272-334 | At every moment of every run of edits: identities pairwise distinct, one per row, and nulls beyond each frame's rows |
| RowRuns.SurvivorsKeepContents | core/write_node.py:272-334 | An identity that is never deleted names the same row contents throughout every run |
| RowRuns.SurvivorsKeepOrder | core/write_node.py:272-334 | Two identities that are never deleted keep their order throughout every run |
| RowRuns.OthersUntouched | core/write_node.py:262-334 | A frame that no edit of the run names is untouched |
| NodeRuns.AcceptedKeepsSound | core/write_node.py:96-160 | An accepted cell transaction keeps everything that row edits rely on: row counts cover the identities, and cells behind them are null |
| NodeRuns.RefusedKeepsSound | core/write_node.py:67-119 | And so does a refused one that leaves no value in a new column |
| NodeRuns.WritesKeepIds | core/write_node.py:142-160 | After a cell transaction the rows of a frame have the identities they had, in place, and new rows theirs behind them |
| NodeRuns.IdsStayDistinct | core/write_node.py:60-334 | In every run of cell transactions and row edits from the empty node, at every moment: identities pairwise distinct, one per row, and nulls beyond each frame's rows |
| NodeRuns.SurvivorsKeepOrder | core/write_node.py:60-334 | In such runs two identities that are never deleted keep their order |
| NodeRuns.SurvivorsKeepContents | core/write_node.py:60-334 | And an identity that is never deleted keeps its row contents as long as no cell of its frame is written |
| RowRestore.RestoreUndoesDeleteIff | core/cluster_runtime.py:730-753 | Deleting a row and restoring it at its position with its id and its old values gives back contents and identities, and touches no other frame, if and only if the frame has a column |
| RowRestore.ReinsertedBlank | core/cluster_runtime.py:730-736 | Deleted and inserted again: identities as before, the row itself blank |
| Frames.ApplyIsPatchIff | core/dataframe.py:1750-1770 | The frame after an accepted transaction is the frame before it patched with the logged writes, if and only if no column of the frame is new |
| Frames.PatchReads | core/dataframe.py:1750-1770 | A patched snapshot cell by cell: last write or old value, and the rows it grows to |
| Frames.RefusedSameFrame | core/dataframe.py:1233-1252 | A refused transaction that names no new column of the frame leaves its snapshot as it was |
| Frames.UnrecordedFrameKeptIff | core/dataframe.py:500-504 | The snapshot of a frame without a row record survives an accepted transaction on other frames if and only if the frame has no columns or every row written is within the table |
| Frames.UnrecordedFrameDrifts | core/dataframe.py:500-504 | One write to row 2 of another frame makes an unrecorded one-row frame three rows long |
| Checkpoints.MaterialiseIff | core/dataframe.py:1721-1740 | Materialisation, total on every store, gives a value exactly when a whole frame is reached over finitely many links, and then that value |
| Checkpoints.CyclesFail | core/dataframe.py:1721-1740 | A checkpoint on a cycle of parents ends in the error, not in an endless recursion |
| Checkpoints.RebaseKeepsValues | core/dataframe.py:1869-1882 | Rebasing changes the value of no checkpoint, on any store |
| Checkpoints.PruneKeepsExactly | core/dataframe.py:1835-1867 | A prune leaves exactly the last `keep_last` checkpoints and, if asked, the manual ones, in their order and under their labels, and reports the number of the others |
| Checkpoints.PruneStaysFaithful | core/dataframe.py:1835-1867 | No prune makes a kept checkpoint stand for another frame |
| Checkpoints.PruneKeepsValuesIff | core/dataframe.py:1835-1867 | In an unbroken chain a prune keeps the value of every kept checkpoint if and only if not: manual ones are kept, one lies before the cut, the window's first is a delta, and its parent is automatic |
| Checkpoints.HarmBreaks | core/dataframe.py:1850-1864 | After such a prune nothing in the window can be materialised up to its next whole frame |
| Checkpoints.ManualThenAutosAreLost | core/dataframe.py:1653-1656 | One manual and 31 automatic delta checkpoints: the automatic prune leaves even the newest one beyond recovery |
| CheckpointRuns.CheckpointsNeverLie | core/dataframe.py:1629-1770 | In every run of writes, row edits, refusals, compactions, reads, fresh-label checkpoints and prunes, a checkpoint materialises to exactly the frame when it was taken, or not at all |
| CheckpointRuns.KeptCheckpointsAreExact | core/dataframe.py:1629-1770 | As long as no prune was harmful, every kept checkpoint materialises to exactly that frame |
| CheckpointRuns.DeltaNeedsCompleteLog | core/dataframe.py:1659-1711 | In every run a delta holds all writes committed since its parent, and none of them changed a shape: compaction gaps are always seen |
| CheckpointRuns.NoGapSince | core/dataframe.py:1687-1698 | Where the gap test passes, the log still has every entry appended since |
| CheckpointLimits.DeltaIff | core/dataframe.py:1659-1711 | A checkpoint is a delta if and only if there is one before it, it is not the turn of a whole frame, the log reaches back to its parent through a committed entry, and since then no committed transaction changed a shape and at most 5000 cells were written |
| CheckpointLimits.TookOutcome | core/dataframe.py:1629-1657 | Up to 30 automatic checkpoints nothing is pruned; one more leaves the last 30 and the manual ones |
| CheckpointLimits.AutosStayFew | core/dataframe.py:1629-1657 | In every run at most 30 automatic checkpoints are kept |
| CheckpointRuns.CacheIsRebuild | core/dataframe.py:1254-1263 | At every moment of every run the snapshot cached under the version equals a rebuild |
| DFrame.DFrame.CachedSnapshot | core/dataframe.py:1254-1263 | Returns the cached frame under the same version, else rebuilds and caches |
| DFrame.DFrame.WritesSince | core/dataframe.py:1676-1711 | The nested loops with their early exits compute the specified writes or None |
| DFrame.DFrame.BuildBody | core/dataframe.py:1659-1674 | Whole frame first, every fiftieth time and where a delta will not do; else a delta |
| DFrame.DFrame.TakeCheckpoint | core/dataframe.py:1629-1657 | Entry appended under its label, and the automatic prune beyond 30 automatic ones |
| DFrame.DFrame.Rebase | core/dataframe.py:1869-1882 | A delta that materialises becomes a whole frame |
| DFrame.DFrame.Prune | core/dataframe.py:1835-1867 | The loops over old manual checkpoints, the head rebase and the drops compute the book `Checkpoints.PruneKeepsExactly` describes, and return the number dropped |
| Transactions.UnfailedFollowsCommitPath | core/transaction.py:34-44 | A transaction whose record leads to its state, and that never failed, has taken the steps of the commit path in order |
| Transactions.NoStateTwice | core/transaction.py:34-44 | As long as the record leads to the state, no state was entered twice |
| Transactions.Transaction.Transition | core/transaction.py:122-140 | Moves and records exactly the allowed steps, and otherwise changes nothing; the record goes on leading to the state |
| Transactions.Transaction.Fail | core/transaction.py:142-153 | Ends rolled back from every state except rolled back itself; the record goes on leading to the state if and only if it was not rolled back |
| Locks.ReleaseUndoesGrant | core/lock_manager.py:21-39 | Release undoes a grant, and no other owner notices |
| Locks.LockManager.Acquire | core/lock_manager.py:21-30 | All requested cells, if nobody else holds one of them, or none; who holds each cell afterwards; the two maps stay inverse |
| Locks.LockManager.Release | core/lock_manager.py:32-39 | Exactly the transaction's cells become free; the two maps stay inverse |
| Wal.NoGapBehind | core/wal.py:99-132 | If the entry after an LSN is retained, every later one is |
| Wal.CompactKeepsContiguous | core/wal.py:99-111 | Compaction to any count drops a prefix: the retained numbers stay consecutive |
| Wal.CompactBeforeKeepsContiguous | core/wal.py:113-120 | And so does compaction before any number |
| Wal.CompactReportsIff | core/wal.py:106-111 | The count reported is the number of entries dropped if and only if some are to be kept, or none are and there are none; compacting to zero entries drops none |
| Wal.WriteAheadLog.Append | core/wal.py:62-79 | The next number, and one entry more in memory and file |
| Wal.WriteAheadLog.Compact | core/wal.py:99-111 | The retained entries as the slice of the source gives them, and the count reported, for every argument |
| Wal.WriteAheadLog.CompactBefore | core/wal.py:113-120 | The entries from the number on, and how many were removed |
| Wal.WriteAheadLog.GetSince | core/wal.py:122-132 | The bisection returns exactly the entries after the number |
| Wal.WriteAheadLog.Recover | core/wal.py:81-90 | After a restart everything ever appended is back and numbering goes on where it was |
| Commits.LogExplainsCells | core/coordinator.py:114-184 | In every interleaving in which no cell is named by two texts, every cell no in-flight transaction holds has the value that replaying the committed entries in log order gives |
| Commits.CommitsAreSerial | core/coordinator.py:114-184 | Every such interleaving is equivalent to running the committed transactions one by one in log order: each saw the values the log before it gives |
| Commits.ExplainedIffUnambiguous | core/coordinator.py:114-184 | From any node, all runs over a set of cell texts are explained by their logs, and all are serial, if and only if no two of the texts name one cell |
| Commits.StepKeepsInv | core/coordinator.py:128-184 | Each lock, write, append and release step keeps the invariant behind both |
| Commits.DirtyRefusalIsUnexplained | core/coordinator.py:140-184 | A refused write step keeps node and log in step if and only if it left nothing in a new column |
| Commits.ExistingColumnsAreClean | core/coordinator.py:140-184 | Writes to existing columns never do |
| Commits.AliasesBreakTheLog | core/lock_manager.py:21-30 | For any two texts of one cell and any node there is a run of two accepted transactions, all locks released at its end, whose log gives the cell another value than the node and is not serial |
| Commits.CanonicalTextsAreUnambiguous | core/write_node.py:485-493 | Texts without spare zeros never name one cell twice; "a_1" and "a_01" do |
| Replay.ReplayWrites | core/coordinator.py:342-374 | Replaying an entry that names no cell twice gives each cell its last write, from every state |
| Replay.ReplayRightIff | core/coordinator.py:342-374 | An entry is replayed rightly from every state if and only if it names no cell twice |
| Replay.ReplayAllReads | core/coordinator.py:276-298 | Replaying a log gives every cell the value its history says |
| Replay.WhichEntriesReplay | core/coordinator.py:276-298 | Committed and synced entries are replayed, all others passed over |
| Replay.ReplayAgain | core/coordinator.py:276-298 | Replaying an already applied suffix again changes no cell |
| Replay.ReplicaAgrees | core/coordinator.py:276-298 | A node that only replays agrees with the writer on every cell no in-flight transaction holds |
| Coordinator.Coordinator.Submit | core/coordinator.py:114-184 | Undisturbed: the final state with its record of transitions, the node, the one logged entry and the cursor, and all cells unlocked again, on success and on every failure |
| Coordinator.CommittedWriteShows | core/write_node.py:96-148 | After a committed write to "frame::name_row" that frame has the column, its cell holds the last value written, and its row record reaches down to the row |
| Coordinator.Coordinator.ReplayTurn | core/coordinator.py:276-298 | One turn replays exactly the entries after the cursor and moves it to the last |
| Coordinator.Coordinator.ReplayEntry | core/coordinator.py:342-374 | The skip loop and the apply, as a function of the old node |
| Coordinator.Coordinator.AdvanceCursor | core/coordinator.py:304-309 | The cursor never goes back |
| OpIds.ParsePrinted | core/op_log.py:120-129 | Parsing a printed id returns epoch and sequence, for all naturals |
| OpIds.ParseIff | core/op_log.py:120-129 | An id is read if and only if there are digits before and after its first dash |
| OpIds.PrintShape | core/op_log.py:153-156 | A printed id is the digits of the epoch, a dash, and 20 digits, for sequences below 10^20 |
| OpIds.PrintedOrder | core/op_log.py:153-156 | Text order of printed ids: the epochs' digits first, then the sequence number |
| OpIds.OrderIsNumericIff | core/op_log.py:153-156 | Text order is numeric order if and only if the smaller epoch, filled up with zeros to the digits of the larger, is not above it |
| OpIds.EqualDigitsSort | core/op_log.py:204-215 | In particular for epochs with equally many digits |
| OpIds.NineSortsAfterTen | core/op_log.py:204-215 | Everything of epoch 10 sorts before epoch 9 |
| OpLog.ExportIsLater | core/op_log.py:204-215 | With epochs of equally many digits and sequences below 10^20, an export is exactly the numerically later acked operations, in numeric order |
| OpLog.ExportAll | core/op_log.py:204-218 | Without a starting point an export is all acked operations, each once |
| OpLog.LatestValueIff | core/op_log.py:563-576 | The latest value is that of the acked row of the key with the greatest time, and among those with the greatest id |
| OpLog.Verdict | core/op_log.py:275-306 | One operation: ignored without an id, acknowledged from the table if its id is there, rejected if the latest row of its key has another value, stored otherwise |
| OpLog.StoredIsLatest | core/op_log.py:292-306 | An operation stored as the newest of its key gives the key its value |
| OpLog.LastOpStands | core/op_log.py:227-257 | Of several operations under one id the last one stands, acked |
| OpLog.UpsertedCreated | core/op_log.py:227-257 | And the time of creation is that of the row already there, or else of the first one |
| OpLog.LeaderWins | core/op_log.py:267-308 | For any batch and any clock, the latest acked value of a key that has one never changes |
| OpLog.EveryOpIsAnswered | core/op_log.py:267-308 | Every operation with an id is acknowledged or rejected, exactly once |
| OpLog.ResendIsIdempotentIff | core/op_log.py:267-308 | Sending a batch again changes nothing and gets the same answer, for every table and every clock, if and only if operations under one id have the same entity, key and value; distinct ids are the special case |
| OpLog.DisagreementChangesAnswer | core/op_log.py:275-291 | For every other batch there is a table for which the answer changes, at any times |
| OpLog.AckedIsStoredIff | core/op_log.py:275-306 | An acknowledged operation is stored with its content if and only if its id was new or stood for that content already |
| OpLog.OpLog.AppendLocal | core/op_log.py:94-168 | The next id and a pending row, or the error of a taken id; the sequence number is used up either way |
| OpLog.OpLog.ApplyAcked | core/op_log.py:227-257 | The upsert loop |
| OpLog.OpLog.LatestAcked | core/op_log.py:563-576 | The value of a row that no acked row of the key outranks, by time and then by id, or nothing if there is none |
| OpLog.OpLog.AcceptFromFollower | core/op_log.py:267-308 | The acceptance loop computes the table and the answer the lemmas are about |
| Resync.ChunksJoin | core/op_log.py:523-532 | The chunks put together are the snapshot, for every size asked for |
| Resync.ChunksAreFull | core/op_log.py:523-532 | No chunk is empty, all but the last have the full size, and only the empty snapshot has none |
| Resync.SnapshotChunks | core/op_log.py:523-532 | The slicing loop |
| Resync.Download | core/op_log.py:402-472 | For every batch size the download loop puts the chunks together in order, or gives up on the first unusable answer or a wrong digest |
| Resync.InstalledIff | core/op_log.py:402-472 | Bytes are installed if and only if every answer came and was a non-empty chunk, they are the chunks in order, and they have the digest asked for, if any |
| Resync.DownloadRebuilds | core/op_log.py:402-472 | For every non-empty snapshot and chunk size the download installs the leader's bytes |
| Resync.NothingElseInstalled | core/op_log.py:460-472 | With a collision-free digest, whatever is answered, nothing but the described bytes is installed |
| Resync.RebuiltCacheSucceedsIff | core/cluster_runtime.py:1241-1276 | Against a leader that may rebuild its cached chunks midway the download installs the described bytes or nothing; the former if and only if no answer is lost and the chunks sent make up those bytes, and, while the snapshot does not shrink, if and only if each chunk sent is the manifest's own |
| Resync.FreshCacheSucceeds | core/cluster_runtime.py:1241-1276 | While the cache is fresh the download succeeds, whatever happens to the log |
| Resync.AnswersFromCurrentLog | core/cluster_runtime.py:1241-1256 | Without a cache or with one older than five seconds the leader answers from the log as it is now, otherwise from the cache |
| Resync.Leader.Manifest | core/cluster_runtime.py:1241-1276 | Refreshes an old cache and describes it |
| Resync.Leader.Chunk | core/cluster_runtime.py:1241-1268 | Refreshes an old cache and answers one chunk, or the empty text out of range |
| Seeding.SeedDistributed | core/dataframe.py:733-767 | Segments that follow each other, hold the chunks' rows, go to the owners of their rows, and are as long as possible |
| Seeding.Seed | core/dataframe.py:706-767 | Local with at most one writer, else by owner |
| Seeding.EachRowIsSentOnce | core/dataframe.py:733-767 | Every row is in exactly one segment, with its own contents |
| Seeding.SeededToSoleOwner | core/dataframe.py:895-901 | With tiled slots it goes to the one node whose slots it falls in |
| Aggregation.FoldIsExtreme | core/dataframe.py:1034-1041 | A minimum or maximum bounds the values and is one of them; missing values play no part |
| Aggregation.FoldConcat | core/dataframe.py:1034-1041 | Aggregating two stretches and combining is aggregating both at once, for every function |
| Aggregation.GroupsConcat | core/dataframe.py:1029-1032 | Adding a chunk's groups keeps the order of first occurrence |
| Aggregation.Accumulate | core/dataframe.py:1021-1041 | The running totals after any split into chunks are those of the whole filtered frame |
| Aggregation.RankedIsStable | core/dataframe.py:1056-1058 | The ranking is descending and keeps the order of equal rows |
| Aggregation.Aggregate | core/dataframe.py:1011-1059 | Groups, values, order and top rows are those of one pass over the whole frame |
| AggregateMeaning.ReportSays | core/dataframe.py:1034-1055 | Every result line is of a group with rows, and its numbers are the number of its rows, the sum of the values present, their quotient, or the smallest or greatest value present |
| AggregateMeaning.ReportIsComplete | core/dataframe.py:1045-1055 | Before the cut every group with rows has a line |
| AggregateMeaning.ReportIsCut | core/dataframe.py:1059 | A smaller limit cuts off the end; the number of lines is the limit, at least one, or that of the groups |
| AggregateMeaning.ReportDescends | core/dataframe.py:1056-1058 | Counts without value columns, and other results with them, come in descending order |
| AggregateMeaning.GroupsByFirstRow | core/dataframe.py:1029-1032 | The groups come in the order of their first rows, each once |
| RecordBatches.FirstGroup | core/dataframe.py:1418-1428 | The first group that reaches beyond the start |
| RecordBatches.DropRows | core/dataframe.py:1430-1443 | Whole batches dropped, the next one cut, empty ones not yielded: the rows from there on |
| RecordBatches.IterRecordBatches | core/dataframe.py:1404-1444 | For any row groups, any batching and any start, the batches hold exactly the rows from the start on |

## Left out

- Sockets, retries, authentication, serialisation, and the Redis, MySQL and MinIO logs: the file-backed log stands for all of them.
- The other column of structural edits (insert_column, delete_column, rename_column, core/write_node.py:336-385): finite case tables on column names. In a log they count as shape changes like the row edits.
- Transactions that mix cell writes with a structural operation: core/dataframe.py never submits one.
- `DFrame.rollback`, `__delitem__`, reseeding and non-transactional writes: they bypass the log or leave only a marker in it.
- Type coercion of columns, NaN next to None, and Arrow conversion: one value type with null. Frame ids that themselves contain "::", and digits other than ASCII.
- A cell value list that reaches `get` with an id that does not parse during replay: committed entries are proved to parse.
- In-place update of the pandas arrays and aliasing of returned snapshots: columns are sequences that the methods replace.
- `estimate_gap`, `push_to_leader`, `pull_from_leader` and the re-insertion of pending operations after a resync: thin callers of what is modelled.
- Atomicity of one handler, one lock step or one database statement is taken from the source's locks and event loop; threads interleave between them.
- Leader promotion, liveness timers, read-node caching, and everything in agent/ but the scanner.
- WriteNode.WriteNode.Apply: takes the cell texts already parsed; `Coordinator.Coordinator.ApplyWrites` is where a text that is no cell id is refused.
- Commits.LogExplainsCells: asks that no cell is named by two texts and that refusals leave nothing in new columns; `Commits.ExplainedIffUnambiguous` and `Commits.DirtyRefusalIsUnexplained` show that these are the exact conditions.
- CheckpointRuns.CheckpointsNeverLie: is about frames with a row record, labels never used before, and writes that name no new column of the frame; `Frames.UnrecordedFrameKeptIff` and `Frames.ApplyIsPatchIff` say when other frames and columns would do.
- ReplicationRuns.ConfirmedMeansApplied: lets sync entries lie at most 127 below the pointer and each ack arrive at most once; `Replication.SyncAppliesTwiceIff` and `ReplicationRuns.RepeatedAcksAreSafeIff` show why.
- NodeRuns.SurvivorsKeepOrder: is about frames with a name; row edits refuse the empty name and `_catat_baris` ignores it.
- Aggregation.Aggregate: numbers are reals, so rounding in floating-point sums is not modelled; a group column with the name of the ranking column is not either.
