# Verification of LaminarDB's stateful core

LaminarDB is a streaming SQL database. This project models the parts of it that hold state across
batches and failures, and proves what they promise over every input and every run:

- **Windowed aggregation.** Rows go to tumbling, hopping or gap-merged session windows, are grouped by
  key under a cardinality cap, closed by a watermark with allowed lateness, and checkpointed. Sessions
  are proved to be the connected components of the timestamps, fixed windows to be a group-by over
  half-open intervals, across any interleaving of batches, closes and restarts.
- **The checkpoint coordinator.** Two-phase commit over the exactly-once sinks with a manifest as
  decision record, as a state machine with failures, timeouts, late writes, retries, crashes and
  restarts at any step. The coordinator object is tied to it action by action.
- **The ASOF join.** A hash map of ordered maps against a nested loop.
- **Incremental GROUP BY.** From aggregate calls with FILTER to a positional projection, to masked
  accumulators, to the capped group table.
- **What they rest on.** The scalar codec of checkpoints, operator-state packing, the timestamp
  filter in front of the windows, and the snapshot ring.

How the model stands to the code:

- Accumulators are abstract values that are fed rows, combined, saved as scalars and loaded from them
  (`Accumulators.dfy`). What they mean is proved through the rows behind them: in arrival order for fixed
  windows and GROUP BY, as a multiset for sessions, which merge. Feeding in one go or in two is assumed to
  be the same, and for sessions combining to be feeding the rows of both. GROUP BY accumulators are folds
  over their arguments, for which the first is proved.
- A restart saves a state in any hash order and restores it into a fresh one. Restarts are events of a
  run, between any two others.
- Iteration over a hash map visits its keys in any order; iteration over an ordered map ascends.
- 64-bit saturation and truncating division are written out where the code uses them (`Int64.dfy`).
- Answers of sinks, store and log are parameters. A write that failed or timed out may still land at any
  later time, and a commit that was sent may still take effect.
- SQL functions, the key hash and the window assigner's parameters are arbitrary.

Where a promise is not kept by the code as it stands, the model follows the code, shows the failing case
and gives the exact condition:

- A session's end is inclusive for merging and exclusive for closing, so a row exactly at the watermark
  less the lateness can split a session (`WatermarkEdgeSplitsSession`, `LateRowExact`). The late-row filter
  keeps such rows out exactly when the earliest event time it lets through is above that edge
  (`SessionEdgeExact`): with any positive lateness in millisecond columns, with a lateness above the
  watermark's part of a second in second columns (`SessionEdgeByFormat`, `SecondEdgeKept`).
- Keys and accumulator states go through one scalar codec, which widens narrow types, turns floats
  without a JSON number into null, writes a tag it cannot read back for types it lacks, and types a list by
  its first item, so that an empty list beside a full one cannot be read back (`RoundTrip`, `StatesLost`,
  `EmptyBesideFull`). A checkpoint restores exactly when no key and no state is unreadable or refused, and to
  what was saved exactly when every key is wide and every accumulator is the one its widened state loads
  (`RestartExact`, `WindowsRestartExact`, `SessionsRestartExact`). Under that condition restarts leave no
  trace in any run (`RestartsInvisible`, `AccumulatorsMeanQuery`, `RestartedGroupBy`, `RestartedSessions`).
- Sink statuses are kept by sink name. An attempt can count as complete although a commit failed exactly
  when two exactly-once sinks share a name (`FailuresShowExactly`, `SuccessExact`).
- The object store confirms a save that found a manifest of the same id and leaves that one in place
  (crates/laminar-storage/src/checkpoint_store.rs:863-870), and a save that timed out may still replace the
  manifest of the retry (crates/laminar-db/src/checkpoint_coordinator.rs:695-710). Either way a retry can commit
  over the record of an earlier attempt (`RetryKeepsOldRecord`, `LateWriteReplacesRecord`). When a commit goes
  out, the record in the store is the attempt's own exactly when its save wrote and neither a late write of
  that id nor a prune has come since (`CommitAfterOwnManifest`).
- A kept manifest gets the retry's sidecar beside it (`RetryDisplacesSidecar`). The sidecar read with a manifest
  is its own attempt's exactly when no other attempt's sidecar and no prune of that id came after it
  (`OwnSidecarExact`).
- A commit cannot be taken back, and a crash can come between the commits of two sinks: recovery then rolls
  both back although one has committed (`CrashLeavesHalf`), as it does with a single sink whose commit was not
  yet recorded (`RecoveryUndoesCommit`); and a sink that refuses after another agreed stays behind
  (`RecoveryHalfCommitted`). Which statuses can be stored is exact (`StorableExact`), and recovering from them
  finds the epoch committed by all exactly-once sinks or by none, in every run that stores them, if and only
  if there is at most one such sink, or their names are distinct and all are recorded as committed
  (`AtomicExact`). Recovery rolls back no sink that has committed, or may still, if and only if no sink that
  the manifest does not record was sent that epoch's commit (`UndoExact`).
- The join tests key equality only at the best timestamp of a hash bucket, so a colliding key can hide a
  match (`LookupExact`, `CollisionLosesMatch`).
- The comment at crates/laminar-db/src/batch_filter.rs:78-80 calls the floor to whole seconds conservative. That holds for
  `<`; for `>=` the floor lets rows through that are up to a second late (`SecondRowExact`). The filter would
  also do so for an integer column in a unit other than milliseconds (`KeptOnTimeExact`), but the pipeline
  gives integer columns no other unit (crates/laminar-db/src/db.rs:115-127).
- A slow writer loses a batch in the snapshot ring, at every capacity (`SlowWriterLoses`). A snapshot reads the
  last tickets exactly when the last write to each of their slots is the ticket's own (`RingExact`).
- Near the lower 64-bit limit a hopping assigner saturates: the last start can come out after the timestamp
  (`LastStartSaturates`, `StartAfterTimestamp`), and the walk can end on a start that is no window
  (`WalkSaturates`). Exactly the windows that contain the timestamp are assigned if and only if neither happens,
  which the timestamp and the assigner's parameters decide (`AssignedExact`).

## Model

| member | source | states |
|---|---|---|
| SessionComponents.GoodAreSessions | crates/laminar-db/src/core_window_state.rs:850-954 | sessions that are internally gap-linked, pairwise separated and hold every row once are exactly the connected components of the rows under distance at most gap, with start = least time and end = greatest time plus gap |
| SessionComponents.SessionsUnique | crates/laminar-db/src/core_window_state.rs:850-954 | the component description has one solution per input |
| SessionComponents.TouchesAtMostTwo | crates/laminar-db/src/core_window_state.rs:858-872 | a new row overlaps at most two of the sessions of a group |
| SessionComponents.ReplaceGood | crates/laminar-db/src/core_window_state.rs:874-951 | replacing the overlapped sessions by their merge with the row keeps all sessions separated, linked and counting every row once |
| SessionWindows.TouchedShape | crates/laminar-db/src/core_window_state.rs:858-951 | the overlapped keys are none, one, or two neighbours, so the merge of many is a merge of exactly two |
| SessionWindows.AbsorbGood | crates/laminar-db/src/core_window_state.rs:850-954 | absorbing a row that touches nothing emitted keeps open plus emitted sessions the components of all rows |
| SessionWindows.LateRowExact | crates/laminar-db/src/core_window_state.rs:850-954 | open plus emitted sessions stay right after a row exactly when the row touches no session already emitted |
| SessionWindows.WatermarkEdgeSplitsSession | crates/laminar-db/src/core_window_state.rs:1070-1085 | for every gap and lateness, a row exactly at the watermark less the lateness belongs to a session that has been closed, and the result is wrong |
| SessionRuns.RunSessions | crates/laminar-db/src/core_window_state.rs:1070-1121 | over every run of updates and closes with on-time rows, emitted plus open sessions of a key are exactly the sessions of its whole input, disjoint, each emitted once |
| SessionRuns.RunCloses | crates/laminar-db/src/core_window_state.rs:1070-1121 | in every run a close emits exactly the open sessions that no row on time at its watermark can join any more, keeps exactly the others, and orders the output by start and then end |
| SessionRuns.ArrivalOrderIrrelevant | crates/laminar-db/src/core_window_state.rs:815-954 | without a close the state depends only on the multiset of rows, not on their order |
| SessionRuns.ReachableShape | crates/laminar-db/src/core_window_state.rs:858-951 | in every reachable state sessions are keyed by start, at least gap long, strictly separated, and any row overlaps at most two |
| SessionOperator.SessionWindowState.UpdateBatchSession | crates/laminar-db/src/core_window_state.rs:815-831 | the in-place loop over a batch, null timestamps skipped, gives the specified state |
| SessionOperator.SessionWindowState.UpdateSessionWindow | crates/laminar-db/src/core_window_state.rs:850-954 | starting, extending in place or merging gives the specified session map of the row's key and touches no other key |
| SessionOperator.SessionWindowState.ExtendOne | crates/laminar-db/src/core_window_state.rs:893-906 | extending the one overlapped session, rekeyed when its start moves, is the merge with the row |
| SessionOperator.SessionWindowState.MergeMany | crates/laminar-db/src/core_window_state.rs:907-950 | removing all overlapped sessions and inserting their merge is the merge with the row |
| SessionOperator.SessionWindowState.CloseSessionWindows | crates/laminar-db/src/core_window_state.rs:1070-1121 | a session stays open exactly when its end plus the lateness, saturated, is above the watermark, the others leave, each once, in order of start and then end, and emptied groups are dropped |
| SessionOperator.SortByTime | crates/laminar-db/src/core_window_state.rs:1117-1118 | the emitted rows are a permutation in time order, and rows of one time keep their order |
| SessionOperator.SessionWindowState.CheckpointWindows | crates/laminar-db/src/core_window_state.rs:1388-1419 | the checkpoint lists every group once with its sessions and their encoded states, and no group without a session |
| SessionOperator.SessionWindowState.RestoreWindows | crates/laminar-db/src/core_window_state.rs:1423-1531 | a fingerprint mismatch changes nothing; otherwise the groups are rebuilt, a key or state that cannot be read leaves those before it, and the operator can go on |
| SessionRestarts.SessionsRestartExact | crates/laminar-db/src/core_window_state.rs:1388-1531 | a checkpoint of sessions restores exactly when no key and no state is unreadable or refused, and to the sessions saved exactly when every key is wide and every accumulator is kept |
| SessionRestarts.AbsorbImage | crates/laminar-db/src/core_window_state.rs:874-951 | extending and merging accumulators is extending and merging the rows behind them |
| SessionRestarts.RestartedSessions | crates/laminar-db/src/core_window_state.rs:815-1531 | over every run of batches, closes and survived restarts, open and emitted accumulators are those of exactly the sessions of the whole input, none emitted twice |
| WindowAssigner.TumblingExact | crates/laminar-core/src/operator/window.rs:808-820 | wherever its arithmetic stays in range, the truncating-division formula gives the one aligned start whose half-open window contains the timestamp, negative ones included |
| WindowAssigner.AssignWindows | crates/laminar-core/src/operator/sliding_window.rs:221-262 | the starts returned ascend and are exactly the aligned windows up to the last start that end after the timestamp, and the lower limit if the walk saturates there |
| WindowAssigner.AssignedExact | crates/laminar-core/src/operator/sliding_window.rs:221-262 | exactly the in-range aligned half-open windows that contain the timestamp are assigned if and only if the last start is not after it and the walk stays clear of the lower limit or meets it aligned |
| WindowAssigner.LastStartSaturates | crates/laminar-core/src/operator/sliding_window.rs:221-232 | a last start after the timestamp is assigned although its window does not contain it |
| WindowAssigner.StartAfterTimestamp | crates/laminar-core/src/operator/sliding_window.rs:221-232 | with an offset this happens more than a window above the lower limit |
| WindowAssigner.WalkSaturates | crates/laminar-core/src/operator/sliding_window.rs:244-255 | within a window size of the lower limit, unless windows are aligned there, a start is assigned that is no window |
| GroupCap.AdmitKeeps | crates/laminar-db/src/aggregate_state.rs:908-931 | admitting a group's rows keeps: present groups have all their rows, the cap holds, and a group is absent only if the table is full |
| GroupCap.NothingDropped | crates/laminar-db/src/aggregate_state.rs:911-919 | if no more groups have rows than the cap, none is missing |
| FixedWindows.RunComplete | crates/laminar-db/src/core_window_state.rs:645-812 | over every run with on-time rows, emitted starts strictly increase, no emitted window is open again, every group present has all of its rows, and no window, open or emitted, exceeds the cap |
| FixedWindows.RunGroupBy | crates/laminar-db/src/core_window_state.rs:1022-1067 | emitted plus open state holds exactly the groups of a window that have rows, each with all of them, if and only if the distinct keys of the window fit the cap; the window is the aligned half-open interval for timestamps that are assigned exactly, and what the assigner gives otherwise |
| FixedWindows.WithinExact | crates/laminar-db/src/core_window_state.rs:678-761 | for timestamps that are assigned exactly, the rows collected for a window are those in its half-open interval |
| FixedWindows.BatchingIrrelevant | crates/laminar-db/src/core_window_state.rs:678-811 | below the cap, the cut into batches and the hash order make no difference to the state |
| FixedWindows.OnTimeRowsOpen | crates/laminar-db/src/core_window_state.rs:1028-1049 | on-time rows never fall into an expired window |
| FixedWindows.CloseExact | crates/laminar-db/src/core_window_state.rs:1022-1067 | a close keeps exactly the windows an on-time row can still fall into, and emits exactly the others that have groups, with those and their bounds, in order of start |
| FixedOperator.FixedWindowState.UpdateBatch | crates/laminar-db/src/core_window_state.rs:645-812 | collecting indices per window and key and feeding each group once, in some order of the groups, gives the specified windows |
| FixedOperator.FixedWindowState.CollectBatch | crates/laminar-db/src/core_window_state.rs:678-761 | the indices collected for a window and key are exactly its rows, in order |
| FixedOperator.FixedWindowState.FeedGroup | crates/laminar-db/src/core_window_state.rs:764-809 | a group is created if the window has room and fed, or turned away; the window entry exists either way |
| FixedOperator.FixedWindowState.CloseFixedWindows | crates/laminar-db/src/core_window_state.rs:1022-1067 | exactly the expired windows leave, those with groups are emitted in order of start |
| FixedOperator.FixedWindowState.CheckpointWindows | crates/laminar-db/src/core_window_state.rs:1356-1387 | the checkpoint lists every window and every group of it once, with encoded states |
| FixedOperator.FixedWindowState.RestoreWindows | crates/laminar-db/src/core_window_state.rs:1443-1481 | a fingerprint mismatch changes nothing; otherwise the windows are rebuilt, and a key or state that cannot be read leaves those before it |
| WindowRestarts.WindowsRestartExact | crates/laminar-db/src/core_window_state.rs:1350-1481 | a checkpoint of fixed windows restores exactly when no key and no state is unreadable or refused, and to the windows saved exactly when every key is wide and every accumulator is kept |
| WindowRestarts.RestartedComplete | crates/laminar-db/src/core_window_state.rs:645-1481 | over every run of batches, closes and survived restarts, emitted starts strictly increase, no emitted window is open again, every group has the accumulators fed all of its rows, and no window exceeds the cap |
| WindowRestarts.RestartedGroupBy | crates/laminar-db/src/core_window_state.rs:645-1481 | over every such run, a window holds or has emitted, for exactly its groups with rows, the accumulators fed exactly those rows, if and only if its distinct keys fit the cap; the window is the aligned half-open interval for timestamps that are assigned exactly |
| ScalarCodec.RoundTrip | crates/laminar-db/src/aggregate_state.rs:154-259 | decoding an encoded scalar or list, nested to any depth, fails exactly when a fallback tag occurs or items of a list widen to different types, and otherwise gives its widened form, non-finite floats as null |
| ScalarCodec.EmptyBesideFull | crates/laminar-db/src/aggregate_state.rs:237-252 | a nested list with an empty list beside a full one cannot be read back |
| ScalarCodec.EncodeWiden | crates/laminar-db/src/aggregate_state.rs:154-206 | widening does not show in the encoding and is idempotent, so encode after decode after encode is encode |
| ScalarCodec.EncodeIdentifies | crates/laminar-db/src/aggregate_state.rs:154-259 | two values encode alike exactly when they widen alike |
| ScalarCodec.KeyRoundTrip | crates/laminar-db/src/aggregate_state.rs:1122-1162 | a row of scalars, a key or a state, fails to decode exactly when one of them is unreadable, and otherwise comes back as its widened form |
| Accumulators.LoadSaved | crates/laminar-db/src/aggregate_state.rs:1122-1180 | accumulators load from their saved states exactly when those are readable and fresh accumulators take the widened form, and come back unchanged exactly when that form still stands for them |
| Accumulators.WideStatesKept | crates/laminar-db/src/aggregate_state.rs:1122-1180 | accumulators that reload from their own states come back unchanged if those are wide and of types the codec has |
| Accumulators.StatesLost | crates/laminar-db/src/aggregate_state.rs:154-259 | a state of a type the codec lacks is refused, a float without a JSON number comes back null, and a 32-bit integer comes back as 64-bit |
| SessionRestarts.CountLaws | crates/laminar-db/src/aggregate_state.rs:1122-1180 | COUNT(*) meets every law assumed of accumulators, and its state is kept |
| Snapshots.RestoreExact | crates/laminar-db/src/aggregate_state.rs:1146-1183 | a listing of groups restores exactly when every key and every group can be read, and to the groups saved exactly when every key was in widened form and every group survives its own save and load |
| Snapshots.NarrowKeyLost | crates/laminar-db/src/aggregate_state.rs:1146-1183 | after a restore a group whose key was not wide is no longer found under it |
| Snapshots.Save | crates/laminar-db/src/aggregate_state.rs:1118-1138 | every group is written once, in some order |
| Snapshots.Load | crates/laminar-db/src/aggregate_state.rs:1157-1182 | entries are inserted one by one, key before states, and the first that cannot be read stops with those before it in place |
| Restarts.RestartExact | crates/laminar-db/src/aggregate_state.rs:1118-1183 | a checkpoint of a group table restores exactly when no key and no state is unreadable or refused, and to the table saved exactly when every key is wide and every accumulator is kept |
| TableRuns.RestartsInvisible | crates/laminar-db/src/aggregate_state.rs:869-1183 | dropping survived restarts from a run leads to the same table |
| TableRuns.RowsOfRun | crates/laminar-db/src/aggregate_state.rs:869-1183 | over every run of batches and survived restarts, the table is the accumulators of a run of the rows that never stopped |
| PreAggregation.CompileAggregate | crates/laminar-db/src/aggregate_state.rs:607-764 | the columns of one aggregate hold its arguments, guarded by FILTER, or TRUE for COUNT(*), then its mask, and are the next columns in order |
| PreAggregation.Compile | crates/laminar-db/src/aggregate_state.rs:563-770 | group keys come first, every aggregate is implemented, and each further column belongs to exactly one aggregate, in order |
| PreAggregation.RowMeaning | crates/laminar-db/src/aggregate_state.rs:640-750 | on a projected row the mask is true exactly when FILTER is, then the columns are the arguments, and otherwise they are null |
| PreAggregation.EvaluateExact | crates/laminar-db/src/aggregate_state.rs:1476-1517 | evaluation fails exactly on a WHERE that is not boolean, and otherwise yields the projections of the rows for which WHERE is true, unknown excluded, one for each and in order |
| PreAggregation.CompiledIsDirect | crates/laminar-db/src/aggregate_state.rs:1476-1517 | masked accumulation over the compiled projection equals evaluating the aggregate directly on the rows of the group for which WHERE and FILTER are true, false and null excluded |
| AggregateState.ColumnwiseIsRowwise | crates/laminar-db/src/aggregate_state.rs:974-1001 | gathering and masking the input columns one by one feeds an accumulator exactly its masked rows |
| AggregateState.UpdateGroupAccumulators | crates/laminar-db/src/aggregate_state.rs:966-1005 | every accumulator of the group takes exactly the masked arguments of the chosen rows, in order and each once |
| AggregateState.GroupIndices | crates/laminar-db/src/aggregate_state.rs:897-906 | the indices collected for a key are exactly its rows, in order |
| AggregateState.GroupKept | crates/laminar-db/src/aggregate_state.rs:1118-1183 | a group comes back from a checkpoint unchanged exactly when the state of each of its accumulators is readable and its widened form merges to the same accumulator |
| AggregateState.GroupCombines | crates/laminar-db/src/core_window_state.rs:907-950 | if combining two accumulators is taking the rows of both for every aggregate, it is so for a group |
| AggregateState.IncrementalAggState.ProcessBatch | crates/laminar-db/src/aggregate_state.rs:869-934 | the table changes as feeding each group of the batch once, in some order, under the cap |
| AggregateState.IncrementalAggState.ProcessBatchNoGroups | crates/laminar-db/src/aggregate_state.rs:937-950 | without GROUP BY all rows go to the empty key and no cap applies |
| AggregateState.IncrementalAggState.CheckpointGroups | crates/laminar-db/src/aggregate_state.rs:1118-1138 | the checkpoint lists every group once, with encoded states |
| AggregateState.IncrementalAggState.RestoreGroups | crates/laminar-db/src/aggregate_state.rs:1146-1183 | a fingerprint mismatch changes nothing; otherwise the groups are rebuilt, a key or state that cannot be read leaves those before it, and the operator can go on whatever the checkpoint |
| AggregateState.AccumulatorsMeanQuery | crates/laminar-db/src/aggregate_state.rs:563-1183 | for every query, batch sequence and hash order, survived restarts included, an accumulator of a group in the table has taken, from empty, exactly the arguments of its aggregate on all source rows of the group that pass WHERE and FILTER, in order and each once |
| CountAndSum.CountsAndSums | crates/laminar-db/src/aggregate_state.rs:563-1183 | for a query with COUNT(*) and a filtered SUM, over every run, a group in the table holds the number of its source rows whose WHERE cell is true and the sum of the argument cells of those whose FILTER cell is true as well |
| CountAndSum.QuerySurvives | crates/laminar-db/src/aggregate_state.rs:1118-1183 | for that query a restart is survived exactly when every key is wide |
| GroupRuns.RunNoPartial | crates/laminar-db/src/aggregate_state.rs:908-931 | over every batch sequence and hash order, a group present has all rows since the start, the cap is never exceeded, and a group is absent only when the table is full |
| GroupRuns.RunGroupBy | crates/laminar-db/src/aggregate_state.rs:869-934 | the table is the group-by of all rows exactly when the distinct keys fit the cap |
| GroupRuns.CutsIrrelevant | crates/laminar-db/src/aggregate_state.rs:869-934 | below the cap, the cut into batches, single rows included, and the hash order make no difference |
| AsofJoin.BestTimeClosest | crates/laminar-db/src/asof_batch.rs:241-280 | the lookup finds the closest eligible timestamp, backward winning ties, and misses only when there is none, for all three directions |
| AsofJoin.ToleranceCommutes | crates/laminar-db/src/asof_batch.rs:235-294 | testing tolerance after the lookup equals looking up among the timestamps within tolerance |
| AsofJoin.BuildIndex | crates/laminar-db/src/asof_batch.rs:146-170 | the index holds exactly the right rows with a key, by hash and timestamp, in row order, and no empty entry |
| AsofJoin.Scan | crates/laminar-db/src/asof_batch.rs:100-107 | the nested loop's inner loop finds the unbeaten candidate with the lowest row number, or there is none |
| AsofJoin.VerifyKeys | crates/laminar-db/src/asof_batch.rs:196-205 | the first candidate with the left key is taken |
| AsofJoin.MatchRow | crates/laminar-db/src/asof_batch.rs:193-206 | lookup through the index gives the specified answer |
| AsofJoin.JoinRows | crates/laminar-db/src/asof_batch.rs:146-221 | the loop over the left rows gives the output rows for the answers found, null keys included |
| AsofJoin.LookupSound | crates/laminar-db/src/asof_batch.rs:193-206 | whatever the hash, an answer has the left key, an eligible direction and the tolerance |
| AsofJoin.LookupExact | crates/laminar-db/src/asof_batch.rs:193-206 | the answer equals the nested loop's exactly when no eligible row of a colliding key beats every candidate; otherwise the match is lost |
| AsofJoin.CollisionLosesMatch | crates/laminar-db/src/asof_batch.rs:193-206 | any two keys with one hash lose a match to a nearer row of the other key |
| AsofJoin.Execute | crates/laminar-db/src/asof_batch.rs:108-231 | without a left batch the result is empty; unreadable columns are an error exactly for the left side, and for the right side if it has rows; otherwise every output pair has set key cells of one type with the same content and stored times within direction and tolerance, a null key is kept unmatched by a Left join and left out by an Inner one, and with a hash that tells keys apart every row with a match is paired with the closest |
| AsofJoin.ReadableExact | crates/laminar-db/src/asof_batch.rs:69-98 | a batch with rows can be read exactly when every row has a key cell, null or not, and a timestamp cell |
| AsofJoin.EmitOrdered | crates/laminar-db/src/asof_batch.rs:183-221 | output rows keep the order of the left rows, carry exactly the answers found, and miss none the join type keeps |
| AsofJoin.JoinExact | crates/laminar-db/src/asof_batch.rs:146-231 | the join equals the nested loop exactly when no left row is shadowed by a collision |
| AsofJoin.JoinCorrect | crates/laminar-db/src/asof_batch.rs:146-231 | with a hash that separates the keys present, the join is the nested loop |
| AsofJoin.JoinSound | crates/laminar-db/src/asof_batch.rs:182-221 | whatever the hash, every pair is a candidate, left rows stay in order, and a Left join has each left row once |
| CheckpointProtocol.CommitAfterDecision | crates/laminar-db/src/checkpoint_coordinator.rs:1021-1138 | in every run a commit goes out only after every exactly-once sink pre-committed the epoch and a manifest for it was confirmed, in the same attempt, and that attempt rolls nothing back |
| CheckpointProtocol.CommitAfterOwnManifest | crates/laminar-db/src/checkpoint_coordinator.rs:1108-1138 | in every run, when a commit goes out the record in the store is the attempt's own decision, every exactly-once sink pending, exactly when the attempt's save wrote and neither a late write of that id nor a prune has come since |
| CheckpointProtocol.SavedOwnManifest | crates/laminar-db/src/checkpoint_coordinator.rs:1108-1138 | in every run a commit follows one confirmed save of its attempt, and the manifest stored then is the attempt's own exactly when that save wrote; otherwise an earlier attempt wrote it |
| CheckpointProtocol.CommitsSentOnce | crates/laminar-db/src/checkpoint_coordinator.rs:654-674 | in every run an attempt sends a sink its commit at most once, and in the order of the sinks |
| CheckpointProtocol.ManifestsNeverOverclaim | crates/laminar-db/src/checkpoint_coordinator.rs:1136-1153 | in every run a manifest, stored or still on its way, that records a sink as committed is right: the sink committed that epoch as asked by the attempt that wrote the manifest |
| CheckpointProtocol.IdsAreEpochs | crates/laminar-db/src/checkpoint_coordinator.rs:284-287 | in every run from an empty store, id equals epoch in the coordinator and in every manifest, and the epoch is the starting epoch plus the completed checkpoints |
| CheckpointProtocol.EpochsCountCompletions | crates/laminar-db/src/checkpoint_coordinator.rs:1183-1187 | between starts and recoveries epochs advance by completed checkpoints and by nothing else |
| CheckpointProtocol.SuccessMeansCommitted | crates/laminar-db/src/checkpoint_coordinator.rs:1136-1187 | in every run a step that completes a checkpoint comes after a real commit of every exactly-once sink in that attempt, if their names are distinct |
| CheckpointProtocol.FailuresShowExactly | crates/laminar-db/src/checkpoint_coordinator.rs:654-674 | the recorded statuses show every failed commit, whatever the answers, exactly when no two exactly-once sinks share a name |
| CheckpointRecovery.StorableExact | crates/laminar-db/src/checkpoint_coordinator.rs:1136-1153 | the statuses that some run stores are exactly all pending, or those of some commit answers, a timeout counting as refusals |
| CheckpointRecovery.AtomicExact | crates/laminar-db/src/recovery_manager.rs:524-550 | for statuses that can be stored: in every run that stores them all exactly-once sinks of the attempt have committed the epoch or none, if and only if there is at most one, or their names are distinct and all are recorded as committed |
| CheckpointRecovery.UndoExact | crates/laminar-db/src/recovery_manager.rs:524-550 | in every run, with any late commits to come, recovery rolls back no sink that has committed the manifest's epoch if and only if no sink the manifest does not record was sent that epoch's commit |
| CheckpointFailures.RetryKeepsOldRecord | crates/laminar-storage/src/checkpoint_store.rs:863-870 | a retry commits over the manifest of the attempt before, which says that the sink failed |
| CheckpointFailures.LateWriteReplacesRecord | crates/laminar-db/src/checkpoint_coordinator.rs:695-710 | the late write of a save that timed out replaces the retry's own manifest before the retry's commit goes out |
| CheckpointFailures.RecoveryUndoesCommit | crates/laminar-db/src/recovery_manager.rs:524-550 | after a crash between a commit and its record, recovery rolls the committed sink back |
| CheckpointFailures.CrashLeavesHalf | crates/laminar-db/src/recovery_manager.rs:524-550 | with two sinks, after a crash between their commits recovery rolls both back, one having committed and the other never having been asked |
| CheckpointFailures.RecoveryHalfCommitted | crates/laminar-db/src/recovery_manager.rs:524-550 | after one sink commits and another refuses, recovery keeps the first and undoes the second |
| Coordinator.CheckpointCoordinator.constructor | crates/laminar-db/src/checkpoint_coordinator.rs:281-308 | a coordinator starts after any run that ended in a crash, one past the loaded manifest, or at one |
| Coordinator.CheckpointCoordinator.RegisterSink | crates/laminar-db/src/checkpoint_coordinator.rs:311-322 | a sink is added at the end, between attempts |
| Coordinator.CheckpointCoordinator.Meanwhile | crates/laminar-db/src/checkpoint_coordinator.rs:695-710 | late writes, late commits and prunes between calls leave the object in step with the protocol |
| Coordinator.CheckpointCoordinator.PreCommitSinks | crates/laminar-db/src/checkpoint_coordinator.rs:587-615 | phase one succeeds exactly when every exactly-once sink agrees in time, and is a run of the protocol |
| Coordinator.CheckpointCoordinator.CommitSinksInner | crates/laminar-db/src/checkpoint_coordinator.rs:654-674 | every exactly-once sink, or every one up to the timeout, is sent the commit, whatever the others answer, and the statuses are those of the answers |
| Coordinator.CheckpointCoordinator.CommitSinksTracked | crates/laminar-db/src/checkpoint_coordinator.rs:624-651 | a timeout marks every exactly-once sink failed; otherwise the statuses are those of the answers |
| Coordinator.CheckpointCoordinator.RollbackSinks | crates/laminar-db/src/checkpoint_coordinator.rs:776-783 | every exactly-once sink is told to drop the attempt's epoch |
| Coordinator.CheckpointCoordinator.BeginEpochForSinks | crates/laminar-db/src/checkpoint_coordinator.rs:340-363 | the exactly-once sinks open the epoch in order up to the first that refuses, and if one does, exactly those that had opened it close it again |
| Coordinator.CheckpointCoordinator.PrepareAndSave | crates/laminar-db/src/checkpoint_coordinator.rs:1021-1133 | the decision record is reached exactly when all agree, the sidecar fits and the store confirms; a written save stores the attempt's own manifest with every exactly-once sink pending, a failed one leaves it on its way and rolls back every exactly-once sink, and a refused or oversized attempt stores and rolls back nothing |
| Coordinator.CheckpointCoordinator.CommitAndRecord | crates/laminar-db/src/checkpoint_coordinator.rs:1135-1187 | the attempt completes exactly when no recorded status is a failure; with a confirmed rewrite the attempt's own manifest with exactly the final statuses is stored; one counter goes up, and epoch and id move only with it |
| Coordinator.CheckpointCoordinator.Checkpoint | crates/laminar-db/src/checkpoint_coordinator.rs:991-1225 | only a failed log preparation is an error and changes nothing; every result raises exactly one counter and ends at rest; success is decided by the answers alone, with distinct names means every sink confirmed, and opens the next epoch, reported as begun exactly when every exactly-once sink agreed; a failed attempt opens none; the log gains only what the attempt did and then the openings |
| Coordinator.CheckpointCoordinator.Recover | crates/laminar-db/src/checkpoint_coordinator.rs:1239-1262 | epoch and id move one past the manifest found, exactly the exactly-once sinks it does not record as committed are rolled back, and those it does record did commit |
| Coordinator.CheckpointCoordinator.UndoSinks | crates/laminar-db/src/recovery_manager.rs:524-550 | exactly the exactly-once sinks the manifest does not record as committed are rolled back for its epoch, and nothing else happens |
| Coordinator.SuccessExact | crates/laminar-db/src/checkpoint_coordinator.rs:1136-1172 | an attempt that counts as complete had every exactly-once sink confirm, whatever the answers and timeouts, exactly when their names are distinct |
| OperatorStates.PackOperatorStates | crates/laminar-db/src/checkpoint_coordinator.rs:749-773 | for every order and threshold, states up to the threshold are inline, the others are ranges that tile the sidecar without gap or overlap, and there is no sidecar exactly when no state is external |
| OperatorStates.ResolveExternalStates | crates/laminar-db/src/recovery_manager.rs:280-360 | every entry becomes inline, empty when its range is missing, and the result says whether all ranges were there |
| OperatorStates.PackResolve | crates/laminar-storage/src/checkpoint_manifest.rs:483-494 | reading back what was packed recovers every operator's bytes |
| OperatorStates.TruncationDetected | crates/laminar-db/src/recovery_manager.rs:323-358 | a sidecar cut anywhere short of its end is noticed, and entries that still fit are the operators' own bytes |
| Sidecars.OwnSidecarExact | crates/laminar-storage/src/checkpoint_store.rs:353-369 | in every run the sidecar stored beside a manifest is that of the attempt that wrote the manifest exactly when no other attempt's sidecar and no prune of that id came after it |
| Sidecars.RecoveredStates | crates/laminar-storage/src/checkpoint_store.rs:353-369 | recovery from such a manifest gives every operator the bytes the manifest's own attempt saved for it |
| Sidecars.RetryDisplacesSidecar | crates/laminar-storage/src/checkpoint_store.rs:1010-1019 | a retry whose save keeps the earlier manifest leaves its own sidecar beside it |
| BatchFilter.FilterPartitions | crates/laminar-db/src/batch_filter.rs:27-146 | at one cut every row with a timestamp is on exactly one side and null timestamps on neither, in every unit and under saturation |
| BatchFilter.NoBatchExact | crates/laminar-db/src/batch_filter.rs:140-145 | no batch comes out exactly when no row stays |
| BatchFilter.UnfilteredWhole | crates/laminar-db/src/batch_filter.rs:40-61 | a column the filter cannot read comes out whole and in order |
| BatchFilter.PositionsOrdered | crates/laminar-db/src/batch_filter.rs:140-145 | rows that stay keep their order |
| BatchFilter.KeptOnTimeExact | crates/laminar-db/src/batch_filter.rs:57-133 | for each unit, the watermarks at which no kept row is behind the watermark, exactly |
| BatchFilter.KeptRowOpen | crates/laminar-db/src/batch_filter.rs:57-133 | at those watermarks a kept row never lands in a window already expired |
| BatchFilter.SecondRowExact | crates/laminar-db/src/batch_filter.rs:74-86 | some watermark keeps a second-valued row and has its window expired exactly when the window ends, lateness included, less than a second after the row |
| BatchFilter.SecondAlignedOpen | crates/laminar-db/src/batch_filter.rs:74-86 | windows that end on a second keep the promise for second columns at every watermark |
| BatchFilter.SessionEdgeExact | crates/laminar-db/src/db.rs:134-147 | for every format, the filter delivers the strict bound sessions need exactly when the earliest event time it keeps is above the watermark less the lateness |
| BatchFilter.SessionEdgeByFormat | crates/laminar-db/src/batch_filter.rs:57-133 | that takes any positive lateness in millisecond columns and finer ones whose threshold does not saturate, and a lateness above the watermark's part of a second in second columns |
| BatchFilter.SecondEdgeKept | crates/laminar-db/src/batch_filter.rs:74-86 | a second column keeps a row exactly at the watermark less a positive lateness |
| SnapshotRing.RunFormed | crates/laminar-db/src/catalog.rs:48-62 | in every interleaving a slot holds one of its own tickets, already written, or nothing |
| SnapshotRing.SlotsAreLastWrites | crates/laminar-db/src/catalog.rs:58-62 | in every interleaving a slot holds the last ticket written to it |
| SnapshotRing.Snapshot | crates/laminar-db/src/catalog.rs:64-81 | a snapshot is the batches of the tickets read, oldest first, and all batches issued or the last ones, one for each slot, when those are the last tickets |
| SnapshotRing.RingExact | crates/laminar-db/src/catalog.rs:58-81 | in every interleaving a snapshot reads exactly the last tickets, as many as were issued or as there are slots, in order, if and only if the last write to the slot of each ticket of the last lap is that ticket's own |
| SnapshotRing.InTurnIsRight | crates/laminar-db/src/catalog.rs:58-81 | with no write outstanding and no write over a newer ticket, a snapshot reads exactly the last tickets |
| SnapshotRing.QuietRing | crates/laminar-db/src/catalog.rs:58-81 | when a ticket is taken only after the one a lap earlier was written and no write is outstanding, a snapshot is all batches issued, or the last ones, one for each slot |
| SnapshotRing.SlowWriterLoses | crates/laminar-db/src/catalog.rs:58-62 | at every capacity, the first ticket written after the one a lap later leaves a quiet ring that reads wrong |

## Left out

- WindowAssigner.AssignWindows: takes timestamps for which no unchecked addition, subtraction or multiplication leaves the 64-bit range, because the code then panics or wraps, depending on the build.
- FixedOperator.FixedWindowState.UpdateBatch: takes the same timestamps as the assigner, for the same reason.
- FixedOperator.FixedWindowState.CollectBatch: takes the same timestamps as the assigner, for the same reason.
- AsofJoin.BestTimeClosest: subtracts timestamps without a 64-bit limit, because the code's subtraction overflows, or panics in debug builds, only for timestamps 2^63 or more apart.
- AsofJoin.Execute: takes each side as one batch and floats as already cast to integers; concatenating batches of different schemas and building the output columns belong to Arrow.
- PreAggregation.CompiledIsDirect: a WHERE column is taken as not boolean when one of its values is, because static column types belong to the planner.
- Coordinator.CheckpointCoordinator.Recover: takes the manifest recovery settles on; sidecar checksums, strict-mode retries on older manifests and the rollbacks of manifests tried and dropped are not modelled.
- Sidecars.OwnSidecarExact: every attempt is taken to have a sidecar; the manifest of one without refers to none. A stored checksum, which recovery can compare, is not modelled.
- ScalarCodec.RoundTrip: a list whose items come back with different types ends in a panic inside the list library; here it is a failure like the others.
- WindowRestarts.RestartedGroupBy: a restart restores the state saved just before it; rows replayed from a source after an older checkpoint are the source's part.
- Errors of accumulators while rows are fed or sessions are combined in memory: they end the query's cycle.
- Order-sensitive aggregates in session windows, since session accumulators are taken to depend on the multiset of their rows.
- Log preparation and truncation, changelog drainers, metrics and the adaptive interval: no bearing on the protocol beyond success or failure.
- The duration histogram, output schemas, HAVING, post-aggregate projection and the text of the pre-aggregation SQL: only easy facts, or text whose parser is elsewhere.
- Snapshots of the ring that overlap a push: a snapshot here reads all slots at one instant, between any two steps of the pushes.
- DDL, connectors, catalogs other than the ring, configuration and error codes.
