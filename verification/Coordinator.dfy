/** The checkpoint coordinator as an object. Every call to a sink or to the store has an outcome
    chosen by its surroundings, passed in as a parameter; a ghost trace ties each method to the
    actions of the protocol, so that whatever holds in every run holds for the object. */
module Coordinator {
  import opened ScalarValues
  import opened ScalarCodec
  import opened CheckpointProtocol

  datatype CheckpointPhase = AtRest | Snapshotting | PreCommit | Persist | Commit

  /** The answer of one call: done, refused, or cut off by the phase's timeout. */
  datatype Reply = Done | Refused | TimedOut

  /** The store's answer to a save. `Kept` is a confirmed save that found a manifest with the
      same id and left it in place; a failed save may have written the sidecar. */
  datatype SaveReply = Written | Kept | NotSaved(stowed: bool)

  /** Outcomes of one attempt's calls, sink by sink. */
  datatype World = World(
    walReady: bool, preCommits: seq<Reply>, save: SaveReply, commits: seq<Reply>,
    updated: bool, begins: seq<bool>)

  datatype CheckpointResult = CheckpointResult(success: bool, checkpointId: nat, epoch: nat, nextBegun: bool)

  predicate AllDone(sinks: seq<Sink>, replies: seq<Reply>)
    requires |replies| == |sinks|
  {
    forall i | 0 <= i < |sinks| && sinks[i].exactlyOnce :: replies[i].Done?
  }

  predicate DoneTo(sinks: seq<Sink>, replies: seq<Reply>, n: nat)
    requires n <= |replies| == |sinks|
  {
    forall i | 0 <= i < n && sinks[i].exactlyOnce :: replies[i].Done?
  }

  lemma DoneMore(sinks: seq<Sink>, replies: seq<Reply>, n: nat)
    requires n < |replies| == |sinks| && DoneTo(sinks, replies, n)
    ensures DoneTo(sinks, replies, n + 1) <==> (sinks[n].exactlyOnce ==> replies[n].Done?)
    ensures sinks[n].exactlyOnce && !replies[n].Done? ==> !AllDone(sinks, replies)
  {
  }

  predicate AnyTimedOut(sinks: seq<Sink>, replies: seq<Reply>)
    requires |replies| == |sinks|
  {
    exists i :: 0 <= i < |sinks| && sinks[i].exactlyOnce && replies[i].TimedOut?
  }

  /** No answer of the first `n` sinks was cut off. */
  predicate InTime(sinks: seq<Sink>, replies: seq<Reply>, n: nat)
    requires n <= |replies| == |sinks|
  {
    forall j | 0 <= j < n && sinks[j].exactlyOnce :: !replies[j].TimedOut?
  }

  lemma InTimeMore(sinks: seq<Sink>, replies: seq<Reply>, n: nat)
    requires n < |replies| == |sinks| && InTime(sinks, replies, n)
    ensures InTime(sinks, replies, n + 1) <==> !(sinks[n].exactlyOnce && replies[n].TimedOut?)
  {
  }

  function Results(sinks: seq<Sink>, replies: seq<Reply>): seq<bool>
    requires |replies| == |sinks|
  {
    seq(|sinks|, i requires 0 <= i < |sinks| => sinks[i].exactlyOnce && replies[i].Done?)
  }

  /** Statuses after the commit phase: a timeout marks every sink failed. */
  function FinalStatuses(sinks: seq<Sink>, replies: seq<Reply>): Statuses
    requires |replies| == |sinks|
  {
    if AnyTimedOut(sinks, replies) then Uniform(sinks, Failed) else StatusesOf(sinks, Results(sinks, replies))
  }

  /** When an attempt succeeds. */
  predicate Succeeds(sinks: seq<Sink>, cap: Option<nat>, sidecarBytes: nat, w: World)
    requires |w.preCommits| == |w.commits| == |sinks|
  {
    && AllDone(sinks, w.preCommits)
    && (cap.Some? ==> sidecarBytes <= cap.value)
    && !w.save.NotSaved?
    && !AnyFailed(FinalStatuses(sinks, w.commits))
  }

  class CheckpointCoordinator {
    const maxCheckpointBytes: Option<nat>
    var sinks: seq<Sink>
    var nextCheckpointId: nat
    var epoch: nat
    var phase: CheckpointPhase
    var completed: nat
    var failed: nat

    ghost var trace: seq<Action>
    ghost var state: State

    /** The object's history is a run of the protocol that ends in `state`. */
    ghost predicate Traced()
      reads this
    {
      Exec(trace) == Some(state)
    }

    ghost predicate Agrees()
      reads this
    {
      && state.sinks == sinks && state.nextId == nextCheckpointId && state.epoch == epoch
      && state.completed == completed && state.failed == failed
    }

    ghost predicate Valid()
      reads this
    {
      Traced() && Agrees() && phase == AtRest && state.phase.Idle?
    }

    /** Start after any run that ended in a crash, or from nothing. `loaded` is what the store
        gives as its latest manifest; an error counts as none. */
    constructor (maxCheckpointBytes: Option<nat>, loaded: Option<Manifest>, ghost past: seq<Action>)
      requires Exec(past).Some? && Exec(past).value.phase.Down?
      requires loaded.Some? ==>
                 loaded.value.id in Exec(past).value.store && Exec(past).value.store[loaded.value.id] == loaded.value
      ensures Valid() && past <= trace && completed == 0 && failed == 0 && sinks == []
      ensures epoch == if loaded.Some? then loaded.value.epoch + 1 else 1
    {
      this.maxCheckpointBytes := maxCheckpointBytes;
      sinks, completed, failed, phase := [], 0, 0, AtRest;
      nextCheckpointId := if loaded.Some? then loaded.value.id + 1 else 1;
      epoch := if loaded.Some? then loaded.value.epoch + 1 else 1;
      trace, state := past, Exec(past).value;
      new;
      Do(Restart(if loaded.Some? then Some(loaded.value.id) else None));
    }

    /** Take one protocol action. */
    ghost method Do(a: Action)
      requires Traced() && Enabled(state, a)
      modifies `trace, `state
      ensures Traced() && trace == old(trace) + [a] && state == Step(old(state), a)
    {
      ExecMore(trace, a);
      trace, state := trace + [a], Step(state, a);
    }

    /** Take an action of the attempt begun after `log`. */
    ghost method DoOwn(a: Action, log: seq<Event>)
      requires Traced() && Enabled(state, a) && OfAttempt(state.attempt, log, state.log) && IsStep(a)
      modifies `trace, `state
      ensures Traced() && trace == old(trace) + [a] && state == Step(old(state), a)
      ensures OfAttempt(state.attempt, log, state.log)
    {
      StepOfAttempt(state, a, log);
      Do(a);
    }

    /** Something happens around the coordinator between two calls: a late write lands, a late
        commit takes effect, an old manifest is pruned. */
    ghost method Meanwhile(a: Action)
      requires Valid() && Enabled(state, a) && (a.Land? || a.LandSidecar? || a.LateCommit? || a.Prune?)
      modifies `trace, `state
      ensures Valid() && trace == old(trace) + [a]
    {
      Do(a);
    }

    method RegisterSink(name: string, exactlyOnce: bool)
      requires Valid()
      modifies `sinks, `trace, `state
      ensures Valid() && old(trace) <= trace && sinks == old(sinks) + [Sink(name, exactlyOnce)]
    {
      sinks := sinks + [Sink(name, exactlyOnce)];
      Do(Register(Sink(name, exactlyOnce)));
    }

    /** Since `before` only the phase has moved and events were added. */
    ghost predicate Through(before: State, start: seq<Action>, p: Phase)
      reads this
    {
      Traced() && start <= trace && state == before.(phase := p, log := state.log)
      && OfAttempt(before.attempt, before.log, state.log)
    }

    ghost method Begun()
      requires Traced() && state.phase.Idle?
      modifies `trace, `state
      ensures Traced() && trace == old(trace) + [Start]
      ensures state == old(state).(phase := PreCommitting(0), attempt := old(state.attempt) + 1)
    {
      Do(Start);
    }

    ghost method PreCommitNext(before: State, start: seq<Action>, i: nat)
      requires Through(before, start, PreCommitting(i)) && i < |before.sinks|
      modifies `trace, `state
      ensures Through(before, start, PreCommitting(i + 1))
    {
      DoOwn(if before.sinks[i].exactlyOnce then PreCommitOk else Skip, before.log);
    }

    /** Phase one: ask every exactly-once sink in turn; the first refusal or the timeout ends it. */
    method PreCommitSinks(replies: seq<Reply>) returns (ok: bool, ghost next: nat)
      requires Traced() && Agrees() && |replies| == |sinks| && state.phase == PreCommitting(0)
      modifies `trace, `state
      ensures Through(old(state), old(trace), PreCommitting(next))
      ensures ok <==> AllDone(sinks, replies)
      ensures ok ==> next == |sinks|
    {
      for i := 0 to |sinks|
        invariant Through(old(state), old(trace), PreCommitting(i))
        invariant DoneTo(sinks, replies, i)
      {
        DoneMore(sinks, replies, i);
        if sinks[i].exactlyOnce && !replies[i].Done? {
          return false, i;
        }
        PreCommitNext(old(state), old(trace), i);
      }
      return true, |sinks|;
    }

    /** The commit of the next sink and its answer, or passing over a sink without one. */
    ghost method CommitNext(before: State, start: seq<Action>, results: seq<bool>, ok: bool)
      requires Through(before, start, Committing(results, false)) && |results| < |before.sinks|
      requires ok ==> before.sinks[|results|].exactlyOnce
      modifies `trace, `state
      ensures Through(before, start, Committing(results + [ok], false))
    {
      if before.sinks[|results|].exactlyOnce {
        DoOwn(CommitSend, before.log);
        DoOwn(if ok then CommitOk else CommitErr, before.log);
      } else {
        DoOwn(Skip, before.log);
      }
    }

    /** A commit that is sent but whose answer the timeout cuts off. */
    ghost method CommitCutOff(before: State, start: seq<Action>, results: seq<bool>)
      requires Through(before, start, Committing(results, false))
      requires |results| < |before.sinks| && before.sinks[|results|].exactlyOnce
      modifies `trace, `state
      ensures Through(before, start, Committing(results, true))
    {
      DoOwn(CommitSend, before.log);
    }

    /** Phase two: commit every exactly-once sink in turn, whatever the others answer, until the
        timeout, if it comes. */
    method CommitSinksInner(replies: seq<Reply>) returns (statuses: Option<Statuses>, ghost results: seq<bool>)
      requires Traced() && Agrees() && |replies| == |sinks| && state.phase == Committing([], false)
      modifies `trace, `state
      ensures statuses.None? <==> AnyTimedOut(sinks, replies)
      ensures Through(old(state), old(trace), Committing(results, statuses.None?))
      ensures statuses.Some? ==>
                results == Results(sinks, replies) && statuses.value == StatusesOf(sinks, results)
      ensures if statuses.Some? then SentTo(state.log, state.attempt, epoch, sinks, |sinks|)
              else |results| < |sinks| && SentTo(state.log, state.attempt, epoch, sinks, |results| + 1)
    {
      var recorded: Statuses := map[];
      ghost var all := Results(sinks, replies);
      for i := 0 to |sinks|
        invariant Through(old(state), old(trace), Committing(all[..i], false))
        invariant recorded == StatusesOf(sinks, all[..i])
        invariant InTime(sinks, replies, i)
      {
        StatusesMore(sinks, all, i);
        InTimeMore(sinks, replies, i);
        if sinks[i].exactlyOnce {
          if replies[i].TimedOut? {
            CommitCutOff(old(state), old(trace), all[..i]);
            CommitsSent(trace, state);
            return None, all[..i];
          }
          recorded := recorded[sinks[i].name := if replies[i].Done? then Committed else Failed];
        }
        CommitNext(old(state), old(trace), all[..i], all[i]);
      }
      assert all[..|sinks|] == all;
      CommitsSent(trace, state);
      return Some(recorded), all;
    }

    /** Statuses to record after phase two; a timeout marks every sink failed, even those that
        had committed. */
    method CommitSinksTracked(replies: seq<Reply>) returns (statuses: Statuses)
      requires Traced() && Agrees() && |replies| == |sinks| && state.phase == Committing([], false)
      modifies `trace, `state
      ensures Traced() && old(trace) <= trace
      ensures statuses == FinalStatuses(sinks, replies)
      ensures state == Decide(old(state).(log := state.log), statuses)
      ensures OfAttempt(state.attempt, old(state.log), state.log)
    {
      var recorded, _ := CommitSinksInner(replies);
      if recorded.Some? {
        statuses := recorded.value;
        Do(CommitAllDone);
      } else {
        statuses := MarkAllFailed();
        Do(CommitTimeout);
      }
    }

    method MarkAllFailed() returns (statuses: Statuses)
      ensures statuses == Uniform(sinks, Failed)
    {
      statuses := map[];
      for i := 0 to |sinks|
        invariant statuses == Uniform(sinks[..i], Failed)
      {
        if sinks[i].exactlyOnce {
          statuses := statuses[sinks[i].name := Failed];
        }
        UniformMore(sinks, i, Failed);
      }
      assert sinks[..|sinks|] == sinks;
    }

    ghost method RollBackNext(before: State, start: seq<Action>, i: nat)
      requires Through(before, start, RollingBack(i)) && i < |before.sinks| && Dropped(before, state.log, i)
      modifies `trace, `state
      ensures Through(before, start, RollingBack(i + 1)) && Dropped(before, state.log, i + 1)
    {
      DoOwn(if before.sinks[i].exactlyOnce then RollBackSink else Skip, before.log);
    }

    /** Tell every exactly-once sink to drop the attempt's epoch. */
    method RollbackSinks()
      requires Traced() && Agrees() && state.phase == RollingBack(0)
      modifies `trace, `state
      ensures Through(old(state), old(trace), Idle)
      ensures Dropped(state, state.log, |sinks|)
    {
      for i := 0 to |sinks|
        invariant Through(old(state), old(trace), RollingBack(i)) && Dropped(old(state), state.log, i)
      {
        RollBackNext(old(state), old(trace), i);
      }
      Do(RollBackDone);
    }

    /** Nothing has changed since `before` but for these events. */
    ghost predicate Added(before: State, start: seq<Action>, events: seq<Event>)
      reads this
    {
      Valid() && start <= trace && state == before.(log := before.log + events)
    }

    ghost method Note(before: State, start: seq<Action>, events: seq<Event>, a: Action, e: Event)
      requires Added(before, start, events) && Enabled(state, a) && Step(state, a) == Logged(state, e)
      modifies `trace, `state
      ensures Added(before, start, events + [e])
    {
      Do(a);
      assert before.log + events + [e] == before.log + (events + [e]);
    }

    /** Open the current epoch on every exactly-once sink; if one refuses, close it again on
        those that had opened it. */
    method BeginEpochForSinks(begins: seq<bool>) returns (ok: bool, ghost events: seq<Event>)
      requires Valid() && |begins| == |sinks|
      modifies `trace, `state
      ensures Added(old(state), old(trace), events)
      ensures ok <==> Willing(sinks, begins, |sinks|)
      ensures Opened(sinks, begins, epoch, events, ok)
    {
      var started: seq<nat> := [];
      assert state.log + [] == state.log;
      for i: nat := 0 to |sinks|
        invariant Added(old(state), old(trace), BeganAll(epoch, started))
        invariant Willing(sinks, begins, i) && Started(sinks, started, i)
      {
        StartedMore(sinks, started, i);
        if sinks[i].exactlyOnce {
          if !begins[i] {
            events := CloseStarted(old(state), old(trace), started);
            OpenedSo(sinks, begins, epoch, events, false, i, started);
            return false, events;
          }
          Note(old(state), old(trace), BeganAll(epoch, started), BeginSink(i), Began(epoch, i));
          BeganMore(epoch, started, i);
          started := started + [i];
        }
      }
      events := BeganAll(epoch, started);
      OpenedSo(sinks, begins, epoch, events, true, |sinks|, started);
      return true, events;
    }

    method CloseStarted(ghost before: State, ghost start: seq<Action>, started: seq<nat>)
      returns (ghost events: seq<Event>)
      requires Added(before, start, BeganAll(epoch, started))
      requires forall k | 0 <= k < |started| :: started[k] < |sinks| && sinks[started[k]].exactlyOnce
      modifies `trace, `state
      ensures Added(before, start, events)
      ensures events == BeganAll(epoch, started) + AbandonedAll(epoch, started)
    {
      ghost var began := BeganAll(epoch, started);
      events := began;
      for k := 0 to |started|
        invariant Added(before, start, events) && events == began + AbandonedAll(epoch, started[..k])
      {
        Note(before, start, events, AbandonSink(started[k]), Abandoned(epoch, started[k]));
        BeganMore(epoch, started[..k], started[k]);
        assert started[..k + 1] == started[..k] + [started[k]];
        events := events + [Abandoned(epoch, started[k])];
      }
      assert started[..|started|] == started;
    }

    /** Begin an attempt and ask for the pre-commits. */
    method Prepare(replies: seq<Reply>) returns (ok: bool)
      requires Traced() && Agrees() && state.phase.Idle? && |replies| == |sinks|
      modifies `trace, `state
      ensures Traced() && Agrees() && old(trace) <= trace
      ensures state.phase.PreCommitting? && (ok <==> AllDone(sinks, replies)) && (ok ==> LoopDone(state))
      ensures state == old(state).(phase := state.phase, attempt := old(state.attempt) + 1, log := state.log)
      ensures OfAttempt(state.attempt, old(state.log), state.log)
    {
      Begun();
      ghost var next;
      ok, next := PreCommitSinks(replies);
    }

    /** Steps up to the decision record. A refusal, a timeout, an oversized sidecar or a failed
        write ends the attempt; only the failed write rolls the sinks back. */
    method PrepareAndSave(w: World, sidecarBytes: nat) returns (saved: bool)
      requires Valid() && |w.preCommits| == |sinks| && (w.save.Kept? ==> nextCheckpointId in state.store)
      modifies `phase, `failed, `trace, `state
      ensures old(trace) <= trace && (saved ==> phase == Persist)
      ensures saved <==> AllDone(sinks, w.preCommits) && Fits(sidecarBytes) && !w.save.NotSaved?
      ensures if saved then Traced() && Agrees() && state.phase == Committing([], false) && failed == old(failed)
              else Valid() && failed == old(failed) + 1
      ensures state.attempt == old(state.attempt) + 1 && OfAttempt(state.attempt, old(state.log), state.log)
      ensures AllDone(sinks, w.preCommits) && Fits(sidecarBytes) && w.save.NotSaved? ==> Dropped(state, state.log, |sinks|)
      ensures if AllDone(sinks, w.preCommits) && Fits(sidecarBytes) then Persists(old(state), w.save)
              else NoneDropped(state.attempt, state.log) && state.store == old(state.store)
    {
      phase := Snapshotting;
      phase := PreCommit;
      var ready := Prepare(w.preCommits);
      ghost var prepared := state.log;
      if !ready {
        GiveUp(PreCommitFails);
        return false;
      }
      if maxCheckpointBytes.Some? && sidecarBytes > maxCheckpointBytes.value {
        GiveUp(SizeRejected);
        return false;
      }
      phase := Persist;
      saved := Save(w.save);
      OfAttemptChain(state.attempt, old(state.log), prepared, state.log);
    }

    /** End an attempt before the decision record; the sinks are left as they are. */
    method GiveUp(ghost a: Action)
      requires Traced() && Agrees() && state.phase.PreCommitting? && Enabled(state, a)
      requires a.PreCommitFails? || a.SizeRejected?
      modifies `phase, `failed, `trace, `state
      ensures Valid() && old(trace) <= trace && failed == old(failed) + 1
      ensures state.attempt == old(state.attempt) && NoneDropped(state.attempt, state.log)
      ensures state.log == old(state.log) && state.store == old(state.store)
    {
      NotYetDropped(trace, state);
      phase, failed := AtRest, failed + 1;
      Do(a);
    }

    /** What a save leaves behind: the attempt's own manifest with every exactly-once sink pending,
        the one found, or the own one still on its way. */
    ghost predicate Persists(before: State, reply: SaveReply)
      reads this
    {
      var own := Manifest(state.attempt, before.sinks, before.nextId, before.epoch, Uniform(before.sinks, Pending));
      match reply
      case Written => state.store == before.store[before.nextId := own] && state.inFlight == before.inFlight
      case Kept => state.store == before.store && state.inFlight == before.inFlight
      case NotSaved(_) => state.store == before.store && state.inFlight == before.inFlight + {own}
    }

    method Save(reply: SaveReply) returns (saved: bool)
      requires Traced() && Agrees() && state.phase.PreCommitting? && LoopDone(state)
      requires reply.Kept? ==> nextCheckpointId in state.store
      modifies `phase, `failed, `trace, `state
      ensures old(trace) <= trace && (saved <==> !reply.NotSaved?) && state.attempt == old(state.attempt)
      ensures OfAttempt(state.attempt, old(state.log), state.log) && Persists(old(state), reply)
      ensures saved ==> phase == old(phase)
      ensures if saved then Traced() && Agrees() && state.phase == Committing([], false) && failed == old(failed)
              else Valid() && failed == old(failed) + 1 && Dropped(state, state.log, |sinks|)
    {
      Persisted(reply);
      if reply.NotSaved? {
        phase, failed := AtRest, failed + 1;
        ghost var persisted := state.log;
        RollbackSinks();
        OfAttemptChain(state.attempt, old(state.log), persisted, state.log);
        return false;
      }
      return true;
    }

    ghost method Persisted(reply: SaveReply)
      requires Traced() && state.phase.PreCommitting? && LoopDone(state)
      requires reply.Kept? ==> state.nextId in state.store
      modifies `trace, `state
      ensures Traced() && old(trace) <= trace && OfAttempt(state.attempt, old(state.log), state.log)
      ensures Persists(old(state), reply)
      ensures state == if reply.NotSaved? then
                         old(state).(phase := RollingBack(0), failed := old(state.failed) + 1,
                                     inFlight := state.inFlight, log := state.log)
                       else old(state).(phase := Committing([], false), store := state.store, log := state.log)
    {
      DoOwn(PreCommitDone, old(state.log));
      if reply.NotSaved? ==> reply.stowed {
        DoOwn(Stow, old(state.log));
      }
      DoOwn(if reply.NotSaved? then SaveFails else SaveOk(reply.Kept?), old(state.log));
    }

    predicate Fits(sidecarBytes: nat) {
      maxCheckpointBytes.Some? ==> sidecarBytes <= maxCheckpointBytes.value
    }

    /** Rewrite the manifest with the final statuses, if there are any. */
    method RecordStatuses(ghost before: State, statuses: Statuses, updated: bool)
      requires Traced() && state == Decide(before, statuses)
      modifies `trace, `state
      ensures Traced() && old(trace) <= trace
      ensures state == Finish(if statuses == map[] then before
                              else if updated then Put(before, Own(before, statuses))
                              else before.(inFlight := before.inFlight + {Own(before, statuses)}), statuses)
    {
      if |statuses| != 0 {
        Do(if updated then UpdateOk else UpdateFails);
      }
    }

    /** What the attempt leaves in the store: its own manifest with the final statuses if there are
        any and the rewrite is confirmed, and otherwise what was there. */
    ghost predicate Recorded(before: State, statuses: Statuses, updated: bool)
      reads this
    {
      if updated && statuses != map[] then
        var m := Manifest(before.attempt, before.sinks, before.nextId, before.epoch, statuses);
        state.store == before.store[before.nextId := m] && state.inFlight == before.inFlight
      else state.store == before.store
    }

    method CommitStep(w: World) returns (statuses: Statuses)
      requires Traced() && Agrees() && state.phase == Committing([], false) && |w.commits| == |sinks|
      modifies `trace, `state
      ensures Traced() && old(trace) <= trace && statuses == FinalStatuses(sinks, w.commits)
      ensures state == Finish(old(state), statuses).(store := state.store, inFlight := state.inFlight, log := state.log)
      ensures Recorded(old(state), statuses, w.updated)
      ensures OfAttempt(state.attempt, old(state.log), state.log)
    {
      statuses := CommitSinksTracked(w.commits);
      RecordStatuses(old(state).(log := state.log), statuses, w.updated);
    }

    /** Commit, record the statuses, and count the attempt. */
    method CommitAndRecord(w: World) returns (success: bool)
      requires Traced() && Agrees() && state.phase == Committing([], false) && |w.commits| == |sinks|
      modifies `phase, `nextCheckpointId, `epoch, `completed, `failed, `trace, `state
      ensures Valid() && old(trace) <= trace
      ensures success <==> !AnyFailed(FinalStatuses(sinks, w.commits))
      ensures Counts(old(epoch), old(nextCheckpointId), old(completed), old(failed), success)
      ensures Recorded(old(state), FinalStatuses(sinks, w.commits), w.updated)
      ensures state.attempt == old(state.attempt) && OfAttempt(state.attempt, old(state.log), state.log)
    {
      phase := Commit;
      var statuses := CommitStep(w);
      var hasFailures := AnyFailed(statuses);
      phase := AtRest;
      if hasFailures {
        failed := failed + 1;
        return false;
      }
      nextCheckpointId, epoch, completed := nextCheckpointId + 1, epoch + 1, completed + 1;
      return true;
    }

    /** Exactly one counter goes up, and epoch and id move only with `completed`. */
    ghost predicate Counts(epoch0: nat, id0: nat, completed0: nat, failed0: nat, success: bool)
      reads this
    {
      if success then
        completed == completed0 + 1 && failed == failed0 && epoch == epoch0 + 1 && nextCheckpointId == id0 + 1
      else
        completed == completed0 && failed == failed0 + 1 && epoch == epoch0 && nextCheckpointId == id0
    }

    /** A full checkpoint attempt. Only a failed log preparation is an error, and changes
        nothing; every other outcome is a result, counted once. */
    method Checkpoint(w: World, sidecarBytes: nat) returns (r: Result<CheckpointResult>, ghost openings: seq<Event>)
      requires Valid() && |w.preCommits| == |w.commits| == |w.begins| == |sinks|
      requires w.save.Kept? ==> nextCheckpointId in state.store
      modifies `phase, `nextCheckpointId, `epoch, `completed, `failed, `trace, `state
      ensures Valid() && old(trace) <= trace
      ensures r.Failure? <==> !w.walReady
      ensures r.Failure? ==> state == old(state)
      ensures r.Success? ==>
                && r.value.checkpointId == old(nextCheckpointId) && r.value.epoch == old(epoch)
                && (r.value.success <==> Succeeds(sinks, maxCheckpointBytes, sidecarBytes, w))
                && Counts(old(epoch), old(nextCheckpointId), old(completed), old(failed), r.value.success)
                && (r.value.success && DistinctNames(sinks) ==> AllDone(sinks, w.commits))
                && (r.value.nextBegun <==>
                      r.value.success && forall i | 0 <= i < |sinks| && sinks[i].exactlyOnce :: w.begins[i])
                && (r.value.nextBegun ==>
                      forall j: nat | j < |sinks| && sinks[j].exactlyOnce :: Began(epoch, j) in state.log)
                && (if r.value.success then Opened(sinks, w.begins, epoch, openings, r.value.nextBegun) else openings == [])
                && Adds(old(state.attempt) + 1, old(state.log), state.log, openings)
                && (AllDone(sinks, w.preCommits) && Fits(sidecarBytes) && !w.save.NotSaved?
                    && w.updated && FinalStatuses(sinks, w.commits) != map[] ==>
                      && r.value.checkpointId in state.store
                      && state.store[r.value.checkpointId] ==
                         Manifest(old(state.attempt) + 1, sinks, r.value.checkpointId, r.value.epoch,
                                  FinalStatuses(sinks, w.commits)))
    {
      if !w.walReady {
        return Failure("log preparation failed"), [];
      }
      var id, current := nextCheckpointId, epoch;
      var saved := PrepareAndSave(w, sidecarBytes);
      assert state.log + [] == state.log;
      if !saved {
        return Success(CheckpointResult(false, id, current, false)), [];
      }
      SuccessExact(sinks);
      ghost var decided := state.log;
      var success := CommitAndRecord(w);
      OfAttemptChain(state.attempt, old(state.log), decided, state.log);
      assert state.log + [] == state.log;
      if !success {
        return Success(CheckpointResult(false, id, current, false)), [];
      }
      var begun;
      begun, openings := BeginEpochForSinks(w.begins);
      if begun {
        OpenedAll(sinks, w.begins, epoch, openings);
      }
      return Success(CheckpointResult(true, id, current, begun)), openings;
    }

    /** Restart from a stored manifest, or from nothing when recovery finds none. Exactly the
        exactly-once sinks that the manifest does not record as committed are rolled back for its
        epoch; those it does record really did commit. */
    method Recover(found: Option<Manifest>) returns (ghost undone: seq<Event>)
      requires Valid()
      requires found.Some? ==> found.value.id in state.store && state.store[found.value.id] == found.value
      modifies `nextCheckpointId, `epoch, `trace, `state
      ensures Valid() && old(trace) <= trace
      ensures found.None? ==> state == old(state)
      ensures found.Some? ==>
                && epoch == found.value.epoch + 1 && nextCheckpointId == found.value.id + 1
                && state.log == old(state.log) + undone && Undoes(found.value, sinks, |sinks|, undone)
                && Truthful(state.log, found.value)
    {
      undone := [];
      if found.None? {
        return;
      }
      var m := found.value;
      undone := UndoSinks(m);
      nextCheckpointId, epoch := m.id + 1, m.epoch + 1;
      Do(CheckpointProtocol.Recover(m.id));
      RecordedAreReal(trace, state, m);
    }

    method UndoSinks(m: Manifest) returns (ghost undone: seq<Event>)
      requires Valid() && m.id in state.store && state.store[m.id] == m
      modifies `trace, `state
      ensures Added(old(state), old(trace), undone) && Undoes(m, sinks, |sinks|, undone)
    {
      undone := [];
      assert state.log + [] == state.log;
      for i := 0 to |sinks|
        invariant Added(old(state), old(trace), undone) && Undoes(m, sinks, i, undone)
      {
        ghost var was := undone;
        if sinks[i].exactlyOnce && !Records(m, sinks[i].name) {
          Note(old(state), old(trace), undone, UndoSink(m.id, i), Undone(m.epoch, i));
          undone := undone + [Undone(m.epoch, i)];
        }
        UndoesMore(m, sinks, i, was);
      }
    }
  }

  /** Of the first `n` sinks, exactly the exactly-once ones not recorded as committed are undone,
      and nothing else happens. */
  ghost predicate Undoes(m: Manifest, sinks: seq<Sink>, n: nat, events: seq<Event>) {
    && (forall e | e in events :: e.Undone? && e.epoch == m.epoch)
    && (forall j: nat :: Undone(m.epoch, j) in events <==>
          j < n && j < |sinks| && sinks[j].exactlyOnce && !Records(m, sinks[j].name))
  }

  lemma UndoesMore(m: Manifest, sinks: seq<Sink>, i: nat, events: seq<Event>)
    requires i < |sinks| && Undoes(m, sinks, i, events)
    ensures Undoes(m, sinks, i + 1,
                   if sinks[i].exactlyOnce && !Records(m, sinks[i].name) then events + [Undone(m.epoch, i)] else events)
  {
  }

  /** Everything added to the log is the attempt's own doing. */
  ghost predicate OfAttempt(attempt: nat, log: seq<Event>, longer: seq<Event>) {
    longer == log ||
    (longer != [] && IsOf(attempt, longer[|longer| - 1]) && OfAttempt(attempt, log, longer[..|longer| - 1]))
  }

  /** An action of the coordinator within an attempt. */
  predicate IsStep(a: Action) {
    match a
    case Start => false
    case Register(_) => false
    case BeginSink(_) => false
    case AbandonSink(_) => false
    case Restart(_) => false
    case UndoSink(_, _) => false
    case Recover(_) => false
    case Crash => false
    case LandSidecar(_) => false
    case Land(_) => false
    case LateCommit(_) => false
    case Prune(_) => false
    case _ => true
  }

  lemma StepOfAttempt(s: State, a: Action, log: seq<Event>)
    requires Enabled(s, a) && OfAttempt(s.attempt, log, s.log) && IsStep(a)
    ensures Step(s, a).attempt == s.attempt && OfAttempt(s.attempt, log, Step(s, a).log)
  {
    var t := Step(s, a);
    if t.log != s.log {
      assert t.log == s.log + [t.log[|s.log|]];
      OfAttemptMore(s.attempt, log, s.log, t.log[|s.log|]);
    }
  }

  lemma OfAttemptMore(attempt: nat, log: seq<Event>, longer: seq<Event>, e: Event)
    requires OfAttempt(attempt, log, longer) && IsOf(attempt, e)
    ensures OfAttempt(attempt, log, longer + [e])
  {
    assert (longer + [e])[..|longer|] == longer;
  }

  lemma {:induction false} OfAttemptChain(attempt: nat, log: seq<Event>, longer: seq<Event>, longest: seq<Event>)
    requires OfAttempt(attempt, log, longer) && OfAttempt(attempt, longer, longest)
    ensures OfAttempt(attempt, log, longest)
    decreases longest
  {
    if longest == longer {
    } else {
      OfAttemptChain(attempt, log, longer, longest[..|longest| - 1]);
    }
  }

  /** What an attempt adds to the log. */
  lemma {:induction false} OfAttemptEvents(attempt: nat, log: seq<Event>, longer: seq<Event>)
    requires OfAttempt(attempt, log, longer)
    ensures log <= longer && forall i | |log| <= i < |longer| :: IsOf(attempt, longer[i])
    decreases longer
  {
    if longer == log {
    } else {
      OfAttemptEvents(attempt, log, longer[..|longer| - 1]);
    }
  }

  predicate IsOf(attempt: nat, e: Event) {
    match e
    case PreCommitted(a, _, _) => a == attempt
    case Stowed(a, _) => a == attempt
    case Saved(a, _, _, _) => a == attempt
    case CommitSent(a, _, _, _) => a == attempt
    case CommitDone(a, _, _, _) => a == attempt
    case RolledBack(a, _, _) => a == attempt
    case _ => false
  }

  /** First the attempt's own events, then these. */
  ghost predicate Adds(attempt: nat, log: seq<Event>, longer: seq<Event>, last: seq<Event>) {
    exists middle: seq<Event> :: OfAttempt(attempt, log, middle) && longer == middle + last
  }

  /** The first `n` sinks were told to drop the epoch of the current attempt. */
  ghost predicate Dropped(s: State, log: seq<Event>, n: nat) {
    forall j: nat | j < n && j < |s.sinks| && s.sinks[j].exactlyOnce :: RolledBack(s.attempt, s.epoch, j) in log
  }

  /** No sink was told to drop the attempt's epoch. */
  ghost predicate NoneDropped(attempt: nat, log: seq<Event>) {
    forall e | e in log && e.RolledBack? :: e.attempt != attempt
  }

  /** In the commit phase, the sinks passed so far were sent the commit. */
  lemma CommitsSent(trace: seq<Action>, state: State)
    requires Exec(trace) == Some(state) && state.phase.Committing?
    ensures var n := |state.phase.results| + if state.phase.sent then 1 else 0;
            n <= |state.sinks| && SentTo(state.log, state.attempt, state.epoch, state.sinks, n)
  {
    RunInv(trace);
  }

  lemma NotYetDropped(trace: seq<Action>, state: State)
    requires Exec(trace) == Some(state) && state.phase.PreCommitting?
    ensures NoneDropped(state.attempt, state.log)
  {
    RunInv(trace);
  }

  lemma RecordedAreReal(trace: seq<Action>, state: State, m: Manifest)
    requires Exec(trace) == Some(state) && m.id in state.store && state.store[m.id] == m
    ensures Truthful(state.log, m)
  {
    RunInv(trace);
    BackedTruthful(state.log, m);
  }

  lemma DoneAreOk(sinks: seq<Sink>, replies: seq<Reply>)
    requires |replies| == |sinks|
    ensures AllDone(sinks, replies) <==> AllOk(sinks, Results(sinks, replies))
  {
  }

  /** An attempt that passes for complete had every exactly-once sink confirm its commit,
      whatever the replies, exactly when no two of them share a name. */
  lemma SuccessExact(sinks: seq<Sink>)
    ensures DistinctNames(sinks) <==>
            forall replies: seq<Reply> | |replies| == |sinks| ::
              !AnyFailed(FinalStatuses(sinks, replies)) ==> AllDone(sinks, replies)
  {
    FailuresShowExactly(sinks);
    if DistinctNames(sinks) {
      forall replies: seq<Reply> | |replies| == |sinks| && !AnyFailed(FinalStatuses(sinks, replies))
        ensures AllDone(sinks, replies)
      {
        if AnyTimedOut(sinks, replies) {
          var i :| 0 <= i < |sinks| && sinks[i].exactlyOnce && replies[i].TimedOut?;
          UniformFails(sinks, i);
        } else {
          DoneAreOk(sinks, replies);
        }
      }
    } else {
      var results: seq<bool> :| |results| == |sinks| && !AnyFailed(StatusesOf(sinks, results)) && !AllOk(sinks, results);
      HiddenReplies(sinks, results);
    }
  }

  lemma HiddenReplies(sinks: seq<Sink>, results: seq<bool>)
    requires |results| == |sinks| && !AnyFailed(StatusesOf(sinks, results)) && !AllOk(sinks, results)
    ensures exists replies: seq<Reply> ::
              |replies| == |sinks| && !AnyFailed(FinalStatuses(sinks, replies)) && !AllDone(sinks, replies)
  {
    var replies := seq(|sinks|, i requires 0 <= i < |sinks| => if results[i] then Done else Refused);
    SameStatuses(sinks, results, Results(sinks, replies));
    assert FinalStatuses(sinks, replies) == StatusesOf(sinks, results);
  }

  /** Events of opening an epoch: the exactly-once sinks open it in order up to the first that
      refuses, and if one does, those that had opened it close it again in the same order. */
  ghost predicate Opened(sinks: seq<Sink>, begins: seq<bool>, epoch: nat, events: seq<Event>, ok: bool) {
    exists n: nat, started: seq<nat> :: OpenedBy(sinks, begins, epoch, events, ok, n, started)
  }

  lemma OpenedSo(sinks: seq<Sink>, begins: seq<bool>, epoch: nat, events: seq<Event>, ok: bool, n: nat,
                 started: seq<nat>)
    requires n <= |sinks| == |begins| && Willing(sinks, begins, n) && Started(sinks, started, n)
    requires if n == |sinks| then ok else !ok && sinks[n].exactlyOnce && !begins[n]
    requires events == if ok then BeganAll(epoch, started) else BeganAll(epoch, started) + AbandonedAll(epoch, started)
    ensures Opened(sinks, begins, epoch, events, ok)
  {
    assert BeganAll(epoch, started) + [] == BeganAll(epoch, started);
    assert OpenedBy(sinks, begins, epoch, events, ok, n, started);
  }

  /** The exactly-once ones of the first `n` sinks agree to begin. */
  predicate Willing(sinks: seq<Sink>, begins: seq<bool>, n: nat)
    requires n <= |sinks| == |begins|
  {
    forall j | 0 <= j < n && sinks[j].exactlyOnce :: begins[j]
  }

  ghost predicate OpenedBy(sinks: seq<Sink>, begins: seq<bool>, epoch: nat, events: seq<Event>, ok: bool, n: nat,
                           started: seq<nat>) {
    && n <= |sinks| == |begins| && Willing(sinks, begins, n)
    && (if n == |sinks| then ok else !ok && sinks[n].exactlyOnce && !begins[n])
    && Started(sinks, started, n)
    && events == BeganAll(epoch, started) + if ok then [] else AbandonedAll(epoch, started)
  }

  ghost function BeganAll(epoch: nat, started: seq<nat>): seq<Event> {
    seq(|started|, k requires 0 <= k < |started| => Began(epoch, started[k]))
  }

  ghost function AbandonedAll(epoch: nat, started: seq<nat>): seq<Event> {
    seq(|started|, k requires 0 <= k < |started| => Abandoned(epoch, started[k]))
  }

  /** `started` are the exactly-once sinks among the first `n`, in order. */
  ghost predicate Started(sinks: seq<Sink>, started: seq<nat>, n: nat) {
    && (forall j: nat :: j in started <==> j < n && j < |sinks| && sinks[j].exactlyOnce)
    && (forall k, m | 0 <= k < m < |started| :: started[k] < started[m])
  }

  lemma StartedMore(sinks: seq<Sink>, started: seq<nat>, i: nat)
    requires Started(sinks, started, i) && i < |sinks|
    ensures Started(sinks, if sinks[i].exactlyOnce then started + [i] else started, i + 1)
    ensures forall k | 0 <= k < |started| :: started[k] < |sinks| && sinks[started[k]].exactlyOnce
  {
    forall k | 0 <= k < |started| ensures started[k] < i && sinks[started[k]].exactlyOnce {
      assert started[k] in started;
    }
  }

  /** An epoch that was opened was opened by every exactly-once sink. */
  lemma OpenedAll(sinks: seq<Sink>, begins: seq<bool>, epoch: nat, events: seq<Event>)
    requires Opened(sinks, begins, epoch, events, true)
    ensures forall j: nat | j < |sinks| && sinks[j].exactlyOnce :: Began(epoch, j) in events
  {
    var n: nat, started: seq<nat> :| OpenedBy(sinks, begins, epoch, events, true, n, started);
    forall j: nat | j < |sinks| && sinks[j].exactlyOnce ensures Began(epoch, j) in events {
      var k :| 0 <= k < |started| && started[k] == j;
      assert events[k] == Began(epoch, j);
    }
  }

  lemma BeganMore(epoch: nat, started: seq<nat>, i: nat)
    ensures BeganAll(epoch, started + [i]) == BeganAll(epoch, started) + [Began(epoch, i)]
    ensures AbandonedAll(epoch, started + [i]) == AbandonedAll(epoch, started) + [Abandoned(epoch, i)]
  {
  }

  lemma StatusesMore(sinks: seq<Sink>, results: seq<bool>, i: nat)
    requires i < |results| <= |sinks|
    ensures results[..i + 1] == results[..i] + [results[i]]
    ensures StatusesOf(sinks, results[..i + 1]) ==
            if sinks[i].exactlyOnce then
              StatusesOf(sinks, results[..i])[sinks[i].name := if results[i] then Committed else Failed]
            else StatusesOf(sinks, results[..i])
  {
    assert results[..i + 1][..i] == results[..i];
  }
}
