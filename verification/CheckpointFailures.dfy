/** Runs of the checkpoint protocol that break what it sets out to do: commits over a record that
    is not the attempt's own, a recovery that rolls a committed sink back, and recoveries that
    leave an epoch half committed. */
module CheckpointFailures {
  import opened ScalarValues
  import opened CheckpointProtocol
  import opened CheckpointRuns
  import opened CheckpointRecovery

  // ----- Records that are not the attempt's own ---------------------------------------------------------

  lemma RefusedStatuses(sink: Sink)
    requires sink.exactlyOnce
    ensures StatusesOf([sink], [false]) == map[sink.name := Failed] && AnyFailed(map[sink.name := Failed])
  {
    assert [false][..0] == [];
    assert sink.name in map[sink.name := Failed];
  }

  lemma SendFirst(acts: seq<Action>, s: State)
    requires Exec(acts) == Some(s) && s.phase == Committing([], false) && s.sinks != [] && s.sinks[0].exactlyOnce
    ensures Exec(acts + [CommitSend]) ==
            Some(Logged(s.(phase := Committing([], true)), CommitSent(s.attempt, s.epoch, 0, s.sinks)))
  {
    Then(acts, s, CommitSend, Logged(s.(phase := Committing([], true)), CommitSent(s.attempt, s.epoch, 0, s.sinks)));
  }

  /** The first attempt's commit is refused and recorded as failed; the retry's save is confirmed
      by a store that keeps what it finds. */
  function Retry(sink: Sink): seq<Action> {
    Saves(Finishes(FirstSave([sink]), [sink], [false]), [sink], true)
  }

  lemma RetryRun(sink: Sink) returns (s: State)
    requires sink.exactlyOnce
    ensures Exec(Retry(sink)) == Some(s) && s.phase == Committing([], false) && s.sinks == [sink]
    ensures s.attempt == 2 && s.nextId == 1 && s.epoch == 1
    ensures s.store == map[1 := Manifest(1, [sink], 1, 1, map[sink.name := Failed])]
    ensures EndsWith(s.log, Stowed(2, 1), Saved(2, 1, false, s.store[1]))
  {
    var first := FirstSaved([sink]);
    RefusedStatuses(sink);
    FinishesRun(FirstSave([sink]), first, [false]);
    var acts := Finishes(FirstSave([sink]), [sink], [false]);
    SavesRun(acts, Exec(acts).value, true);
    s := Exec(Retry(sink)).value;
  }

  /** With a store that keeps the manifest it finds, a retry commits over a record that is not its
      own and says that the sink failed. */
  lemma RetryKeepsOldRecord(sink: Sink)
    requires sink.exactlyOnce
    ensures var run := Exec(Retry(sink) + [CommitSend]);
            && run.Some? && CommitSent(2, 1, 0, [sink]) in run.value.log && 1 in run.value.store
            && run.value.store[1] == Manifest(1, [sink], 1, 1, map[sink.name := Failed])
  {
    var s := RetryRun(sink);
    SendFirst(Retry(sink), s);
  }

  /** The first attempt's save times out and the sink is rolled back. */
  function TimedOut(sink: Sink): seq<Action> {
    PreCommits(Registered([sink]), [sink], 1) + [PreCommitDone] + [Stow] + [SaveFails] + [RollBackSink] + [RollBackDone]
  }

  lemma SaveFailsRun(acts: seq<Action>, s: State)
    requires Exec(acts) == Some(s) && s.phase == PreCommitting(1) && |s.sinks| == 1 && s.sinks[0].exactlyOnce
    ensures var run := Exec(acts + [PreCommitDone] + [Stow] + [SaveFails]);
            && run.Some? && Stowed(s.attempt, s.nextId) in run.value.log
            && run.value == s.(phase := RollingBack(0), failed := s.failed + 1, log := run.value.log,
                               inFlight := s.inFlight + {Own(s, Uniform(s.sinks, Pending))})
  {
    var s1 := s.(phase := Persisting);
    Then(acts, s, PreCommitDone, s1);
    var s2 := Logged(s1, Stowed(s.attempt, s.nextId));
    Then(acts + [PreCommitDone], s1, Stow, s2);
    Then(acts + [PreCommitDone] + [Stow], s2, SaveFails, Step(s2, SaveFails));
  }

  lemma RollBackRun(acts: seq<Action>, s: State)
    requires Exec(acts) == Some(s) && s.phase == RollingBack(0) && |s.sinks| == 1 && s.sinks[0].exactlyOnce
    ensures Exec(acts + [RollBackSink] + [RollBackDone]) ==
            Some(s.(phase := Idle, log := s.log + [RolledBack(s.attempt, s.epoch, 0)]))
  {
    var s1 := Logged(s.(phase := RollingBack(1)), RolledBack(s.attempt, s.epoch, 0));
    Then(acts, s, RollBackSink, s1);
    Then(acts + [RollBackSink], s1, RollBackDone, s1.(phase := Idle));
  }

  lemma TimedOutRun(sink: Sink) returns (s: State)
    requires sink.exactlyOnce
    ensures Exec(TimedOut(sink)) == Some(s) && s.phase.Idle? && s.sinks == [sink] && s.store == map[]
    ensures s.attempt == 1 && s.nextId == 1 && s.epoch == 1
    ensures s.inFlight == {Decision(1, 1, [sink])} && Stowed(1, 1) in s.log
  {
    RegisteredRun([sink]);
    PreCommitsRun(Registered([sink]), AtRest([sink]), 1);
    var acts := PreCommits(Registered([sink]), [sink], 1);
    SaveFailsRun(acts, Exec(acts).value);
    var acts1 := acts + [PreCommitDone] + [Stow] + [SaveFails];
    var s1 := Exec(acts1).value;
    RollBackRun(acts1, s1);
    s := s1.(phase := Idle, log := s1.log + [RolledBack(s1.attempt, s1.epoch, 0)]);
    assert {} + {Decision(1, 1, [sink])} == {Decision(1, 1, [sink])};
  }

  /** The retry saves its own manifest, and then the late write of the first attempt lands. */
  function Overwritten(sink: Sink): seq<Action> {
    Saves(TimedOut(sink), [sink], false) + [Land(Decision(1, 1, [sink]))]
  }

  /** A late write replaces the record of the retry before its commit goes out, although the
      retry's save wrote. */
  lemma LateWriteReplacesRecord(sink: Sink)
    requires sink.exactlyOnce
    ensures var run := Exec(Overwritten(sink) + [CommitSend]);
            && run.Some? && CommitSent(2, 1, 0, [sink]) in run.value.log
            && Saved(2, 1, true, Decision(2, 1, [sink])) in run.value.log
            && run.value.store == map[1 := Decision(1, 1, [sink])]
  {
    var late := Decision(1, 1, [sink]);
    var s := TimedOutRun(sink);
    SavesRun(TimedOut(sink), s, false);
    var acts := Saves(TimedOut(sink), [sink], false);
    var s1 := Exec(acts).value;
    assert Stowed(1, 1) in s1.log;
    Then(acts, s1, Land(late), Put(s1, late));
    SendFirst(Overwritten(sink), Put(s1, late));
  }

  // ----- Recovery -------------------------------------------------------------------------------------------

  /** The first sink commits and the coordinator crashes before recording it, and comes back. */
  function CommittedAndCrashed(sinks: seq<Sink>): seq<Action>
    requires sinks != []
  {
    Restarts(Commits(FirstSave(sinks), sinks, [true]), 1, sinks)
  }

  lemma CrashedRun(sinks: seq<Sink>) returns (s: State)
    requires sinks != [] && sinks[0].exactlyOnce
    ensures Exec(CommittedAndCrashed(sinks)) == Some(s) && s.phase.Idle? && s.sinks == sinks
    ensures s.store == map[1 := Decision(1, 1, sinks)]
    ensures CommitDone(1, 1, 0, sinks[0].name) in s.log
    ensures forall e | e in s.log && (e.CommitSent? || e.CommitDone?) :: e.sink == 0
  {
    var first := FirstSaved(sinks);
    CommitsRun(FirstSave(sinks), first, [true]);
    var acts := Commits(FirstSave(sinks), sinks, [true]);
    RestartsRun(acts, Exec(acts).value, 1, sinks);
    s := Exec(CommittedAndCrashed(sinks)).value;
  }

  /** A crash between a commit and its record makes recovery roll the committed sink back. */
  lemma RecoveryUndoesCommit(sink: Sink)
    requires sink.exactlyOnce
    ensures var run := Exec(CommittedAndCrashed([sink]) + [UndoSink(1, 0)]);
            run.Some? && CommitDone(1, 1, 0, sink.name) in run.value.log && Undone(1, 0) in run.value.log
  {
    var s := CrashedRun([sink]);
    assert !Records(s.store[1], sink.name) by {
      assert forall name | name in Uniform([sink], Pending) :: Uniform([sink], Pending)[name] == Pending;
    }
    Then(CommittedAndCrashed([sink]), s, UndoSink(1, 0), Logged(s, Undone(1, 0)));
  }

  /** With a second sink the epoch is left half committed: recovery rolls both back, one has
      committed, and the other was never asked to. */
  lemma CrashLeavesHalf(a: Sink, b: Sink)
    requires a.exactlyOnce && b.exactlyOnce
    ensures var run := Exec(CommittedAndCrashed([a, b]));
            && run.Some? && run.value.sinks == [a, b] && 1 in run.value.store
            && Enabled(run.value, UndoSink(1, 0)) && Enabled(run.value, UndoSink(1, 1))
            && CommittedIn(run.value.log, 1, 0, a.name) && !CommittedIn(run.value.log, 1, 1, b.name)
            && forall e | e in run.value.log && e.CommitSent? :: e.sink != 1
  {
    var s := CrashedRun([a, b]);
    forall name ensures !Records(s.store[1], name) {
    }
  }

  /** One sink commits and the next refuses: recovery keeps the first and rolls the second back. */
  lemma RecoveryHalfCommitted(a: Sink, b: Sink)
    requires a.exactlyOnce && b.exactlyOnce && a.name != b.name
    ensures var acts := Finishes(FirstSave([a, b]), [a, b], [true, false]);
            && HalfCommitted(acts, 1, [a, b], map[a.name := Committed, b.name := Failed], 0, 1)
            && Records(Exec(acts).value.store[1], a.name) && !Records(Exec(acts).value.store[1], b.name)
  {
    HalfStatuses(a, b);
    var acts := AnsweredHalf([a, b], [true, false], 0, 1);
  }

  lemma HalfStatuses(a: Sink, b: Sink)
    requires a.exactlyOnce && b.exactlyOnce && a.name != b.name
    ensures var st := StatusesOf([a, b], [true, false]);
            st == map[a.name := Committed, b.name := Failed] && a.name in st && st != map[]
  {
    assert [true, false][..1] == [true] && [true][..0] == [];
    assert StatusesOf([a, b], [true]) == map[a.name := Committed];
  }
}
