/** Building blocks of runs: what a coordinator started from nothing can reach, for any sinks and
    any commit answers. */
module CheckpointRuns {
  import opened Collections
  import opened ScalarValues
  import opened CheckpointProtocol

  lemma Then(acts: seq<Action>, s: State, a: Action, t: State)
    requires Exec(acts) == Some(s) && Enabled(s, a) && t == Step(s, a)
    ensures Exec(acts + [a]) == Some(t)
  {
    ExecMore(acts, a);
  }

  // ----- Start ----------------------------------------------------------------------------------------

  /** Start from nothing and register the sinks. */
  function Registered(sinks: seq<Sink>): seq<Action> {
    if sinks == [] then [Restart(None)] else Registered(sinks[..|sinks| - 1]) + [Register(sinks[|sinks| - 1])]
  }

  function AtRest(sinks: seq<Sink>): State {
    INITIAL.(phase := Idle, sinks := sinks)
  }

  lemma RegisterRun(acts: seq<Action>, s: State, sink: Sink)
    requires Exec(acts) == Some(s) && s.phase.Idle?
    ensures Exec(acts + [Register(sink)]) == Some(s.(sinks := s.sinks + [sink]))
  {
    Then(acts, s, Register(sink), s.(sinks := s.sinks + [sink]));
  }

  lemma {:induction false} RegisteredRun(sinks: seq<Sink>)
    ensures Exec(Registered(sinks)) == Some(AtRest(sinks))
  {
    if sinks == [] {
      assert Resume(INITIAL, None) == AtRest([]);
      Then([], INITIAL, Restart(None), AtRest([]));
      assert [] + [Restart(None)] == [Restart(None)];
    } else {
      var init, last := sinks[..|sinks| - 1], sinks[|sinks| - 1];
      RegisteredRun(init);
      SplitLast(sinks);
      RegisterRun(Registered(init), AtRest(init), last);
    }
  }

  /** Register the sinks again, in a coordinator that has none. */
  function Reregistered(acts: seq<Action>, sinks: seq<Sink>): seq<Action> {
    if sinks == [] then acts else Reregistered(acts, sinks[..|sinks| - 1]) + [Register(sinks[|sinks| - 1])]
  }

  lemma {:induction false} ReregisteredRun(acts: seq<Action>, s: State, sinks: seq<Sink>)
    requires Exec(acts) == Some(s) && s.phase.Idle? && s.sinks == []
    ensures Exec(Reregistered(acts, sinks)) == Some(s.(sinks := sinks))
  {
    if sinks == [] {
      assert s.(sinks := []) == s;
    } else {
      var init, last := sinks[..|sinks| - 1], sinks[|sinks| - 1];
      ReregisteredRun(acts, s, init);
      SplitLast(sinks);
      RegisterRun(Reregistered(acts, init), s.(sinks := init), last);
    }
  }

  // ----- An attempt up to its decision record ---------------------------------------------------------

  /** Nothing about commits was added to the log. */
  ghost predicate NoCommits(log: seq<Event>, longer: seq<Event>) {
    log <= longer && forall e | e in longer :: e in log || !(e.CommitSent? || e.CommitDone?)
  }

  /** Begin an attempt in which the first `n` sinks pre-commit. */
  function PreCommits(acts: seq<Action>, sinks: seq<Sink>, n: nat): seq<Action>
    requires n <= |sinks|
  {
    if n == 0 then acts + [Start]
    else PreCommits(acts, sinks, n - 1) + [if sinks[n - 1].exactlyOnce then PreCommitOk else Skip]
  }

  /** The run has taken `s` through the pre-commits of the first `n` sinks. */
  ghost predicate PreCommitsTo(s: State, run: Option<State>, n: nat) {
    && run.Some? && NoCommits(s.log, run.value.log)
    && run.value == s.(phase := PreCommitting(n), attempt := s.attempt + 1, log := run.value.log)
  }

  lemma {:induction false} PreCommitsRun(acts: seq<Action>, s: State, n: nat)
    requires Exec(acts) == Some(s) && s.phase.Idle? && n <= |s.sinks|
    ensures PreCommitsTo(s, Exec(PreCommits(acts, s.sinks, n)), n)
  {
    if n == 0 {
      Then(acts, s, Start, s.(phase := PreCommitting(0), attempt := s.attempt + 1));
    } else {
      PreCommitsRun(acts, s, n - 1);
      PreCommitNext(s, PreCommits(acts, s.sinks, n - 1), n - 1);
    }
  }

  lemma PreCommitNext(s: State, acts: seq<Action>, n: nat)
    requires PreCommitsTo(s, Exec(acts), n) && n < |s.sinks|
    ensures PreCommitsTo(s, Exec(acts + [if s.sinks[n].exactlyOnce then PreCommitOk else Skip]), n + 1)
  {
    var t := Exec(acts).value;
    if s.sinks[n].exactlyOnce {
      Then(acts, t, PreCommitOk, Logged(t.(phase := PreCommitting(n + 1)), PreCommitted(t.attempt, t.epoch, n)));
    } else {
      Then(acts, t, Skip, t.(phase := PreCommitting(n + 1)));
    }
  }

  /** An attempt up to a confirmed save. */
  function Saves(acts: seq<Action>, sinks: seq<Sink>, kept: bool): seq<Action> {
    PreCommits(acts, sinks, |sinks|) + [PreCommitDone] + [Stow] + [SaveOk(kept)]
  }

  ghost predicate EndsWith(log: seq<Event>, e: Event, f: Event) {
    |log| >= 2 && log[|log| - 2] == e && log[|log| - 1] == f
  }

  /** The manifest in the store after the save. */
  function Stored(s: State, kept: bool): Manifest
    requires kept ==> s.nextId in s.store
  {
    if kept then s.store[s.nextId]
    else Manifest(s.attempt + 1, s.sinks, s.nextId, s.epoch, Uniform(s.sinks, Pending))
  }

  lemma SavesRun(acts: seq<Action>, s: State, kept: bool)
    requires Exec(acts) == Some(s) && s.phase.Idle? && (kept ==> s.nextId in s.store)
    ensures var run := Exec(Saves(acts, s.sinks, kept));
            && run.Some? && NoCommits(s.log, run.value.log)
            && EndsWith(run.value.log, Stowed(s.attempt + 1, s.nextId), Saved(s.attempt + 1, s.epoch, !kept, Stored(s, kept)))
            && run.value == s.(phase := Committing([], false), attempt := s.attempt + 1,
                               store := s.store[s.nextId := Stored(s, kept)], log := run.value.log)
  {
    PreCommitsRun(acts, s, |s.sinks|);
    var acts1 := PreCommits(acts, s.sinks, |s.sinks|);
    var s1 := Exec(acts1).value;
    assert Stored(s, kept) == if kept then s1.store[s1.nextId] else Own(s1, Uniform(s1.sinks, Pending));
    DecideRun(acts1, s1, kept);
    NoCommitsMore(s.log, s1.log, Exec(Saves(acts, s.sinks, kept)).value.log);
  }

  lemma NoCommitsMore(log: seq<Event>, longer: seq<Event>, longest: seq<Event>)
    requires NoCommits(log, longer) && NoCommits(longer, longest)
    ensures NoCommits(log, longest)
  {
  }

  lemma DecideRun(acts: seq<Action>, s: State, kept: bool)
    requires Exec(acts) == Some(s) && s.phase.PreCommitting? && LoopDone(s) && (kept ==> s.nextId in s.store)
    ensures var stored := if kept then s.store[s.nextId] else Own(s, Uniform(s.sinks, Pending));
            var run := Exec(acts + [PreCommitDone] + [Stow] + [SaveOk(kept)]);
            && run.Some? && NoCommits(s.log, run.value.log)
            && EndsWith(run.value.log, Stowed(s.attempt, s.nextId), Saved(s.attempt, s.epoch, !kept, stored))
            && run.value ==
               s.(phase := Committing([], false), store := s.store[s.nextId := stored], log := run.value.log)
  {
    var s1 := s.(phase := Persisting);
    Then(acts, s, PreCommitDone, s1);
    SaveRun(acts + [PreCommitDone], s1, kept);
  }

  lemma SaveRun(acts: seq<Action>, s: State, kept: bool)
    requires Exec(acts) == Some(s) && s.phase.Persisting? && (kept ==> s.nextId in s.store)
    ensures var stored := if kept then s.store[s.nextId] else Own(s, Uniform(s.sinks, Pending));
            Exec(acts + [Stow] + [SaveOk(kept)]) ==
            Some(s.(phase := Committing([], false), store := s.store[s.nextId := stored],
                    log := s.log + [Stowed(s.attempt, s.nextId)] + [Saved(s.attempt, s.epoch, !kept, stored)]))
  {
    var s1 := Logged(s, Stowed(s.attempt, s.nextId));
    Then(acts, s, Stow, s1);
    Then(acts + [Stow], s1, SaveOk(kept), Step(s1, SaveOk(kept)));
  }

  // ----- Commits ----------------------------------------------------------------------------------------

  /** Ask sink after sink to commit, with these answers. */
  function Commits(acts: seq<Action>, sinks: seq<Sink>, results: seq<bool>): seq<Action>
    requires |results| <= |sinks|
  {
    if results == [] then acts
    else
      var n := |results| - 1;
      Answered(Commits(acts, sinks, results[..n]), sinks[n], results[n])
  }

  function Answered(acts: seq<Action>, sink: Sink, ok: bool): seq<Action> {
    if sink.exactlyOnce then acts + [CommitSend] + [if ok then CommitOk else CommitErr] else acts + [Skip]
  }

  /** Sinks that are not exactly-once give no answer. */
  ghost predicate Answers(sinks: seq<Sink>, results: seq<bool>) {
    |results| <= |sinks| && forall j | 0 <= j < |results| && results[j] :: sinks[j].exactlyOnce
  }

  /** Since `before`, exactly these sinks were sent the commit, and exactly those that agreed
      committed. */
  ghost predicate CommitsAdded(s: State, before: seq<Event>, log: seq<Event>, results: seq<bool>) {
    && |results| <= |s.sinks| && before <= log
    && SentTo(log, s.attempt, s.epoch, s.sinks, |results|)
    && (forall j: nat | j < |results| && results[j] :: CommitDone(s.attempt, s.epoch, j, s.sinks[j].name) in log)
    && (forall e | e in log && e.CommitDone? :: e in before || (e.sink < |results| && results[e.sink]))
    && (forall e | e in log && e.CommitSent? :: e in before || e.sink < |results|)
  }

  lemma {:induction false} CommitsRun(acts: seq<Action>, s: State, results: seq<bool>)
    requires Exec(acts) == Some(s) && s.phase == Committing([], false) && Answers(s.sinks, results)
    ensures var run := Exec(Commits(acts, s.sinks, results));
            && run.Some? && CommitsAdded(s, s.log, run.value.log, results)
            && run.value == s.(phase := Committing(results, false), log := run.value.log)
  {
    if results == [] {
    } else {
      var n := |results| - 1;
      CommitsRun(acts, s, results[..n]);
      var t := Exec(Commits(acts, s.sinks, results[..n])).value;
      AnswerRun(Commits(acts, s.sinks, results[..n]), t, results[n]);
      var log := Exec(Commits(acts, s.sinks, results)).value.log;
      SplitLast(results);
      CommitsMore(s, s.log, t.log, results[..n], results[n], log);
    }
  }

  /** What one answer adds to the log. */
  ghost function AnswerEvents(s: State, n: nat, ok: bool): seq<Event>
    requires n < |s.sinks|
  {
    (if s.sinks[n].exactlyOnce then [CommitSent(s.attempt, s.epoch, n, s.sinks)] else [])
    + if ok then [CommitDone(s.attempt, s.epoch, n, s.sinks[n].name)] else []
  }

  lemma AnswerRun(acts: seq<Action>, s: State, ok: bool)
    requires Exec(acts) == Some(s) && s.phase.Committing? && !s.phase.sent && |s.phase.results| < |s.sinks|
    requires ok ==> s.sinks[|s.phase.results|].exactlyOnce
    ensures var n := |s.phase.results|;
            Exec(Answered(acts, s.sinks[n], ok)) ==
            Some(s.(phase := Committing(s.phase.results + [ok], false), log := s.log + AnswerEvents(s, n, ok)))
  {
    var n := |s.phase.results|;
    if s.sinks[n].exactlyOnce {
      SendRun(acts, s, ok);
    } else {
      assert AnswerEvents(s, n, ok) == [] && s.log + [] == s.log;
      Then(acts, s, Skip, s.(phase := Committing(s.phase.results + [false], false)));
    }
  }

  lemma SendRun(acts: seq<Action>, s: State, ok: bool)
    requires Exec(acts) == Some(s) && s.phase.Committing? && AtSink(s)
    ensures var n := |s.phase.results|;
            Exec(acts + [CommitSend] + [if ok then CommitOk else CommitErr]) ==
            Some(s.(phase := Committing(s.phase.results + [ok], false), log := s.log + AnswerEvents(s, n, ok)))
  {
    var n := |s.phase.results|;
    var s1 := Logged(s.(phase := Committing(s.phase.results, true)), CommitSent(s.attempt, s.epoch, n, s.sinks));
    Then(acts, s, CommitSend, s1);
    var a := if ok then CommitOk else CommitErr;
    Then(acts + [CommitSend], s1, a, Answer(s1, ok));
    assert Answer(s1, ok).log == s.log + AnswerEvents(s, n, ok);
  }

  lemma CommitsMore(s: State, before: seq<Event>, log: seq<Event>, results: seq<bool>, ok: bool, more: seq<Event>)
    requires CommitsAdded(s, before, log, results) && |results| < |s.sinks|
    requires more == log + AnswerEvents(s, |results|, ok)
    ensures CommitsAdded(s, before, more, results + [ok])
  {
    var n := |results|;
    if ok {
      assert CommitDone(s.attempt, s.epoch, n, s.sinks[n].name) in AnswerEvents(s, n, ok);
    }
    if s.sinks[n].exactlyOnce {
      assert AnswerEvents(s, n, ok)[0] == CommitSent(s.attempt, s.epoch, n, s.sinks);
    }
  }

  /** All answers are in and the statuses are written. */
  function Finishes(acts: seq<Action>, sinks: seq<Sink>, results: seq<bool>): seq<Action>
    requires |results| == |sinks|
  {
    Commits(acts, sinks, results) + [CommitAllDone] + [UpdateOk]
  }

  lemma FinishesRun(acts: seq<Action>, s: State, results: seq<bool>)
    requires Exec(acts) == Some(s) && s.phase == Committing([], false)
    requires |results| == |s.sinks| && Answers(s.sinks, results) && StatusesOf(s.sinks, results) != map[]
    ensures var run := Exec(Finishes(acts, s.sinks, results));
            && run.Some? && run.value.phase.Idle? && CommitsAdded(s, s.log, run.value.log, results)
            && run.value.sinks == s.sinks && run.value.attempt == s.attempt
            && run.value.store == s.store[s.nextId := Own(s, StatusesOf(s.sinks, results))]
            && (AnyFailed(StatusesOf(s.sinks, results)) ==> run.value.nextId == s.nextId && run.value.epoch == s.epoch)
  {
    CommitsRun(acts, s, results);
    var acts1 := Commits(acts, s.sinks, results);
    UpdateRun(acts1, Exec(acts1).value);
  }

  lemma UpdateRun(acts: seq<Action>, s: State)
    requires Exec(acts) == Some(s) && s.phase.Committing? && LoopDone(s) && StatusesOf(s.sinks, s.phase.results) != map[]
    ensures var statuses := StatusesOf(s.sinks, s.phase.results);
            Exec(acts + [CommitAllDone] + [UpdateOk]) == Some(Finish(Put(s, Own(s, statuses)), statuses))
  {
    var statuses := StatusesOf(s.sinks, s.phase.results);
    var s1 := s.(phase := Updating(statuses));
    Then(acts, s, CommitAllDone, s1);
    FinishRun(acts + [CommitAllDone], s1, statuses);
    assert Finish(Put(s1, Own(s1, statuses)), statuses) == Finish(Put(s, Own(s, statuses)), statuses);
  }

  lemma FinishRun(acts: seq<Action>, s: State, statuses: Statuses)
    requires Exec(acts) == Some(s) && s.phase == Updating(statuses)
    ensures Exec(acts + [UpdateOk]) == Some(Finish(Put(s, Own(s, statuses)), statuses))
  {
    Then(acts, s, UpdateOk, Finish(Put(s, Own(s, statuses)), statuses));
  }

  // ----- Crash and restart -------------------------------------------------------------------------------

  /** The coordinator dies and comes back from a stored manifest, with the same sinks. */
  function Restarts(acts: seq<Action>, id: nat, sinks: seq<Sink>): seq<Action> {
    Reregistered(acts + [Crash] + [Restart(Some(id))], sinks)
  }

  lemma RestartsRun(acts: seq<Action>, s: State, id: nat, sinks: seq<Sink>)
    requires Exec(acts) == Some(s) && id in s.store
    ensures var run := Exec(Restarts(acts, id, sinks));
            && run.Some? && run.value.phase.Idle? && run.value.sinks == sinks
            && run.value.store == s.store && run.value.log == s.log
  {
    var s1 := s.(phase := Down);
    Then(acts, s, Crash, s1);
    var s2 := Resume(s1.(sinks := [], completed := 0, failed := 0), Some(id));
    Then(acts + [Crash], s1, Restart(Some(id)), s2);
    ReregisteredRun(acts + [Crash] + [Restart(Some(id))], s2, sinks);
  }
}
