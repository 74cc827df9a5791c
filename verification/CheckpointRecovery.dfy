/** What recovering from a manifest makes of its epoch. A commit cannot be taken back: a rollback
    drops only what a sink has not committed. */
module CheckpointRecovery {
  import opened Collections
  import opened ScalarValues
  import opened CheckpointProtocol
  import opened CheckpointRuns

  // ----- Recorded statuses ----------------------------------------------------------------------------

  lemma {:induction false} StatusNames(sinks: seq<Sink>, results: seq<bool>, j: nat)
    requires |results| <= |sinks| && j < |results| && sinks[j].exactlyOnce
    ensures sinks[j].name in StatusesOf(sinks, results)
    decreases |results|
  {
    if j == |results| - 1 {
    } else {
      StatusNames(sinks, results[..|results| - 1], j);
    }
  }

  /** A recorded status is an answer of a sink of that name. */
  lemma {:induction false} StatusAnswer(sinks: seq<Sink>, results: seq<bool>, name: string) returns (j: nat)
    requires |results| <= |sinks| && name in StatusesOf(sinks, results)
    ensures j < |results| && sinks[j].exactlyOnce && sinks[j].name == name
    ensures StatusesOf(sinks, results)[name] == if results[j] then Committed else Failed
    decreases |results|
  {
    j := |results| - 1;
    if sinks[j].exactlyOnce && sinks[j].name == name {
    } else {
      j := StatusAnswer(sinks, results[..j], name);
    }
  }

  /** A refusal of a sink is hidden by a later sink of the same name that agrees. */
  lemma HiddenSame(sinks: seq<Sink>, i: nat, j: nat)
    requires i < j < |sinks| && sinks[i].exactlyOnce && sinks[j].exactlyOnce && sinks[i].name == sinks[j].name
    ensures StatusesOf(sinks, seq(|sinks|, k => k != i)) == StatusesOf(sinks, seq(|sinks|, _ => true))
  {
    var hidden, plain := seq(|sinks|, k => k != i), seq(|sinks|, _ => true);
    var p, q := StatusesOf(sinks, hidden), StatusesOf(sinks, plain);
    forall name ensures name in p <==> name in q {
      if name in p {
        var k := StatusAnswer(sinks, hidden, name);
        StatusNames(sinks, plain, k);
      }
      if name in q {
        var k := StatusAnswer(sinks, plain, name);
        StatusNames(sinks, hidden, k);
      }
    }
    forall name | name in p ensures p[name] == q[name] {
      var k := StatusAnswer(sinks, plain, name);
      if p[name] == Failed {
        HiddenFailure(sinks, hidden, i, j, name);
      } else {
        var m := StatusAnswer(sinks, hidden, name);
      }
    }
  }

  // ----- All or none ----------------------------------------------------------------------------------

  /** The sink has made the epoch permanent, in whatever attempt. */
  ghost predicate CommittedIn(log: seq<Event>, epoch: nat, j: nat, name: string) {
    exists e :: e in log && e.CommitDone? && e.epoch == epoch && e.sink == j && e.name == name
  }

  /** Of the exactly-once sinks of the manifest's attempt, all have committed its epoch or none. */
  ghost predicate AllOrNone(log: seq<Event>, m: Manifest) {
    || (forall j: nat | j < |m.sinks| && m.sinks[j].exactlyOnce :: CommittedIn(log, m.epoch, j, m.sinks[j].name))
    || (forall j: nat | j < |m.sinks| && m.sinks[j].exactlyOnce :: !CommittedIn(log, m.epoch, j, m.sinks[j].name))
  }

  /** The run ends with a coordinator that can recover from such a manifest. */
  ghost predicate Stores(acts: seq<Action>, id: nat, sinks: seq<Sink>, statuses: Statuses) {
    && Exec(acts).Some? && Exec(acts).value.phase.Idle? && id in Exec(acts).value.store
    && Exec(acts).value.store[id].sinks == sinks && Exec(acts).value.store[id].statuses == statuses
  }

  /** Whatever run stored it, recovering from such a manifest finds its epoch whole or absent. */
  ghost predicate Atomic(sinks: seq<Sink>, statuses: Statuses) {
    forall acts: seq<Action>, id: nat | Stores(acts, id, sinks, statuses) ::
      AllOrNone(Exec(acts).value.log, Exec(acts).value.store[id])
  }

  /** The statuses are all pending, or those of commit answers. */
  ghost predicate Storable(sinks: seq<Sink>, statuses: Statuses) {
    || statuses == Uniform(sinks, Pending)
    || exists results: seq<bool> :: |results| == |sinks| && statuses == StatusesOf(sinks, results)
  }

  ghost predicate AtMostOne(sinks: seq<Sink>) {
    forall i: nat, j: nat | i < j < |sinks| :: !(sinks[i].exactlyOnce && sinks[j].exactlyOnce)
  }

  ghost predicate AllRecorded(sinks: seq<Sink>, statuses: Statuses) {
    forall j: nat | j < |sinks| && sinks[j].exactlyOnce ::
      sinks[j].name in statuses && statuses[sinks[j].name] == Committed
  }

  /** In which runs sink `i` has committed and sink `k` has not. */
  ghost predicate HalfCommitted(acts: seq<Action>, id: nat, sinks: seq<Sink>, statuses: Statuses, i: nat, k: nat) {
    && Stores(acts, id, sinks, statuses) && i < |sinks| && k < |sinks|
    && sinks[i].exactlyOnce && sinks[k].exactlyOnce
    && var s := Exec(acts).value;
       && CommittedIn(s.log, s.store[id].epoch, i, sinks[i].name)
       && !CommittedIn(s.log, s.store[id].epoch, k, sinks[k].name)
  }

  /** The answers without those of sinks that give none. */
  function Masked(sinks: seq<Sink>, results: seq<bool>): seq<bool>
    requires |results| == |sinks|
  {
    seq(|sinks|, j requires 0 <= j < |sinks| => sinks[j].exactlyOnce && results[j])
  }

  /** A first attempt up to its decision record. */
  function FirstSave(sinks: seq<Sink>): seq<Action> {
    Saves(Registered(sinks), sinks, false)
  }

  lemma FirstSaved(sinks: seq<Sink>) returns (s: State)
    ensures Exec(FirstSave(sinks)) == Some(s) && s.phase == Committing([], false) && s.sinks == sinks
    ensures s.attempt == 1 && s.nextId == 1 && s.epoch == 1
    ensures s.store == map[1 := Decision(1, 1, sinks)] && NoCommits([], s.log)
  {
    RegisteredRun(sinks);
    SavesRun(Registered(sinks), AtRest(sinks), false);
    s := Exec(FirstSave(sinks)).value;
  }

  /** A crash after the commit of one sink and before that of the next. */
  lemma PendingHalf(sinks: seq<Sink>, i: nat, k: nat) returns (acts: seq<Action>)
    requires i < k < |sinks| && sinks[i].exactlyOnce && sinks[k].exactlyOnce
    ensures HalfCommitted(acts, 1, sinks, Uniform(sinks, Pending), i, k)
  {
    var s := FirstSaved(sinks);
    var results := seq(i + 1, j => j == i);
    CommitsRun(FirstSave(sinks), s, results);
    var acts1 := Commits(FirstSave(sinks), sinks, results);
    RestartsRun(acts1, Exec(acts1).value, 1, sinks);
    acts := Restarts(acts1, 1, sinks);
    var log := Exec(acts).value.log;
    assert results[i] && CommitDone(1, 1, i, sinks[i].name) in log;
  }

  /** One sink agrees and another refuses, and that is recorded. */
  lemma AnsweredHalf(sinks: seq<Sink>, results: seq<bool>, i: nat, k: nat) returns (acts: seq<Action>)
    requires |results| == |sinks| && Answers(sinks, results) && i < |sinks| && k < |sinks|
    requires sinks[i].exactlyOnce && sinks[k].exactlyOnce && results[i] && !results[k]
    ensures acts == Finishes(FirstSave(sinks), sinks, results)
    ensures HalfCommitted(acts, 1, sinks, StatusesOf(sinks, results), i, k)
  {
    var s := FirstSaved(sinks);
    StatusNames(sinks, results, i);
    FinishesRun(FirstSave(sinks), s, results);
    acts := Finishes(FirstSave(sinks), sinks, results);
    assert CommitDone(1, 1, i, sinks[i].name) in Exec(acts).value.log;
  }

  /** All refuse, and one commits later after all. */
  lemma RefusedHalf(sinks: seq<Sink>, i: nat, k: nat) returns (acts: seq<Action>)
    requires i < |sinks| && k < |sinks| && i != k && sinks[i].exactlyOnce && sinks[k].exactlyOnce
    ensures HalfCommitted(acts, 1, sinks, StatusesOf(sinks, seq(|sinks|, _ => false)), i, k)
  {
    var s := FirstSaved(sinks);
    var results := seq(|sinks|, _ => false);
    StatusNames(sinks, results, i);
    FinishesRun(FirstSave(sinks), s, results);
    var acts1 := Finishes(FirstSave(sinks), sinks, results);
    var t := Exec(acts1).value;
    assert CommitSent(1, 1, i, sinks) in t.log;
    var p: nat :| p < |t.log| && t.log[p] == CommitSent(1, 1, i, sinks);
    CommitLate(acts1, t, p);
    acts := acts1 + [LateCommit(p)];
  }

  /** A commit that was sent takes effect. */
  lemma CommitLate(acts: seq<Action>, s: State, p: nat)
    requires Exec(acts) == Some(s) && p < |s.log| && s.log[p].CommitSent? && s.log[p].sink < |s.log[p].sinks|
    ensures var e := s.log[p];
            var done := CommitDone(e.attempt, e.epoch, e.sink, e.sinks[e.sink].name);
            Exec(acts + [LateCommit(p)]) == Some(Logged(s, done)) && done in Logged(s, done).log
  {
    var e := s.log[p];
    Then(acts, s, LateCommit(p), Logged(s, CommitDone(e.attempt, e.epoch, e.sink, e.sinks[e.sink].name)));
  }

  /** If recovery is not sure to find all or none, some run shows it. */
  lemma HalfRun(sinks: seq<Sink>, statuses: Statuses, i: nat, k: nat)
    returns (acts: seq<Action>, committed: nat, missing: nat)
    requires Storable(sinks, statuses) && i < k < |sinks| && sinks[i].exactlyOnce && sinks[k].exactlyOnce
    requires !(DistinctNames(sinks) && AllRecorded(sinks, statuses))
    ensures HalfCommitted(acts, 1, sinks, statuses, committed, missing)
  {
    if statuses == Uniform(sinks, Pending) {
      acts := PendingHalf(sinks, i, k);
      committed, missing := i, k;
    } else {
      var some: seq<bool> :| |some| == |sinks| && statuses == StatusesOf(sinks, some);
      var results := Masked(sinks, some);
      SameStatuses(sinks, results, some);
      if a: nat, b: nat :| a < |sinks| && b < |sinks| && sinks[a].exactlyOnce && sinks[b].exactlyOnce
                           && results[a] && !results[b] {
        acts := AnsweredHalf(sinks, results, a, b);
        committed, missing := a, b;
      } else if results[i] {
        AgreedRecords(sinks, results);
        var a: nat, b: nat :| a < b < |sinks| && sinks[a].exactlyOnce && sinks[b].exactlyOnce
                              && sinks[a].name == sinks[b].name;
        acts := AgreedHalf(sinks, results, a, b);
        committed, missing := b, a;
      } else {
        SameStatuses(sinks, results, seq(|sinks|, _ => false));
        acts := RefusedHalf(sinks, i, k);
        committed, missing := i, k;
      }
    }
  }

  lemma AgreedRecords(sinks: seq<Sink>, results: seq<bool>)
    requires |results| == |sinks| && forall j: nat | j < |sinks| && sinks[j].exactlyOnce :: results[j]
    ensures AllRecorded(sinks, StatusesOf(sinks, results))
  {
    forall j: nat | j < |sinks| && sinks[j].exactlyOnce
      ensures var st := StatusesOf(sinks, results); sinks[j].name in st && st[sinks[j].name] == Committed
    {
      StatusNames(sinks, results, j);
      var k := StatusAnswer(sinks, results, sinks[j].name);
    }
  }

  /** All agree and two share a name: the same statuses come of a run in which the first of the
      two refuses. */
  lemma AgreedHalf(sinks: seq<Sink>, results: seq<bool>, i: nat, j: nat) returns (acts: seq<Action>)
    requires |results| == |sinks| && forall k: nat | k < |sinks| && sinks[k].exactlyOnce :: results[k]
    requires i < j < |sinks| && sinks[i].exactlyOnce && sinks[j].exactlyOnce && sinks[i].name == sinks[j].name
    ensures HalfCommitted(acts, 1, sinks, StatusesOf(sinks, results), j, i)
  {
    var hidden := Masked(sinks, seq(|sinks|, k => k != i));
    HiddenSame(sinks, i, j);
    SameStatuses(sinks, hidden, seq(|sinks|, k => k != i));
    SameStatuses(sinks, results, seq(|sinks|, _ => true));
    acts := AnsweredHalf(sinks, hidden, j, i);
  }

  /** With distinct names, a manifest that records every sink is right about every sink. */
  lemma RecordedAll(log: seq<Event>, m: Manifest)
    requires Backed(log, m) && DistinctNames(m.sinks) && AllRecorded(m.sinks, m.statuses)
    ensures forall j: nat | j < |m.sinks| && m.sinks[j].exactlyOnce :: CommittedIn(log, m.epoch, j, m.sinks[j].name)
  {
    forall j: nat | j < |m.sinks| && m.sinks[j].exactlyOnce ensures CommittedIn(log, m.epoch, j, m.sinks[j].name) {
      if m.statuses != Uniform(m.sinks, Pending) {
        var results: seq<bool> :| Outcome(log, m, results);
        StatusesDistinct(m.sinks, results, j);
        assert CommitDone(m.attempt, m.epoch, j, m.sinks[j].name) in log;
      }
    }
  }

  /** Recovery from statuses as some run can store them finds, in every run that stores them, the
      epoch committed by all exactly-once sinks or by none, if and only if there is at most one
      such sink, or their names are distinct and every one of them is recorded as committed. */
  lemma AtomicExact(sinks: seq<Sink>, statuses: Statuses)
    requires Storable(sinks, statuses)
    ensures Atomic(sinks, statuses) <==> AtMostOne(sinks) || (DistinctNames(sinks) && AllRecorded(sinks, statuses))
  {
    if AtMostOne(sinks) || (DistinctNames(sinks) && AllRecorded(sinks, statuses)) {
      forall acts: seq<Action>, id: nat | Stores(acts, id, sinks, statuses)
        ensures AllOrNone(Exec(acts).value.log, Exec(acts).value.store[id])
      {
        WholeOrAbsent(acts, id, sinks, statuses);
      }
    } else {
      var i: nat, k: nat :| i < k < |sinks| && sinks[i].exactlyOnce && sinks[k].exactlyOnce;
      var acts, committed, missing := HalfRun(sinks, statuses, i, k);
      NeitherAllNorNone(acts, sinks, statuses, committed, missing);
    }
  }

  lemma WholeOrAbsent(acts: seq<Action>, id: nat, sinks: seq<Sink>, statuses: Statuses)
    requires Stores(acts, id, sinks, statuses)
    requires AtMostOne(sinks) || (DistinctNames(sinks) && AllRecorded(sinks, statuses))
    ensures AllOrNone(Exec(acts).value.log, Exec(acts).value.store[id])
  {
    if !AtMostOne(sinks) {
      RunInv(acts);
      RecordedAll(Exec(acts).value.log, Exec(acts).value.store[id]);
    }
  }

  lemma NeitherAllNorNone(acts: seq<Action>, sinks: seq<Sink>, statuses: Statuses, i: nat, k: nat)
    requires HalfCommitted(acts, 1, sinks, statuses, i, k)
    ensures !Atomic(sinks, statuses)
  {
    assert Stores(acts, 1, sinks, statuses);
    assert !AllOrNone(Exec(acts).value.log, Exec(acts).value.store[1]);
  }

  /** These are the statuses that can be found in a store. */
  lemma StorableExact(sinks: seq<Sink>, statuses: Statuses)
    ensures Storable(sinks, statuses) <==> exists acts: seq<Action>, id: nat :: Stores(acts, id, sinks, statuses)
  {
    if acts: seq<Action>, id: nat :| Stores(acts, id, sinks, statuses) {
      RunInv(acts);
      assert Backed(Exec(acts).value.log, Exec(acts).value.store[id]);
    }
    if Storable(sinks, statuses) {
      var acts := StoringRun(sinks, statuses);
      assert Stores(acts, 1, sinks, statuses);
    }
  }

  lemma StoringRun(sinks: seq<Sink>, statuses: Statuses) returns (acts: seq<Action>)
    requires Storable(sinks, statuses)
    ensures Stores(acts, 1, sinks, statuses)
  {
    var s := FirstSaved(sinks);
    if statuses == Uniform(sinks, Pending) {
      RestartsRun(FirstSave(sinks), s, 1, sinks);
      acts := Restarts(FirstSave(sinks), 1, sinks);
    } else {
      var some: seq<bool> :| |some| == |sinks| && statuses == StatusesOf(sinks, some);
      var results := Masked(sinks, some);
      SameStatuses(sinks, results, some);
      if forall j: nat | j < |sinks| :: !sinks[j].exactlyOnce {
        forall name ensures name !in statuses {
          if name in statuses {
            var j := StatusAnswer(sinks, some, name);
          }
        }
        assert false;
      }
      var j: nat :| j < |sinks| && sinks[j].exactlyOnce;
      StatusNames(sinks, results, j);
      FinishesRun(FirstSave(sinks), s, results);
      acts := Finishes(FirstSave(sinks), sinks, results);
    }
  }

  // ----- Rolling back what has committed ----------------------------------------------------------------

  ghost predicate LateOnly(late: seq<Action>) {
    forall i | 0 <= i < |late| :: late[i].LateCommit?
  }

  /** A sink of that name has made the epoch permanent. */
  ghost predicate CommittedAs(log: seq<Event>, epoch: nat, name: string) {
    exists e :: e in log && e.CommitDone? && e.epoch == epoch && e.name == name
  }

  /** A sink of that name was sent the epoch's commit. */
  ghost predicate SentAs(log: seq<Event>, epoch: nat, name: string) {
    exists e :: e in log && e.CommitSent? && e.epoch == epoch && e.sink < |e.sinks| && e.sinks[e.sink].name == name
  }

  /** Late commits change nothing but the log, and send nothing. */
  lemma {:induction false} LateRun(acts: seq<Action>, late: seq<Action>)
    requires Exec(acts + late).Some? && LateOnly(late)
    ensures Exec(acts).Some?
    ensures var s, t := Exec(acts).value, Exec(acts + late).value;
            t == s.(log := t.log) && s.log <= t.log && forall e | e in t.log && e.CommitSent? :: e in s.log
  {
    if late == [] {
      assert acts + late == acts;
    } else {
      var n := |late| - 1;
      assert (acts + late)[..|acts + late| - 1] == acts + late[..n];
      LateRun(acts, late[..n]);
    }
  }

  lemma CommittedWasSent(acts: seq<Action>, epoch: nat, name: string)
    requires Exec(acts).Some? && CommittedAs(Exec(acts).value.log, epoch, name)
    ensures SentAs(Exec(acts).value.log, epoch, name)
  {
    RunInv(acts);
    var log := Exec(acts).value.log;
    var e :| e in log && e.CommitDone? && e.epoch == epoch && e.name == name;
    assert Asked(log, e);
    var f :| f in log && IsRequest(f, e.attempt, e.epoch, e.sink, e.name);
  }

  /** Recovering from the manifest rolls back a sink that has committed its epoch. */
  ghost predicate UndoesCommit(s: State, id: nat, j: nat) {
    && Enabled(s, UndoSink(id, j))
    && CommittedAs(s.log, s.store[id].epoch, s.sinks[j].name)
  }

  /** After these late commits it does. */
  ghost predicate UndoesLate(acts: seq<Action>, late: seq<Action>, id: nat, j: nat) {
    LateOnly(late) && Exec(acts + late).Some? && UndoesCommit(Exec(acts + late).value, id, j)
  }

  /** An exactly-once sink that the manifest does not record was sent the commit of its epoch. */
  ghost predicate Exposed(s: State, id: nat, j: nat) {
    && id in s.store && j < |s.sinks| && s.sinks[j].exactlyOnce && !Records(s.store[id], s.sinks[j].name)
    && SentAs(s.log, s.store[id].epoch, s.sinks[j].name)
  }

  /** In every run, recovering from a stored manifest rolls back no sink that has committed the
      epoch or may still do so late, if and only if no sink that it does not record was sent the
      commit of that epoch. */
  lemma UndoExact(acts: seq<Action>, id: nat)
    requires Exec(acts).Some? && Exec(acts).value.phase.Idle? && id in Exec(acts).value.store
    ensures (forall late: seq<Action>, j: nat :: !UndoesLate(acts, late, id, j)) <==>
            (forall j: nat :: !Exposed(Exec(acts).value, id, j))
  {
    if late: seq<Action>, j: nat :| UndoesLate(acts, late, id, j) {
      UndoneWasSent(acts, late, id, j);
    }
    if j: nat :| Exposed(Exec(acts).value, id, j) {
      var late := SentMayCommit(acts, id, j);
    }
  }

  lemma UndoneWasSent(acts: seq<Action>, late: seq<Action>, id: nat, j: nat)
    requires UndoesLate(acts, late, id, j)
    ensures Exec(acts).Some? && Exposed(Exec(acts).value, id, j)
  {
    LateRun(acts, late);
    var s, t := Exec(acts).value, Exec(acts + late).value;
    CommittedWasSent(acts + late, s.store[id].epoch, s.sinks[j].name);
    var e :| e in t.log && e.CommitSent? && e.epoch == s.store[id].epoch && e.sink < |e.sinks|
             && e.sinks[e.sink].name == s.sinks[j].name;
    assert e in s.log;
  }

  lemma SentMayCommit(acts: seq<Action>, id: nat, j: nat) returns (late: seq<Action>)
    requires Exec(acts).Some? && Exec(acts).value.phase.Idle? && Exposed(Exec(acts).value, id, j)
    ensures UndoesLate(acts, late, id, j)
  {
    var s := Exec(acts).value;
    var epoch, name := s.store[id].epoch, s.sinks[j].name;
    var e :| e in s.log && e.CommitSent? && e.epoch == epoch && e.sink < |e.sinks| && e.sinks[e.sink].name == name;
    var k: nat :| k < |s.log| && s.log[k] == e;
    CommitLate(acts, s, k);
    late := [LateCommit(k)];
  }
}
