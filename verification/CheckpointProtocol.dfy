/** The checkpoint protocol as a state machine: two-phase commit over the exactly-once sinks
    with a manifest as decision record, under failures, timeouts, late writes, retries, crashes
    and restarts. Every step of the coordinator and of its surroundings is one action. */
module CheckpointProtocol {
  import opened ScalarValues

  datatype Sink = Sink(name: string, exactlyOnce: bool)

  datatype Status = Pending | Committed | Failed

  type Statuses = map<string, Status>

  /** `attempt` and `sinks` are those of the attempt that wrote the manifest; the stored bytes do
      not tell them. */
  datatype Manifest = Manifest(attempt: nat, sinks: seq<Sink>, id: nat, epoch: nat, statuses: Statuses)

  /** What sinks and store have seen, oldest first. Attempts are numbered across restarts.
      `Stowed` is a written sidecar, `Pruned` a removed checkpoint. `Saved` is a confirmed save
      with the manifest then stored, which the save wrote or found. `CommitDone` says that the
      sink really made the epoch permanent. */
  datatype Event =
    | PreCommitted(attempt: nat, epoch: nat, sink: nat)
    | Stowed(attempt: nat, id: nat)
    | Pruned(id: nat)
    | Saved(attempt: nat, epoch: nat, wrote: bool, stored: Manifest)
    | CommitSent(attempt: nat, epoch: nat, sink: nat, sinks: seq<Sink>)
    | CommitDone(attempt: nat, epoch: nat, sink: nat, name: string)
    | RolledBack(attempt: nat, epoch: nat, sink: nat)
    | Began(epoch: nat, sink: nat)
    | Abandoned(epoch: nat, sink: nat)
    | Undone(epoch: nat, sink: nat)

  /** Where the coordinator stands. `results` are the commit answers so far, one per sink. */
  datatype Phase =
    | Down
    | Idle
    | PreCommitting(next: nat)
    | Persisting
    | RollingBack(next: nat)
    | Committing(results: seq<bool>, sent: bool)
    | Updating(statuses: Statuses)

  /** `base` and `since` are the epoch and the completed count at the last start or recovery.
      `inFlight` are manifests whose write failed or timed out and may still appear. */
  datatype State = State(
    phase: Phase, sinks: seq<Sink>, epoch: nat, nextId: nat, completed: nat, failed: nat,
    base: nat, since: nat, attempt: nat,
    store: map<nat, Manifest>, inFlight: set<Manifest>, log: seq<Event>)

  const INITIAL: State := State(Down, [], 1, 1, 0, 0, 1, 0, 0, map[], {}, [])

  datatype Action =
    // the coordinator
    | Start | Skip | PreCommitOk | PreCommitFails | SizeRejected | PreCommitDone
    | Stow | SaveOk(kept: bool) | SaveFails | RollBackSink | RollBackDone
    | CommitSend | CommitOk | CommitErr | CommitTimeout | CommitAllDone
    | UpdateOk | UpdateFails
    | Register(newSink: Sink) | BeginSink(sink: nat) | AbandonSink(sink: nat)
    | Restart(loaded: Option<nat>) | UndoSink(from: nat, sink: nat) | Recover(from: nat)
    // its surroundings
    | Crash | LandSidecar(manifest: Manifest) | Land(manifest: Manifest) | LateCommit(position: nat) | Prune(id: nat)

  // ----- Sink statuses --------------------------------------------------------------------------------

  /** Statuses as recorded: keyed by sink name, later sinks overwriting earlier ones. */
  function StatusesOf(sinks: seq<Sink>, results: seq<bool>): Statuses
    requires |results| <= |sinks|
  {
    if results == [] then map[]
    else
      var n := |results| - 1;
      var rest := StatusesOf(sinks, results[..n]);
      if sinks[n].exactlyOnce then rest[sinks[n].name := if results[n] then Committed else Failed] else rest
  }

  /** Every exactly-once sink with the same status. */
  function Uniform(sinks: seq<Sink>, status: Status): Statuses {
    map i | 0 <= i < |sinks| && sinks[i].exactlyOnce :: sinks[i].name := status
  }

  predicate AnyFailed(statuses: Statuses) {
    exists name :: name in statuses && statuses[name] == Failed
  }

  /** The manifest says that the sink committed. */
  predicate Records(m: Manifest, name: string) {
    name in m.statuses && m.statuses[name] == Committed
  }

  lemma {:induction false} SameStatuses(sinks: seq<Sink>, p: seq<bool>, q: seq<bool>)
    requires |p| == |q| <= |sinks|
    requires forall i | 0 <= i < |p| && sinks[i].exactlyOnce :: p[i] == q[i]
    ensures StatusesOf(sinks, p) == StatusesOf(sinks, q)
  {
    if p == [] {
    } else {
      SameStatuses(sinks, p[..|p| - 1], q[..|q| - 1]);
    }
  }

  // ----- Steps ----------------------------------------------------------------------------------------

  /** Index of the sink the current loop is at. */
  function At(p: Phase): nat {
    match p
    case PreCommitting(next) => next
    case RollingBack(next) => next
    case Committing(results, _) => |results|
    case _ => 0
  }

  predicate InLoop(s: State) {
    s.phase.PreCommitting? || s.phase.RollingBack? || (s.phase.Committing? && !s.phase.sent)
  }

  /** The loop is at an exactly-once sink. */
  predicate AtSink(s: State) {
    InLoop(s) && At(s.phase) < |s.sinks| && s.sinks[At(s.phase)].exactlyOnce
  }

  /** The loop has been through all sinks. */
  predicate LoopDone(s: State) {
    InLoop(s) && At(s.phase) == |s.sinks|
  }

  predicate AwaitingCommit(s: State) {
    s.phase.Committing? && s.phase.sent && |s.phase.results| < |s.sinks|
  }

  predicate Enabled(s: State, a: Action) {
    match a
    case Start => s.phase.Idle?
    case Skip => InLoop(s) && At(s.phase) < |s.sinks| && !s.sinks[At(s.phase)].exactlyOnce
    case PreCommitOk => s.phase.PreCommitting? && AtSink(s)
    case PreCommitFails => s.phase.PreCommitting?
    case SizeRejected => s.phase.PreCommitting? && LoopDone(s)
    case PreCommitDone => s.phase.PreCommitting? && LoopDone(s)
    case Stow => s.phase.Persisting?
    case SaveOk(kept) =>
      s.phase.Persisting? && Stowed(s.attempt, s.nextId) in s.log && (kept ==> s.nextId in s.store)
    case SaveFails => s.phase.Persisting?
    case RollBackSink => s.phase.RollingBack? && AtSink(s)
    case RollBackDone => s.phase.RollingBack? && LoopDone(s)
    case CommitSend => s.phase.Committing? && AtSink(s)
    case CommitOk => AwaitingCommit(s)
    case CommitErr => AwaitingCommit(s)
    case CommitTimeout => s.phase.Committing?
    case CommitAllDone => s.phase.Committing? && LoopDone(s)
    case UpdateOk => s.phase.Updating?
    case UpdateFails => s.phase.Updating?
    case Register(_) => s.phase.Idle?
    case BeginSink(i) => s.phase.Idle? && i < |s.sinks| && s.sinks[i].exactlyOnce
    case AbandonSink(i) => s.phase.Idle? && i < |s.sinks| && s.sinks[i].exactlyOnce
    case Restart(loaded) => s.phase.Down? && (loaded.Some? ==> loaded.value in s.store)
    case UndoSink(id, i) =>
      && s.phase.Idle? && id in s.store
      && i < |s.sinks| && s.sinks[i].exactlyOnce && !Records(s.store[id], s.sinks[i].name)
    case Recover(id) => s.phase.Idle? && id in s.store
    case Crash => true
    case LandSidecar(m) => m in s.inFlight && m.statuses == Uniform(m.sinks, Pending)
    case Land(m) => m in s.inFlight && Stowed(m.attempt, m.id) in s.log
    case LateCommit(k) => k < |s.log| && s.log[k].CommitSent? && s.log[k].sink < |s.log[k].sinks|
    case Prune(_) => true
  }

  /** The manifest of the current attempt with the given sink statuses. */
  function Own(s: State, statuses: Statuses): Manifest {
    Manifest(s.attempt, s.sinks, s.nextId, s.epoch, statuses)
  }

  function Advance(s: State, result: bool): Phase
    requires InLoop(s) || s.phase.Committing?
  {
    match s.phase
    case PreCommitting(next) => PreCommitting(next + 1)
    case RollingBack(next) => RollingBack(next + 1)
    case Committing(results, _) => Committing(results + [result], false)
  }

  /** A failed attempt leaves epoch and id for the retry; a complete one moves both on. */
  function Finish(s: State, statuses: Statuses): State {
    if AnyFailed(statuses) then s.(phase := Idle, failed := s.failed + 1)
    else s.(phase := Idle, nextId := s.nextId + 1, epoch := s.epoch + 1, completed := s.completed + 1)
  }

  /** Commit answers are in: rewrite the manifest if there is anything to record. */
  function Decide(s: State, statuses: Statuses): State {
    if statuses == map[] then Finish(s, statuses) else s.(phase := Updating(statuses))
  }

  function Put(s: State, m: Manifest): State {
    s.(store := s.store[m.id := m])
  }

  function Logged(s: State, e: Event): State {
    s.(log := s.log + [e])
  }

  function Answer(s: State, ok: bool): State
    requires AwaitingCommit(s)
  {
    var i := |s.phase.results|;
    var after := s.(phase := Advance(s, ok));
    if ok then Logged(after, CommitDone(s.attempt, s.epoch, i, s.sinks[i].name)) else after
  }

  /** Adopt the epoch and id after a loaded manifest, or start from one. */
  function Resume(s: State, loaded: Option<nat>): State
    requires loaded.Some? ==> loaded.value in s.store
  {
    var id := if loaded.Some? then s.store[loaded.value].id + 1 else 1;
    var epoch := if loaded.Some? then s.store[loaded.value].epoch + 1 else 1;
    s.(phase := Idle, nextId := id, epoch := epoch, base := epoch, since := s.completed)
  }

  function Step(s: State, a: Action): State
    requires Enabled(s, a)
  {
    match a
    case Start => s.(phase := PreCommitting(0), attempt := s.attempt + 1)
    case Skip => s.(phase := Advance(s, false))
    case PreCommitOk => Logged(s.(phase := Advance(s, true)), PreCommitted(s.attempt, s.epoch, At(s.phase)))
    case PreCommitFails => s.(phase := Idle, failed := s.failed + 1)
    case SizeRejected => s.(phase := Idle, failed := s.failed + 1)
    case PreCommitDone => s.(phase := Persisting)
    case Stow => Logged(s, Stowed(s.attempt, s.nextId))
    case SaveOk(kept) =>
      var stored := if kept then s.store[s.nextId] else Own(s, Uniform(s.sinks, Pending));
      Logged(s.(phase := Committing([], false), store := s.store[s.nextId := stored]),
             Saved(s.attempt, s.epoch, !kept, stored))
    case SaveFails =>
      s.(phase := RollingBack(0), failed := s.failed + 1, inFlight := s.inFlight + {Own(s, Uniform(s.sinks, Pending))})
    case RollBackSink => Logged(s.(phase := Advance(s, true)), RolledBack(s.attempt, s.epoch, At(s.phase)))
    case RollBackDone => s.(phase := Idle)
    case CommitSend =>
      Logged(s.(phase := Committing(s.phase.results, true)), CommitSent(s.attempt, s.epoch, At(s.phase), s.sinks))
    case CommitOk => Answer(s, true)
    case CommitErr => Answer(s, false)
    case CommitTimeout => Decide(s, Uniform(s.sinks, Failed))
    case CommitAllDone => Decide(s, StatusesOf(s.sinks, s.phase.results))
    case UpdateOk => Finish(Put(s, Own(s, s.phase.statuses)), s.phase.statuses)
    case UpdateFails =>
      Finish(s.(inFlight := s.inFlight + {Own(s, s.phase.statuses)}), s.phase.statuses)
    case Register(sink) => s.(sinks := s.sinks + [sink])
    case BeginSink(i) => Logged(s, Began(s.epoch, i))
    case AbandonSink(i) => Logged(s, Abandoned(s.epoch, i))
    case Restart(loaded) => Resume(s.(sinks := [], completed := 0, failed := 0), loaded)
    case UndoSink(id, i) => Logged(s, Undone(s.store[id].epoch, i))
    case Recover(id) => Resume(s, Some(id))
    case Crash => s.(phase := Down)
    case LandSidecar(m) => Logged(s, Stowed(m.attempt, m.id))
    case Land(m) => Put(s, m)
    case LateCommit(k) =>
      var e := s.log[k];
      Logged(s, CommitDone(e.attempt, e.epoch, e.sink, e.sinks[e.sink].name))
    case Prune(id) => Logged(s.(store := s.store - {id}), Pruned(id))
  }

  /** The state after a sequence of actions, if every one of them was enabled in turn. */
  function Exec(acts: seq<Action>): Option<State> {
    if acts == [] then Some(INITIAL)
    else
      var n := |acts| - 1;
      var before := Exec(acts[..n]);
      if before.Some? && Enabled(before.value, acts[n]) then Some(Step(before.value, acts[n])) else None
  }

  lemma ExecMore(acts: seq<Action>, a: Action)
    requires Exec(acts).Some? && Enabled(Exec(acts).value, a)
    ensures Exec(acts + [a]) == Some(Step(Exec(acts).value, a))
  {
    assert (acts + [a])[..|acts|] == acts;
  }

  // ----- Numbering --------------------------------------------------------------------------------------

  /** Checkpoint id and epoch agree, and the epoch moves with the completed checkpoints. */
  ghost predicate Counted(s: State) {
    s.nextId == s.epoch && s.since <= s.completed && s.epoch == s.base + (s.completed - s.since)
  }

  /** Every manifest written carries one number as id and epoch. */
  ghost predicate Filed(s: State) {
    && (forall id | id in s.store :: s.store[id].id == id && s.store[id].epoch == id)
    && (forall m | m in s.inFlight :: m.id == m.epoch)
  }

  ghost predicate Numbered(s: State) {
    Counted(s) && Filed(s)
  }

  /** Epoch, id and completed checkpoints have moved by the same number. */
  ghost predicate SameCount(s: State, t: State) {
    && t.epoch - s.epoch == t.completed - s.completed == t.nextId - s.nextId >= 0
    && t.base == s.base && t.since == s.since
  }

  /** Outside of starts and recoveries, ids, epochs and completions move together. */
  lemma CountStep(s: State, a: Action)
    requires Enabled(s, a) && !a.Restart? && !a.Recover?
    ensures SameCount(s, Step(s, a))
  {
  }

  lemma CountedStep(s: State, a: Action)
    requires Numbered(s) && Enabled(s, a)
    ensures Counted(Step(s, a))
  {
    if a.Restart? {
      assert Counted(Step(s, a));
    } else if a.Recover? {
      assert Counted(Step(s, a));
    } else {
      CountStep(s, a);
    }
  }

  lemma FiledStep(s: State, a: Action)
    requires Numbered(s) && Enabled(s, a)
    ensures Filed(Step(s, a))
  {
    var t := Step(s, a);
    if t.store == s.store {
      assert forall m | m in t.inFlight :: m.id == m.epoch;
    } else {
      assert t.inFlight == s.inFlight;
    }
  }

  // ----- Commit only after the decision ---------------------------------------------------------------

  ghost predicate PreCommittedBy(log: seq<Event>, attempt: nat, epoch: nat, sinks: seq<Sink>, n: nat)
    requires n <= |sinks|
  {
    forall j: nat | j < n && sinks[j].exactlyOnce :: PreCommitted(attempt, epoch, j) in log
  }

  /** The decision record of an attempt: all its exactly-once sinks pending. */
  function Decision(attempt: nat, epoch: nat, sinks: seq<Sink>): Manifest {
    Manifest(attempt, sinks, epoch, epoch, Uniform(sinks, Pending))
  }

  /** In this attempt the store confirmed a manifest for the epoch, and if it was written for
      this save, it is the attempt's decision record. */
  ghost predicate Confirms(e: Event, attempt: nat, epoch: nat, sinks: seq<Sink>) {
    && e.Saved? && e.attempt == attempt && e.epoch == epoch && e.stored.epoch == epoch
    && (e.wrote ==> e.stored == Decision(attempt, epoch, sinks))
  }

  ghost predicate SavedIn(log: seq<Event>, attempt: nat, epoch: nat, sinks: seq<Sink>) {
    exists e :: e in log && Confirms(e, attempt, epoch, sinks)
  }

  /** A commit may go out: every exactly-once sink has pre-committed and the manifest is saved,
      both in the same attempt. */
  ghost predicate Authorised(before: seq<Event>, e: Event) {
    e.CommitSent? ==>
      && PreCommittedBy(before, e.attempt, e.epoch, e.sinks, |e.sinks|)
      && SavedIn(before, e.attempt, e.epoch, e.sinks)
  }

  ghost predicate AllAuthorised(log: seq<Event>) {
    forall p: nat | p < |log| :: Authorised(log[..p], log[p])
  }

  /** The first `n` sinks, as far as exactly-once, were sent the attempt's commit. */
  ghost predicate SentTo(log: seq<Event>, attempt: nat, epoch: nat, sinks: seq<Sink>, n: nat)
    requires n <= |sinks|
  {
    forall j: nat | j < n && sinks[j].exactlyOnce :: CommitSent(attempt, epoch, j, sinks) in log
  }

  /** What the current phase may rely on. */
  ghost predicate PhaseReady(s: State) {
    match s.phase
    case PreCommitting(n) => n <= |s.sinks| && PreCommittedBy(s.log, s.attempt, s.epoch, s.sinks, n)
    case Persisting => PreCommittedBy(s.log, s.attempt, s.epoch, s.sinks, |s.sinks|)
    case RollingBack(n) => n <= |s.sinks|
    case Committing(results, sent) =>
      && |results| + (if sent then 1 else 0) <= |s.sinks| && (sent ==> s.sinks[|results|].exactlyOnce)
      && PreCommittedBy(s.log, s.attempt, s.epoch, s.sinks, |s.sinks|)
      && SavedIn(s.log, s.attempt, s.epoch, s.sinks)
      && SentTo(s.log, s.attempt, s.epoch, s.sinks, |results| + if sent then 1 else 0)
      && Stowed(s.attempt, s.nextId) in s.log
    case Updating(_) => Stowed(s.attempt, s.nextId) in s.log
    case _ => true
  }

  lemma AuthorisedMore(log: seq<Event>, e: Event)
    requires AllAuthorised(log) && Authorised(log, e)
    ensures AllAuthorised(log + [e])
  {
    var after := log + [e];
    forall p: nat | p < |after| ensures Authorised(after[..p], after[p]) {
      if p < |log| {
        assert after[..p] == log[..p] && after[p] == log[p];
      } else {
        assert after[..p] == log;
      }
    }
  }

  lemma ReadyStep(s: State, a: Action)
    requires PhaseReady(s) && Numbered(s) && Enabled(s, a)
    ensures PhaseReady(Step(s, a))
  {
    var t := Step(s, a);
    assert s.log <= t.log;
    if t.phase.Committing? || t.phase.PreCommitting? || t.phase.Persisting? {
      if a.SaveOk? {
        assert Confirms(t.log[|s.log|], t.attempt, t.epoch, t.sinks);
      }
      if s.phase.Committing? {
        var e :| e in s.log && Confirms(e, s.attempt, s.epoch, s.sinks);
        assert e in t.log;
      }
    }
  }

  lemma AuthorisedStep(s: State, a: Action)
    requires PhaseReady(s) && AllAuthorised(s.log) && Enabled(s, a)
    ensures AllAuthorised(Step(s, a).log)
  {
    var t := Step(s, a);
    if t.log != s.log {
      assert t.log == s.log + [t.log[|s.log|]];
      AuthorisedMore(s.log, t.log[|s.log|]);
    }
  }

  // ----- Manifests never overclaim --------------------------------------------------------------------

  /** Some sink of that name really committed the epoch, as the attempt asked it to. */
  ghost predicate Really(log: seq<Event>, attempt: nat, epoch: nat, name: string) {
    exists e :: e in log && e.CommitDone? && e.attempt == attempt && e.epoch == epoch && e.name == name
  }

  /** What the manifest records as committed was. */
  ghost predicate Truthful(log: seq<Event>, m: Manifest) {
    forall name | Records(m, name) :: Really(log, m.attempt, m.epoch, name)
  }

  ghost predicate ResultsReal(s: State, results: seq<bool>) {
    && |results| <= |s.sinks|
    && (forall j: nat | j < |results| && results[j] ::
          CommitDone(s.attempt, s.epoch, j, s.sinks[j].name) in s.log)
  }

  /** The statuses are those of commit answers, and every success among them is real. */
  ghost predicate Outcome(log: seq<Event>, m: Manifest, results: seq<bool>) {
    && |results| == |m.sinks| && m.statuses == StatusesOf(m.sinks, results)
    && (forall j: nat | j < |results| && results[j] ::
          CommitDone(m.attempt, m.epoch, j, m.sinks[j].name) in log)
  }

  /** A manifest is a decision record, or has the outcome of its attempt's commits. */
  ghost predicate Backed(log: seq<Event>, m: Manifest) {
    m.statuses == Uniform(m.sinks, Pending) || exists results: seq<bool> :: Outcome(log, m, results)
  }

  /** Commit answers, recorded statuses and all manifests, written or on the way, are backed by
      real commits. */
  ghost predicate Claims(s: State) {
    && (s.phase.Committing? ==> ResultsReal(s, s.phase.results))
    && (s.phase.Updating? ==> Backed(s.log, Own(s, s.phase.statuses)))
    && (forall id | id in s.store :: Backed(s.log, s.store[id]))
    && (forall m | m in s.inFlight :: Backed(s.log, m))
  }

  lemma BackedGrows(log: seq<Event>, longer: seq<Event>, m: Manifest)
    requires log <= longer && Backed(log, m)
    ensures Backed(longer, m)
  {
    if m.statuses != Uniform(m.sinks, Pending) {
      var results: seq<bool> :| Outcome(log, m, results);
      assert Outcome(longer, m, results);
    }
  }

  /** A recorded commit is one of the answers. */
  lemma {:induction false} RecordedAnswer(sinks: seq<Sink>, results: seq<bool>, name: string) returns (j: nat)
    requires |results| <= |sinks| && name in StatusesOf(sinks, results) && StatusesOf(sinks, results)[name] == Committed
    ensures j < |results| && sinks[j].exactlyOnce && sinks[j].name == name && results[j]
    decreases |results|
  {
    j := |results| - 1;
    if sinks[j].exactlyOnce && sinks[j].name == name {
    } else {
      j := RecordedAnswer(sinks, results[..j], name);
    }
  }

  lemma BackedTruthful(log: seq<Event>, m: Manifest)
    requires Backed(log, m)
    ensures Truthful(log, m)
  {
    forall name | Records(m, name) ensures Really(log, m.attempt, m.epoch, name) {
      var results: seq<bool> :| Outcome(log, m, results);
      var j := RecordedAnswer(m.sinks, results, name);
      assert CommitDone(m.attempt, m.epoch, j, name) in log;
    }
  }

  /** A timeout records what a refusal by every sink would. */
  lemma {:induction false} AllRefused(sinks: seq<Sink>, n: nat)
    requires n <= |sinks|
    ensures StatusesOf(sinks, seq(n, _ => false)) == Uniform(sinks[..n], Failed)
  {
    if n == 0 {
    } else {
      AllRefused(sinks, n - 1);
      assert seq(n, _ => false)[..n - 1] == seq(n - 1, _ => false);
      UniformMore(sinks, n - 1, Failed);
    }
  }

  lemma UniformMore(sinks: seq<Sink>, i: nat, status: Status)
    requires i < |sinks|
    ensures Uniform(sinks[..i + 1], status) ==
            if sinks[i].exactlyOnce then Uniform(sinks[..i], status)[sinks[i].name := status] else Uniform(sinks[..i], status)
  {
    var more, less := sinks[..i + 1], sinks[..i];
    assert more == less + [sinks[i]];
    forall name ensures name in Uniform(more, status) <==>
                        name in Uniform(less, status) || (sinks[i].exactlyOnce && name == sinks[i].name)
    {
      if name in Uniform(less, status) {
        var k :| 0 <= k < |less| && less[k].exactlyOnce && less[k].name == name;
        assert more[k] == less[k];
      }
      if sinks[i].exactlyOnce && name == sinks[i].name {
        assert more[i].exactlyOnce && more[i].name == name;
      }
    }
  }

  lemma ClaimsLog(s: State, e: Event)
    requires Claims(s)
    ensures Claims(Logged(s, e))
  {
    var longer := s.log + [e];
    if s.phase.Updating? {
      BackedGrows(s.log, longer, Own(s, s.phase.statuses));
    }
    forall id | id in s.store ensures Backed(longer, s.store[id]) {
      BackedGrows(s.log, longer, s.store[id]);
    }
    forall m | m in s.inFlight ensures Backed(longer, m) {
      BackedGrows(s.log, longer, m);
    }
  }

  lemma AnswersBacked(s: State)
    requires s.phase.Committing? && |s.phase.results| == |s.sinks| && ResultsReal(s, s.phase.results)
    ensures Backed(s.log, Own(s, StatusesOf(s.sinks, s.phase.results)))
  {
    assert Outcome(s.log, Own(s, StatusesOf(s.sinks, s.phase.results)), s.phase.results);
  }

  lemma TimeoutBacked(s: State)
    ensures Backed(s.log, Own(s, Uniform(s.sinks, Failed)))
  {
    AllRefused(s.sinks, |s.sinks|);
    assert s.sinks[..|s.sinks|] == s.sinks;
    assert Outcome(s.log, Own(s, Uniform(s.sinks, Failed)), seq(|s.sinks|, _ => false));
  }

  lemma ClaimsStep(s: State, a: Action)
    requires Claims(s) && PhaseReady(s) && Enabled(s, a)
    ensures Claims(Step(s, a))
  {
    var t := Step(s, a);
    if t.log != s.log {
      ClaimsLogged(s, a);
    } else if a.CommitAllDone? {
      AnswersBacked(s);
    } else if a.CommitTimeout? {
      TimeoutBacked(s);
    }
  }

  lemma ClaimsLogged(s: State, a: Action)
    requires Claims(s) && PhaseReady(s) && Enabled(s, a) && Step(s, a).log != s.log
    ensures Claims(Step(s, a))
  {
    var t := Step(s, a);
    var e := t.log[|s.log|];
    assert t.log == s.log + [e];
    ClaimsLog(s, e);
  }

  // ----- Every commit was asked for -----------------------------------------------------------------------

  /** A commit sent to a sink of that name. */
  ghost predicate IsRequest(f: Event, attempt: nat, epoch: nat, sink: nat, name: string) {
    && f.CommitSent? && f.attempt == attempt && f.epoch == epoch && f.sink == sink
    && f.sink < |f.sinks| && f.sinks[f.sink].name == name
  }

  ghost predicate Asked(log: seq<Event>, e: Event) {
    && (e.CommitSent? ==> e.sink < |e.sinks| && e.sinks[e.sink].exactlyOnce)
    && (e.CommitDone? ==> exists f :: f in log && IsRequest(f, e.attempt, e.epoch, e.sink, e.name))
  }

  ghost predicate AllAsked(log: seq<Event>) {
    forall e | e in log :: Asked(log, e)
  }

  lemma AskedMore(log: seq<Event>, e: Event)
    requires AllAsked(log) && Asked(log, e)
    ensures AllAsked(log + [e])
  {
    forall g | g in log + [e] ensures Asked(log + [e], g) {
      if g.CommitDone? {
        var f :| f in log && IsRequest(f, g.attempt, g.epoch, g.sink, g.name);
        assert f in log + [e];
      }
    }
  }

  lemma AskedStep(s: State, a: Action)
    requires AllAsked(s.log) && PhaseReady(s) && Enabled(s, a)
    ensures AllAsked(Step(s, a).log)
  {
    var t := Step(s, a);
    if t.log != s.log {
      var e := t.log[|s.log|];
      assert t.log == s.log + [e];
      if a.CommitOk? {
        assert CommitSent(s.attempt, s.epoch, |s.phase.results|, s.sinks) in s.log;
      } else if a.LateCommit? {
        assert s.log[a.position] in s.log;
      }
      AskedMore(s.log, e);
    }
  }

  // ----- Success means committed -----------------------------------------------------------------------

  ghost predicate DistinctNames(sinks: seq<Sink>) {
    forall i: nat, j: nat | i < j < |sinks| && sinks[i].exactlyOnce && sinks[j].exactlyOnce ::
      sinks[i].name != sinks[j].name
  }

  /** Every exactly-once sink answered its commit with success. */
  ghost predicate AllOk(sinks: seq<Sink>, results: seq<bool>)
    requires |results| <= |sinks|
  {
    forall j: nat | j < |results| && sinks[j].exactlyOnce :: results[j]
  }

  lemma {:induction false} StatusesDistinct(sinks: seq<Sink>, results: seq<bool>, j: nat)
    requires DistinctNames(sinks) && |results| <= |sinks|
    requires j < |results| && sinks[j].exactlyOnce
    ensures var st := StatusesOf(sinks, results);
            sinks[j].name in st && st[sinks[j].name] == if results[j] then Committed else Failed
    decreases |results|
  {
    if j == |results| - 1 {
    } else {
      StatusesDistinct(sinks, results[..|results| - 1], j);
    }
  }

  lemma {:induction false} HiddenFailure(sinks: seq<Sink>, results: seq<bool>, i: nat, j: nat, name: string)
    requires i < j < |sinks| && sinks[i].exactlyOnce && sinks[j].exactlyOnce && sinks[i].name == sinks[j].name
    requires |results| <= |sinks| && forall k: nat | k < |results| :: results[k] <==> k != i
    requires name in StatusesOf(sinks, results) && StatusesOf(sinks, results)[name] == Failed
    ensures name == sinks[i].name && |results| <= j
  {
    var n := |results| - 1;
    assert results[n] <==> n != i;
    if n == i && name == sinks[i].name {
    } else {
      HiddenFailure(sinks, results[..n], i, j, name);
    }
  }

  /** The statuses show every failed commit, whatever the answers, exactly when no two
      exactly-once sinks share a name. */
  lemma FailuresShowExactly(sinks: seq<Sink>)
    ensures DistinctNames(sinks) <==>
            forall results: seq<bool> | |results| == |sinks| ::
              !AnyFailed(StatusesOf(sinks, results)) ==> AllOk(sinks, results)
  {
    if DistinctNames(sinks) {
      forall results: seq<bool> | |results| == |sinks| && !AnyFailed(StatusesOf(sinks, results))
        ensures AllOk(sinks, results)
      {
        forall j: nat | j < |results| && sinks[j].exactlyOnce ensures results[j] {
          StatusesDistinct(sinks, results, j);
        }
      }
    } else {
      var i: nat, j: nat :| i < j < |sinks| && sinks[i].exactlyOnce && sinks[j].exactlyOnce
                            && sinks[i].name == sinks[j].name;
      var results := seq(|sinks|, k => k != i);
      var st := StatusesOf(sinks, results);
      forall name | name in st && st[name] == Failed ensures false {
        HiddenFailure(sinks, results, i, j, name);
      }
      assert !AnyFailed(st) && !results[i];
      assert !AllOk(sinks, results);
    }
  }

  ghost predicate AllCommitted(s: State) {
    forall j: nat | j < |s.sinks| && s.sinks[j].exactlyOnce ::
      CommitDone(s.attempt, s.epoch, j, s.sinks[j].name) in s.log
  }

  /** Statuses without a failure mean that every exactly-once sink committed. */
  ghost predicate Complete(s: State) {
    s.phase.Updating? && !AnyFailed(s.phase.statuses) && DistinctNames(s.sinks) ==> AllCommitted(s)
  }

  lemma CompleteStep(s: State, a: Action)
    requires Complete(s) && Claims(s) && PhaseReady(s) && Enabled(s, a)
    ensures Complete(Step(s, a))
  {
    var t := Step(s, a);
    if t.phase.Updating? && !AnyFailed(t.phase.statuses) && DistinctNames(t.sinks) {
      if s.phase.Updating? {
        assert s.log <= t.log;
      } else {
        DecidedComplete(s, a);
      }
    }
  }

  /** An attempt that counts as completed has committed all exactly-once sinks. */
  lemma SuccessStep(s: State, a: Action)
    requires Complete(s) && Claims(s) && PhaseReady(s) && Enabled(s, a)
    requires DistinctNames(s.sinks) && Step(s, a).completed > s.completed
    ensures AllCommitted(s)
  {
    if !s.phase.Updating? {
      DecidedComplete(s, a);
    }
  }

  lemma UniformFails(sinks: seq<Sink>, j: nat)
    requires j < |sinks| && sinks[j].exactlyOnce
    ensures AnyFailed(Uniform(sinks, Failed))
  {
    assert Uniform(sinks, Failed)[sinks[j].name] == Failed;
  }

  lemma DecidedComplete(s: State, a: Action)
    requires Claims(s) && PhaseReady(s) && Enabled(s, a) && DistinctNames(s.sinks)
    requires a.CommitAllDone? || a.CommitTimeout?
    requires !AnyFailed(if a.CommitTimeout? then Uniform(s.sinks, Failed) else StatusesOf(s.sinks, s.phase.results))
    ensures AllCommitted(s)
  {
    forall j: nat | j < |s.sinks| && s.sinks[j].exactlyOnce
      ensures CommitDone(s.attempt, s.epoch, j, s.sinks[j].name) in s.log
    {
      if a.CommitTimeout? {
        UniformFails(s.sinks, j);
      } else {
        StatusesDistinct(s.sinks, s.phase.results, j);
      }
    }
  }

  // ----- An attempt commits or rolls back, never both ----------------------------------------------------

  /** The event ends an attempt one way or the other. */
  predicate Concludes(e: Event) {
    e.CommitSent? || e.RolledBack?
  }

  ghost predicate Exclusive(s: State) {
    && (forall e | e in s.log && Concludes(e) :: e.attempt <= s.attempt)
    && (forall e, f | e in s.log && f in s.log && e.CommitSent? && f.RolledBack? :: e.attempt != f.attempt)
    && (s.phase.PreCommitting? || s.phase.Persisting? ==>
          forall e | e in s.log && Concludes(e) :: e.attempt < s.attempt)
    && (s.phase.Committing? ==> forall e | e in s.log && e.RolledBack? :: e.attempt < s.attempt)
    && (s.phase.RollingBack? ==> forall e | e in s.log && e.CommitSent? :: e.attempt < s.attempt)
  }

  lemma ExclusiveLog(s: State, e: Event)
    requires Exclusive(s)
    requires e.CommitSent? ==> s.phase.Committing? && e.attempt == s.attempt
    requires e.RolledBack? ==> s.phase.RollingBack? && e.attempt == s.attempt
    ensures Exclusive(Logged(s, e))
  {
  }

  lemma ExclusiveStep(s: State, a: Action)
    requires Exclusive(s) && Enabled(s, a)
    ensures Exclusive(Step(s, a))
  {
    var t := Step(s, a);
    if t.log != s.log {
      ExclusiveLog(s, t.log[|s.log|]);
      assert t.log == s.log + [t.log[|s.log|]];
    }
  }

  // ----- One commit for each sink -------------------------------------------------------------------------

  /** How many sinks the current attempt has passed in its commit phase. */
  function Passed(p: Phase): nat {
    if p.Committing? then |p.results| + if p.sent then 1 else 0 else 0
  }

  /** An attempt sends its commits in the order of the sinks, one each. */
  ghost predicate InSinkOrder(log: seq<Event>) {
    forall p, q | 0 <= p < q < |log| && log[p].CommitSent? && log[q].CommitSent? && log[p].attempt == log[q].attempt ::
      log[p].sink < log[q].sink
  }

  /** And the sinks still to be passed were sent none in this attempt. */
  ghost predicate SentOnce(s: State) {
    && InSinkOrder(s.log)
    && (s.phase.Committing? ==>
          forall e | e in s.log && e.CommitSent? && e.attempt == s.attempt :: e.sink < Passed(s.phase))
  }

  lemma SentOnceStep(s: State, a: Action)
    requires SentOnce(s) && Exclusive(s) && Enabled(s, a)
    ensures SentOnce(Step(s, a))
  {
    var t := Step(s, a);
    if a.CommitSend? {
      SinkOrderMore(s, t.log[|s.log|]);
    } else {
      SinkOrderKept(s, a);
      NoneAhead(s, a);
    }
  }

  lemma SinkOrderKept(s: State, a: Action)
    requires InSinkOrder(s.log) && Enabled(s, a) && !a.CommitSend?
    ensures InSinkOrder(Step(s, a).log)
    ensures forall e | e in Step(s, a).log && e.CommitSent? :: e in s.log
  {
    var t := Step(s, a);
    if t.log != s.log {
      assert t.log == s.log + [t.log[|s.log|]];
    }
  }

  lemma NoneAhead(s: State, a: Action)
    requires SentOnce(s) && Exclusive(s) && Enabled(s, a) && !a.CommitSend?
    requires forall e | e in Step(s, a).log && e.CommitSent? :: e in s.log
    ensures var t := Step(s, a);
            t.phase.Committing? ==>
              forall e | e in t.log && e.CommitSent? && e.attempt == t.attempt :: e.sink < Passed(t.phase)
  {
    var t := Step(s, a);
    if t.phase.Committing? && s.phase.Committing? {
      assert Passed(s.phase) <= Passed(t.phase) && t.attempt == s.attempt;
    }
  }

  lemma SinkOrderMore(s: State, e: Event)
    requires SentOnce(s) && s.phase.Committing? && e.CommitSent? && e.attempt == s.attempt && Passed(s.phase) <= e.sink
    ensures InSinkOrder(s.log + [e])
  {
    var log := s.log + [e];
    forall p, q | 0 <= p < q < |log| && log[p].CommitSent? && log[q].CommitSent? && log[p].attempt == log[q].attempt
      ensures log[p].sink < log[q].sink
    {
      assert log[p] in s.log;
    }
  }

  // ----- Which attempt wrote a manifest ------------------------------------------------------------------

  /** Manifests, stored or on their way, come from attempts before `bound`. */
  ghost predicate WrittenBefore(s: State, bound: nat) {
    && (forall id | id in s.store :: s.store[id].attempt < bound)
    && (forall m | m in s.inFlight :: m.attempt < bound)
  }

  ghost predicate SavedBefore(s: State, bound: nat) {
    forall e | e in s.log && e.Saved? :: e.attempt < bound
  }

  /** The current attempt has nothing saved yet. */
  predicate Unsaved(s: State) {
    s.phase.PreCommitting? || s.phase.Persisting?
  }

  /** Manifests carry the number of an attempt begun, an earlier one until the current attempt
      saves, and those on their way while it commits. */
  ghost predicate Written(s: State) {
    && WrittenBefore(s, s.attempt + 1) && (Unsaved(s) ==> WrittenBefore(s, s.attempt))
    && (s.phase.Committing? ==> forall m | m in s.inFlight :: m.attempt < s.attempt)
  }

  /** A save that wrote left the attempt's own manifest, one that did not an earlier attempt's. */
  ghost predicate Tells(e: Event) {
    e.Saved? ==> if e.wrote then e.stored.attempt == e.attempt else e.stored.attempt < e.attempt
  }

  /** Each attempt is confirmed one save at most, and the events tell whose manifest that was. */
  ghost predicate Tagged(s: State) {
    && Written(s) && SavedBefore(s, s.attempt + 1) && (Unsaved(s) ==> SavedBefore(s, s.attempt))
    && (forall e | e in s.log :: Tells(e))
    && (forall e, f | e in s.log && f in s.log && e.Saved? && f.Saved? && e.attempt == f.attempt :: e == f)
  }

  lemma TaggedLog(s: State, e: Event)
    requires Tagged(s) && Tells(e)
    requires e.Saved? ==> s.phase.Persisting? && e.attempt == s.attempt
    ensures Tagged(Logged(s, e).(phase := Idle))
  {
  }

  lemma TaggedStep(s: State, a: Action)
    requires Tagged(s) && Enabled(s, a)
    ensures Tagged(Step(s, a))
  {
    var t := Step(s, a);
    WrittenStep(s, a);
    if t.log != s.log {
      var e := t.log[|s.log|];
      assert t.log == s.log + [e];
      TaggedLog(s, e);
    }
  }

  lemma WrittenStep(s: State, a: Action)
    requires Written(s) && Enabled(s, a)
    ensures Written(Step(s, a))
  {
    var t := Step(s, a);
    forall id | id in t.store ensures NoLater(t, t.store[id]) {
      StoredStep(s, a, id);
    }
    forall m | m in t.inFlight ensures NoLater(t, m) && (t.phase.Committing? ==> m.attempt < t.attempt) {
      FlyingStep(s, a, m);
    }
  }

  /** A manifest in the next state comes from an attempt in time. */
  ghost predicate NoLater(t: State, m: Manifest) {
    m.attempt <= t.attempt && (Unsaved(t) ==> m.attempt < t.attempt)
  }

  lemma StoredStep(s: State, a: Action, id: nat)
    requires Written(s) && Enabled(s, a) && id in Step(s, a).store
    ensures NoLater(Step(s, a), Step(s, a).store[id])
  {
    var t := Step(s, a);
    if a.Land? {
      assert t == Put(s, a.manifest);
    } else if a.SaveOk? || a.UpdateOk? {
      assert t.attempt == s.attempt && !Unsaved(t);
    } else {
      assert id in s.store && t.store[id] == s.store[id];
    }
  }

  lemma FlyingStep(s: State, a: Action, m: Manifest)
    requires Written(s) && Enabled(s, a) && m in Step(s, a).inFlight
    ensures NoLater(Step(s, a), m) && (Step(s, a).phase.Committing? ==> m.attempt < Step(s, a).attempt)
  {
    var t := Step(s, a);
    if a.SaveFails? || a.UpdateFails? {
      assert t.attempt == s.attempt && !Unsaved(t) && !t.phase.Committing?;
    } else {
      assert m in s.inFlight;
    }
  }

  // ----- Every run -----------------------------------------------------------------------------------------

  ghost predicate Inv(s: State) {
    && Numbered(s) && PhaseReady(s) && AllAuthorised(s.log)
    && Claims(s) && AllAsked(s.log) && Complete(s) && Exclusive(s) && Tagged(s)
    && SentOnce(s)
  }

  lemma InvStep(s: State, a: Action)
    requires Inv(s) && Enabled(s, a)
    ensures Inv(Step(s, a))
  {
    CountedStep(s, a);
    FiledStep(s, a);
    ReadyStep(s, a);
    AuthorisedStep(s, a);
    ClaimsStep(s, a);
    AskedStep(s, a);
    CompleteStep(s, a);
    ExclusiveStep(s, a);
    SentOnceStep(s, a);
    TaggedStep(s, a);
  }

  lemma {:induction false} RunInv(acts: seq<Action>)
    requires Exec(acts).Some?
    ensures Inv(Exec(acts).value)
  {
    if acts == [] {
    } else {
      var n := |acts| - 1;
      RunInv(acts[..n]);
      InvStep(Exec(acts[..n]).value, acts[n]);
    }
  }

  /** In every run, a commit goes out only after every exactly-once sink pre-committed the epoch
      and a manifest for it was saved, in the same attempt; and an attempt that sent a commit
      never rolls a sink back. */
  lemma CommitAfterDecision(acts: seq<Action>, p: nat)
    requires Exec(acts).Some? && p < |Exec(acts).value.log| && Exec(acts).value.log[p].CommitSent?
    ensures var log := Exec(acts).value.log;
            var e := log[p];
            && (forall j: nat | j < |e.sinks| && e.sinks[j].exactlyOnce ::
                  PreCommitted(e.attempt, e.epoch, j) in log[..p])
            && (exists f :: f in log[..p] && f.Saved? && f.attempt == e.attempt && f.epoch == f.stored.epoch == e.epoch)
            && (forall f | f in log && f.RolledBack? :: f.attempt != e.attempt)
  {
    RunInv(acts);
    var log := Exec(acts).value.log;
    assert Authorised(log[..p], log[p]);
    assert log[p] in log;
    var f :| f in log[..p] && Confirms(f, log[p].attempt, log[p].epoch, log[p].sinks);
  }

  /** In every run, a commit follows one confirmed save of its attempt, and the manifest stored
      then is the attempt's own decision record, with every exactly-once sink pending, exactly
      when that save wrote; otherwise an earlier attempt wrote it. */
  lemma SavedOwnManifest(acts: seq<Action>, p: nat)
    requires Exec(acts).Some? && p < |Exec(acts).value.log| && Exec(acts).value.log[p].CommitSent?
    ensures var log := Exec(acts).value.log;
            var e := log[p];
            exists f ::
              && f in log[..p] && f.Saved? && f.attempt == e.attempt
              && (forall g | g in log && g.Saved? && g.attempt == e.attempt :: g == f)
              && (f.stored == Decision(e.attempt, e.epoch, e.sinks) <==> f.wrote)
              && (f.stored.attempt < e.attempt <==> !f.wrote)
  {
    RunInv(acts);
    var log := Exec(acts).value.log;
    var e := log[p];
    assert Authorised(log[..p], e);
    var f :| f in log[..p] && Confirms(f, e.attempt, e.epoch, e.sinks);
    assert f in log && Tells(f);
  }

  /** The store holds the current attempt's decision record under its id. */
  ghost predicate HasOwn(s: State) {
    s.nextId in s.store && s.store[s.nextId] == Decision(s.attempt, s.epoch, s.sinks)
  }

  /** The last confirmed save wrote, and since then no late write has landed on the id and it has
      not been pruned. */
  ghost predicate LeftAlone(acts: seq<Action>, id: nat) {
    && acts != []
    && var a := acts[|acts| - 1];
       if a.SaveOk? then !a.kept
       else !(a.Land? && a.manifest.id == id) && a != Prune(id) && LeftAlone(acts[..|acts| - 1], id)
  }

  lemma OwnStep(s: State, a: Action)
    requires Counted(s) && Written(s) && Enabled(s, a) && Step(s, a).phase.Committing?
    ensures var t := Step(s, a);
            && t.nextId == s.nextId
            && if a.SaveOk? then HasOwn(t) <==> !a.kept
               else
                 && s.phase.Committing?
                 && (HasOwn(t) <==> HasOwn(s) && !(a.Land? && a.manifest.id == s.nextId) && a != Prune(s.nextId))
  {
    var t := Step(s, a);
    if a.Land? {
      assert t == Put(s, a.manifest) && a.manifest.attempt < s.attempt;
    } else if !a.SaveOk? && !a.Prune? {
      assert t.store == s.store && t.attempt == s.attempt && t.epoch == s.epoch && t.sinks == s.sinks;
    }
  }

  lemma {:induction false} OwnRecord(acts: seq<Action>)
    requires Exec(acts).Some? && Exec(acts).value.phase.Committing?
    ensures HasOwn(Exec(acts).value) <==> LeftAlone(acts, Exec(acts).value.nextId)
  {
    var n := |acts| - 1;
    RunInv(acts[..n]);
    OwnStep(Exec(acts[..n]).value, acts[n]);
    if acts[n].SaveOk? {
    } else {
      OwnRecord(acts[..n]);
    }
  }

  /** In every run, when a commit goes out, the record in the store is the attempt's own decision,
      with every exactly-once sink pending, exactly when the attempt's save wrote and neither a
      late write of that id nor a prune has come since. */
  lemma CommitAfterOwnManifest(acts: seq<Action>)
    requires Exec(acts + [CommitSend]).Some?
    ensures Exec(acts).Some?
    ensures var s := Exec(acts).value;
            && s.phase.Committing?
            && Exec(acts + [CommitSend]).value.log == s.log + [CommitSent(s.attempt, s.epoch, At(s.phase), s.sinks)]
            && (HasOwn(s) <==> LeftAlone(acts, s.nextId))
  {
    assert (acts + [CommitSend])[..|acts|] == acts;
    OwnRecord(acts);
  }

  /** In every run, an attempt sends a sink its commit at most once, and in the order of the
      sinks. */
  lemma CommitsSentOnce(acts: seq<Action>, p: nat, q: nat)
    requires Exec(acts).Some? && p < q < |Exec(acts).value.log|
    requires var log := Exec(acts).value.log;
             log[p].CommitSent? && log[q].CommitSent? && log[p].attempt == log[q].attempt
    ensures Exec(acts).value.log[p].sink < Exec(acts).value.log[q].sink
  {
    RunInv(acts);
  }

  /** In every run, a manifest that records a sink as committed, stored or still on its way, is
      right: a sink of that name made that epoch permanent, as asked by the attempt that wrote
      the manifest. */
  lemma ManifestsNeverOverclaim(acts: seq<Action>, m: Manifest, name: string)
    requires Exec(acts).Some?
    requires m in Exec(acts).value.store.Values || m in Exec(acts).value.inFlight
    requires Records(m, name)
    ensures Really(Exec(acts).value.log, m.attempt, m.epoch, name)
  {
    RunInv(acts);
    BackedTruthful(Exec(acts).value.log, m);
  }

  /** In every run from an empty store, id and epoch agree everywhere, and the epoch has moved by
      the number of completed checkpoints since the last start or recovery. */
  lemma IdsAreEpochs(acts: seq<Action>)
    requires Exec(acts).Some?
    ensures var s := Exec(acts).value;
            && s.nextId == s.epoch && s.epoch == s.base + (s.completed - s.since)
            && (forall id | id in s.store :: s.store[id].id == id == s.store[id].epoch)
  {
    RunInv(acts);
  }

  lemma CountLast(acts: seq<Action>)
    requires acts != [] && Exec(acts).Some? && !acts[|acts| - 1].Restart? && !acts[|acts| - 1].Recover?
    ensures Exec(acts[..|acts| - 1]).Some? && SameCount(Exec(acts[..|acts| - 1]).value, Exec(acts).value)
  {
    CountStep(Exec(acts[..|acts| - 1]).value, acts[|acts| - 1]);
  }

  /** Between two starts or recoveries, epochs advance by completed checkpoints and by nothing
      else. */
  lemma {:induction false} EpochsCountCompletions(acts: seq<Action>, more: seq<Action>)
    requires Exec(acts + more).Some?
    requires forall a | a in more :: !a.Restart? && !a.Recover?
    ensures Exec(acts).Some? && SameCount(Exec(acts).value, Exec(acts + more).value)
  {
    if more == [] {
      assert acts + more == acts;
    } else {
      var n := |more| - 1;
      CountLast(acts + more);
      assert (acts + more)[..|acts + more| - 1] == acts + more[..n];
      EpochsCountCompletions(acts, more[..n]);
    }
  }

  lemma RunReady(acts: seq<Action>)
    requires Exec(acts).Some?
    ensures var s := Exec(acts).value; Complete(s) && Claims(s) && PhaseReady(s)
  {
    RunInv(acts);
  }

  lemma CompletingStep(s: State, a: Action)
    requires Enabled(s, a) && Step(s, a).completed > s.completed
    ensures Step(s, a).sinks == s.sinks && Step(s, a).epoch == s.epoch + 1
  {
  }

  /** In every run, a step that counts a checkpoint as completed comes after a commit by every
      exactly-once sink in that attempt, provided their names are distinct. */
  lemma SuccessMeansCommitted(acts: seq<Action>, a: Action)
    requires Exec(acts + [a]).Some? && DistinctNames(Exec(acts + [a]).value.sinks)
    requires Exec(acts).Some? && Exec(acts + [a]).value.completed > Exec(acts).value.completed
    ensures AllCommitted(Exec(acts).value)
    ensures Exec(acts + [a]).value.epoch == Exec(acts).value.epoch + 1
  {
    assert (acts + [a])[..|acts|] == acts;
    RunReady(acts);
    CompletingStep(Exec(acts).value, a);
    SuccessStep(Exec(acts).value, a);
  }
}
