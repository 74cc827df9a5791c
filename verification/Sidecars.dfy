/** Which attempt's operator states lie beside a manifest. A save writes the sidecar before the
    manifest, and overwrites the sidecar even when it leaves an earlier manifest in place. */
module Sidecars {
  import opened ScalarValues
  import opened CheckpointProtocol
  import opened CheckpointRuns
  import opened CheckpointFailures
  import OperatorStates

  /** The attempt whose sidecar is stored under the id. */
  function SidecarBy(log: seq<Event>, id: nat): Option<nat> {
    if log == [] then None
    else
      var e := log[|log| - 1];
      if e.Stowed? && e.id == id then Some(e.attempt)
      else if e == Pruned(id) then None
      else SidecarBy(log[..|log| - 1], id)
  }

  /** The event takes the attempt's sidecar away, by another one or for good. */
  predicate Takes(e: Event, id: nat, attempt: nat) {
    e == Pruned(id) || (e.Stowed? && e.id == id && e.attempt != attempt)
  }

  /** The attempt's sidecar is written after position `p`. */
  ghost predicate After(log: seq<Event>, p: nat, id: nat, attempt: nat)
    requires p < |log|
  {
    Stowed(attempt, id) in log[p + 1..]
  }

  /** Since its last writing the attempt's sidecar was overwritten or pruned. */
  ghost predicate Displaced(log: seq<Event>, id: nat, attempt: nat) {
    exists p: nat :: p < |log| && Takes(log[p], id, attempt) && !After(log, p, id, attempt)
  }

  lemma {:induction false} SidecarExact(log: seq<Event>, id: nat, attempt: nat)
    ensures SidecarBy(log, id) == Some(attempt) <==> Stowed(attempt, id) in log && !Displaced(log, id, attempt)
  {
    if log == [] {
    } else {
      var n := |log| - 1;
      var e, init := log[n], log[..n];
      SidecarExact(init, id, attempt);
      if e == Stowed(attempt, id) {
        forall p: nat | p < |log| && Takes(log[p], id, attempt) ensures After(log, p, id, attempt) {
          assert log[p + 1..][n - p - 1] == e;
        }
      } else if Takes(e, id, attempt) {
        assert log[n + 1..] == [];
        assert Displaced(log, id, attempt);
      } else {
        DisplacedBefore(log, id, attempt);
      }
    }
  }

  lemma DisplacedBefore(log: seq<Event>, id: nat, attempt: nat)
    requires log != [] && log[|log| - 1] != Stowed(attempt, id) && !Takes(log[|log| - 1], id, attempt)
    ensures Displaced(log, id, attempt) <==> Displaced(log[..|log| - 1], id, attempt)
  {
    var init := log[..|log| - 1];
    forall p: nat | p < |init| ensures After(log, p, id, attempt) <==> After(init, p, id, attempt) {
      assert log[p + 1..] == init[p + 1..] + [log[|log| - 1]];
    }
    if p: nat :| p < |init| && Takes(init[p], id, attempt) && !After(init, p, id, attempt) {
      assert Takes(log[p], id, attempt);
    }
    if p: nat :| p < |log| && Takes(log[p], id, attempt) && !After(log, p, id, attempt) {
      assert Takes(init[p], id, attempt);
    }
  }

  /** Every stored manifest's sidecar was written before it. */
  ghost predicate AllStowed(s: State) {
    forall id | id in s.store :: Stowed(s.store[id].attempt, id) in s.log
  }

  lemma StowedStep(s: State, a: Action)
    requires AllStowed(s) && PhaseReady(s) && Enabled(s, a)
    ensures AllStowed(Step(s, a))
  {
    var t := Step(s, a);
    assert s.log <= t.log;
    if t.store != s.store {
      forall id | id in t.store ensures Stowed(t.store[id].attempt, id) in t.log {
        assert (id in s.store && t.store[id] == s.store[id]) || Stowed(t.store[id].attempt, id) in s.log;
      }
    }
  }

  lemma {:induction false} RunStowed(acts: seq<Action>)
    requires Exec(acts).Some?
    ensures AllStowed(Exec(acts).value)
  {
    if acts == [] {
    } else {
      var n := |acts| - 1;
      RunStowed(acts[..n]);
      RunInv(acts[..n]);
      StowedStep(Exec(acts[..n]).value, acts[n]);
    }
  }

  /** In every run, the sidecar read with a stored manifest is that of the attempt that wrote the
      manifest exactly when no other attempt's sidecar and no prune of that id has come after it. */
  lemma OwnSidecarExact(acts: seq<Action>, id: nat)
    requires Exec(acts).Some? && id in Exec(acts).value.store
    ensures var s := Exec(acts).value;
            SidecarBy(s.log, id) == Some(s.store[id].attempt) <==> !Displaced(s.log, id, s.store[id].attempt)
  {
    RunStowed(acts);
    SidecarExact(Exec(acts).value.log, id, Exec(acts).value.store[id].attempt);
  }

  /** What an attempt packed: its operators' states, the manifest's entries and the sidecar. */
  datatype Packed = Packed(states: OperatorStates.States, ops: OperatorStates.Ops, blob: OperatorStates.Bytes)

  /** Recovery from a manifest whose sidecar is not displaced gives every operator the bytes that
      the manifest's own attempt saved for it. */
  lemma RecoveredStates(acts: seq<Action>, id: nat, threshold: nat, packed: nat -> Packed)
    requires Exec(acts).Some? && id in Exec(acts).value.store
    requires var s := Exec(acts).value; !Displaced(s.log, id, s.store[id].attempt)
    requires forall a: nat ::
               && packed(a).ops.Keys == packed(a).states.Keys
               && OperatorStates.Filed(packed(a).states, threshold, packed(a).ops, packed(a).blob)
    ensures var s := Exec(acts).value;
            var own, found := packed(s.store[id].attempt), SidecarBy(s.log, id);
            && found.Some?
            && forall op | op in own.ops ::
                 OperatorStates.Resolve(own.ops[op], packed(found.value).blob) == OperatorStates.Inline(own.states[op])
  {
    OwnSidecarExact(acts, id);
    var own := packed(Exec(acts).value.store[id].attempt);
    OperatorStates.PackResolve(own.states, threshold, own.ops, own.blob);
  }

  /** A retry whose save keeps the earlier manifest leaves its own sidecar beside it. */
  lemma RetryDisplacesSidecar(sink: Sink)
    requires sink.exactlyOnce
    ensures var run := Exec(Retry(sink));
            && run.Some? && 1 in run.value.store && run.value.store[1].attempt == 1
            && SidecarBy(run.value.log, 1) == Some(2)
  {
    var s := RetryRun(sink);
    assert s.log[..|s.log| - 1][|s.log| - 2] == Stowed(2, 1);
  }
}
