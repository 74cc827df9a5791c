/** Operator states in a checkpoint: small states travel inside the manifest, large ones are
    appended to one sidecar blob and referenced by offset and length. */
module OperatorStates {
  import opened ScalarValues

  type Bytes = seq<bv8>

  /** A manifest entry for one operator. */
  datatype Op = Inline(data: Bytes) | External(offset: nat, length: nat) {
    function End(): nat
      requires External?
    {
      offset + length
    }

    predicate Covers(p: nat) {
      External? && offset <= p < End()
    }
  }

  type States = map<string, Bytes>

  type Ops = map<string, Op>

  /** Entry `op` gives back `data` when read against the sidecar. */
  predicate Reads(op: Op, sidecar: Bytes, data: Bytes) {
    match op
    case Inline(d) => d == data
    case External(offset, length) => op.End() <= |sidecar| && sidecar[offset..op.End()] == data
  }

  /** The external ranges are non-empty, pairwise disjoint, and cover every byte. */
  ghost predicate Tiles(ops: Ops, sidecar: Bytes) {
    && (forall a | a in ops && ops[a].External? :: 0 < ops[a].length && ops[a].End() <= |sidecar|)
    && (forall a, b | a in ops && b in ops && a != b && ops[a].External? && ops[b].External? ::
          ops[a].End() <= ops[b].offset || ops[b].End() <= ops[a].offset)
    && (forall p: nat | p < |sidecar| :: CoveredBySome(ops, p))
  }

  ghost predicate CoveredBySome(ops: Ops, p: nat) {
    exists a :: a in ops && ops[a].Covers(p)
  }

  /** Every state is filed, inline exactly when it fits the threshold, and readable. */
  ghost predicate Filed(states: States, threshold: nat, ops: Ops, sidecar: Bytes) {
    && ops.Keys <= states.Keys
    && (forall a | a in ops ::
          (ops[a].Inline? <==> |states[a]| <= threshold) && Reads(ops[a], sidecar, states[a]))
  }

  /** Sort states into inline entries and sidecar ranges, in hash-map order. */
  method PackOperatorStates(states: States, threshold: nat) returns (ops: Ops, blob: Option<Bytes>)
    ensures ops.Keys == states.Keys
    ensures Filed(states, threshold, ops, Sidecar(blob)) && Tiles(ops, Sidecar(blob))
    ensures blob.None? <==> forall a | a in states :: |states[a]| <= threshold
    ensures blob.Some? ==> blob.value != []
  {
    ops := map[];
    var sidecar: Bytes := [];
    var todo := states.Keys;
    while todo != {}
      invariant todo <= states.Keys && ops.Keys == states.Keys - todo
      invariant Filed(states, threshold, ops, sidecar) && Tiles(ops, sidecar)
      decreases todo
    {
      var name :| name in todo;
      var data := states[name];
      if |data| <= threshold {
        PackInline(states, threshold, ops, sidecar, name);
        ops := ops[name := Inline(data)];
      } else {
        PackExternal(states, threshold, ops, sidecar, name);
        ops := ops[name := External(|sidecar|, |data|)];
        sidecar := sidecar + data;
      }
      todo := todo - {name};
    }
    if |sidecar| == 0 {
      blob := None;
    } else {
      assert CoveredBySome(ops, 0);
      blob := Some(sidecar);
    }
  }

  function Sidecar(blob: Option<Bytes>): Bytes {
    if blob.Some? then blob.value else []
  }

  lemma PackInline(states: States, threshold: nat, ops: Ops, sidecar: Bytes, name: string)
    requires Filed(states, threshold, ops, sidecar) && Tiles(ops, sidecar)
    requires name in states && name !in ops && |states[name]| <= threshold
    ensures var after := ops[name := Inline(states[name])];
            Filed(states, threshold, after, sidecar) && Tiles(after, sidecar)
  {
    var after := ops[name := Inline(states[name])];
    forall p: nat | p < |sidecar| ensures CoveredBySome(after, p) {
      assert CoveredBySome(ops, p);
      var a :| a in ops && ops[a].Covers(p);
      assert after[a].Covers(p);
    }
  }

  lemma PackExternal(states: States, threshold: nat, ops: Ops, sidecar: Bytes, name: string)
    requires Filed(states, threshold, ops, sidecar) && Tiles(ops, sidecar)
    requires name in states && name !in ops && |states[name]| > threshold
    ensures var after := ops[name := External(|sidecar|, |states[name]|)];
            Filed(states, threshold, after, sidecar + states[name]) && Tiles(after, sidecar + states[name])
  {
    var data := states[name];
    TilesGrow(ops, sidecar, name, data);
    var op := External(|sidecar|, |data|);
    var after, grown := ops[name := op], sidecar + data;
    forall a | a in after ensures Reads(after[a], grown, states[a]) {
      if a == name {
        assert grown[op.offset..op.End()] == data;
      } else if ops[a].External? {
        assert grown[ops[a].offset..ops[a].End()] == sidecar[ops[a].offset..ops[a].End()];
      }
    }
  }

  lemma TilesGrow(ops: Ops, sidecar: Bytes, name: string, data: Bytes)
    requires Tiles(ops, sidecar) && name !in ops && data != []
    ensures Tiles(ops[name := External(|sidecar|, |data|)], sidecar + data)
  {
    var after := ops[name := External(|sidecar|, |data|)];
    forall p: nat | p < |sidecar + data| ensures CoveredBySome(after, p) {
      if p < |sidecar| {
        assert CoveredBySome(ops, p);
        var a :| a in ops && ops[a].Covers(p);
        assert after[a].Covers(p);
      } else {
        assert after[name].Covers(p);
      }
    }
  }

  // ----- Recovery -----------------------------------------------------------------------------------

  /** An external entry replaced by its bytes, or by empty state when the sidecar is too short. */
  function Resolve(op: Op, data: Bytes): Op {
    if op.Inline? then op
    else if op.End() <= |data| then Inline(data[op.offset..op.End()])
    else Inline([])
  }

  predicate Fits(op: Op, data: Bytes) {
    op.External? ==> op.End() <= |data|
  }

  /** Read the sidecar, when there is one, and make every entry inline. A missing or unreadable
      sidecar empties the external entries. */
  method ResolveExternalStates(ops: Ops, loaded: Option<Bytes>) returns (resolved: Ops, ok: bool)
    ensures resolved.Keys == ops.Keys
    ensures forall a | a in ops :: resolved[a] == if loaded.Some? then Resolve(ops[a], loaded.value)
                                                  else if ops[a].External? then Inline([]) else ops[a]
    ensures ok <==> forall a | a in ops :: ops[a].External? ==> loaded.Some? && Fits(ops[a], loaded.value)
  {
    resolved := ops;
    var external := set a | a in ops && ops[a].External?;
    if external == {} {
      assert forall a | a in ops :: a !in external;
      return ops, true;
    }
    ok := loaded.Some?;
    var todo := external;
    ghost var some :| some in external;
    while todo != {}
      invariant todo <= external && resolved.Keys == ops.Keys
      invariant forall a | a in ops && a in todo :: resolved[a] == ops[a]
      invariant forall a | a in ops && a !in todo ::
                  resolved[a] == if loaded.Some? then Resolve(ops[a], loaded.value)
                                 else if ops[a].External? then Inline([]) else ops[a]
      invariant loaded.None? ==> !ok
      invariant loaded.Some? ==> (ok <==> forall a | a in external && a !in todo :: Fits(ops[a], loaded.value))
      decreases todo
    {
      var name :| name in todo;
      var op := ops[name];
      if loaded.Some? && op.End() <= |loaded.value| {
        resolved := resolved[name := Inline(loaded.value[op.offset..op.End()])];
      } else {
        resolved := resolved[name := Inline([])];
        ok := false;
      }
      todo := todo - {name};
    }
  }

  /** Reading back what was packed recovers every operator's bytes. */
  lemma PackResolve(states: States, threshold: nat, ops: Ops, sidecar: Bytes)
    requires ops.Keys == states.Keys && Filed(states, threshold, ops, sidecar)
    ensures forall a | a in ops :: Fits(ops[a], sidecar) && Resolve(ops[a], sidecar) == Inline(states[a])
  {
    forall a | a in ops ensures Fits(ops[a], sidecar) && Resolve(ops[a], sidecar) == Inline(states[a]) {
      assert Reads(ops[a], sidecar, states[a]);
    }
  }

  /** A sidecar cut short is noticed, whatever the cut: all entries fit only if nothing is
      missing. An entry that does fit is still the operator's own bytes. */
  lemma TruncationDetected(states: States, threshold: nat, ops: Ops, sidecar: Bytes, cut: nat)
    requires ops.Keys == states.Keys && Filed(states, threshold, ops, sidecar) && Tiles(ops, sidecar)
    requires cut <= |sidecar|
    ensures (forall a | a in ops :: Fits(ops[a], sidecar[..cut])) <==> cut == |sidecar|
    ensures forall a | a in ops ::
              Resolve(ops[a], sidecar[..cut]) == Inline(if Fits(ops[a], sidecar[..cut]) then states[a] else [])
  {
    if cut < |sidecar| {
      assert CoveredBySome(ops, |sidecar| - 1);
      var a :| a in ops && ops[a].Covers(|sidecar| - 1);
      assert !Fits(ops[a], sidecar[..cut]);
    }
    forall a | a in ops
      ensures Resolve(ops[a], sidecar[..cut]) == Inline(if Fits(ops[a], sidecar[..cut]) then states[a] else [])
    {
      var op := ops[a];
      assert Reads(op, sidecar, states[a]);
      assert op.External? && op.End() <= cut ==> sidecar[..cut][op.offset..op.End()] == sidecar[op.offset..op.End()];
    }
  }
}
