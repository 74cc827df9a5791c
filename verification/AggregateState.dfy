/** The running GROUP BY: per-group accumulators updated column by column from projected
    batches, under a cardinality cap, with checkpoint and restore. */
module AggregateState {
  import opened Collections
  import opened ScalarValues
  import opened ScalarCodec
  import opened Rows
  import opened GroupCap
  import opened PreAggregation
  import opened GroupRuns
  import opened Accumulators
  import opened Snapshots
  import opened Restarts
  import opened Runs
  import opened TableRuns

  /** One aggregate function: an accumulator starts empty, takes argument tuples one after the
      other, combines with another one, and is saved as scalars that merge back into an empty
      one or are refused. */
  datatype Kind<!A> = Kind(
    empty: A, step: (A, Tuple) -> A, combine: (A, A) -> A, state: A -> seq<Scalar>, merge: seq<Scalar> -> Option<A>)

  function Fold<A>(kind: Kind<A>, a: A, rows: seq<Tuple>): A {
    if rows == [] then a else kind.step(Fold(kind, a, rows[..|rows| - 1]), rows[|rows| - 1])
  }

  lemma {:induction false} FoldConcat<A>(kind: Kind<A>, a: A, p: seq<Tuple>, q: seq<Tuple>)
    ensures Fold(kind, Fold(kind, a, p), q) == Fold(kind, a, p + q)
  {
    if q == [] {
      assert p + q == p;
    } else {
      FoldConcat(kind, a, p, q[..|q| - 1]);
      assert (p + q)[..|p + q| - 1] == p + q[..|q| - 1];
    }
  }

  /** The accumulator goes from `a` to `r` by taking the rows in order, each once. */
  ghost predicate Takes<A(!new)>(kind: Kind<A>, a: A, rows: seq<Tuple>, r: A) {
    exists trail: seq<A> :: IsTrail(kind, a, rows, r, trail)
  }

  ghost predicate IsTrail<A(!new)>(kind: Kind<A>, a: A, rows: seq<Tuple>, r: A, trail: seq<A>) {
    && |trail| == |rows| + 1 && trail[0] == a && trail[|rows|] == r
    && forall i | 0 <= i < |rows| :: trail[i + 1] == kind.step(trail[i], rows[i])
  }

  lemma {:induction false} FoldTakes<A(!new)>(kind: Kind<A>, a: A, rows: seq<Tuple>)
    ensures Takes(kind, a, rows, Fold(kind, a, rows))
  {
    if rows == [] {
      assert IsTrail(kind, a, rows, a, [a]);
    } else {
      var init, last := rows[..|rows| - 1], rows[|rows| - 1];
      FoldTakes(kind, a, init);
      var trail :| IsTrail(kind, a, init, Fold(kind, a, init), trail);
      assert IsTrail(kind, a, rows, Fold(kind, a, rows), trail + [Fold(kind, a, rows)]);
    }
  }

  type Column = seq<Scalar>

  lemma {:induction false} FedConcat(spec: Spec, p: seq<Tuple>, q: seq<Tuple>)
    ensures Fed(spec, p + q) == Fed(spec, p) + Fed(spec, q)
  {
    if q == [] {
      assert p + q == p;
    } else {
      FedConcat(spec, p, q[..|q| - 1]);
      assert (p + q)[..|p + q| - 1] == p + q[..|q| - 1];
    }
  }

  // ----- The accumulators of a group --------------------------------------------------------------------

  /** Each accumulator takes the arguments of its own aggregate, masked. */
  function FeedKinds<A>(kinds: seq<Kind<A>>, specs: seq<Spec>, accs: seq<A>, rows: seq<Tuple>): seq<A> {
    seq(|accs|, i requires 0 <= i < |accs| =>
      if i < |kinds| && i < |specs| then Fold(kinds[i], accs[i], Fed(specs[i], rows)) else accs[i])
  }

  function Empties<A>(kinds: seq<Kind<A>>): seq<A> {
    seq(|kinds|, i requires 0 <= i < |kinds| => kinds[i].empty)
  }

  function StatesOf<A>(kinds: seq<Kind<A>>, accs: seq<A>): seq<seq<Scalar>> {
    seq(|accs|, i requires 0 <= i < |accs| => if i < |kinds| then kinds[i].state(accs[i]) else [])
  }

  /** Merge saved states into empty accumulators, one by one; an aggregate beyond the saved
      states starts empty. */
  function MergeStates<A>(kinds: seq<Kind<A>>, ss: seq<seq<Scalar>>): (r: Option<seq<A>>)
    ensures r.Some? ==> |r.value| == |kinds|
  {
    if kinds == [] then Some([])
    else
      var n := |kinds| - 1;
      var init := MergeStates(kinds[..n], ss);
      if init.None? then None
      else
        var last := if n < |ss| then kinds[n].merge(ss[n]) else Some(kinds[n].empty);
        if last.None? then None else Some(init.value + [last.value])
  }

  function CombineKinds<A>(kinds: seq<Kind<A>>, a: seq<A>, b: seq<A>): seq<A> {
    seq(|a|, i requires 0 <= i < |a| => if i < |kinds| && i < |b| then kinds[i].combine(a[i], b[i]) else a[i])
  }

  /** The accumulators of a group of this query, as one. */
  function GroupOf<A>(kinds: seq<Kind<A>>, specs: seq<Spec>): Accumulators<Tuple, seq<A>> {
    Accumulators(
      Empties(kinds),
      (accs, rows) => FeedKinds(kinds, specs, accs, rows),
      (a, b) => CombineKinds(kinds, a, b),
      accs => StatesOf(kinds, accs),
      ss => MergeStates(kinds, ss))
  }

  lemma MergedAll<A(!new)>(kinds: seq<Kind<A>>, ss: seq<seq<Scalar>>, accs: seq<A>)
    requires |ss| == |kinds| == |accs|
    ensures MergeStates(kinds, ss) == Some(accs) <==>
            forall i | 0 <= i < |kinds| :: kinds[i].merge(ss[i]) == Some(accs[i])
  {
    MergedPrefix(kinds, ss, accs);
    assert kinds[..|kinds|] == kinds;
  }

  lemma {:induction false} MergedPrefix<A(!new)>(kinds: seq<Kind<A>>, ss: seq<seq<Scalar>>, accs: seq<A>)
    requires |kinds| == |accs| <= |ss|
    ensures MergeStates(kinds, ss) == Some(accs) <==>
            forall i | 0 <= i < |kinds| :: kinds[i].merge(ss[i]) == Some(accs[i])
  {
    if kinds == [] {
    } else {
      var n := |kinds| - 1;
      MergedPrefix(kinds[..n], ss, accs[..n]);
      assert accs == accs[..n] + [accs[n]];
      var init := MergeStates(kinds[..n], ss);
      if MergeStates(kinds, ss) == Some(accs) {
        assert init.value == MergeStates(kinds, ss).value[..n];
      }
    }
  }

  /** A group comes back from a checkpoint unchanged exactly when each of its accumulators does:
      its state can be read back, and its widened form merges to the same accumulator. */
  lemma GroupKept<A(!new)>(kinds: seq<Kind<A>>, specs: seq<Spec>, accs: seq<A>)
    requires |accs| == |kinds|
    ensures Kept(GroupOf(kinds, specs), accs) <==>
            forall i | 0 <= i < |kinds| ::
              && !AnyUnreadable(kinds[i].state(accs[i]))
              && kinds[i].merge(WidenAll(kinds[i].state(accs[i]))) == Some(accs[i])
  {
    var ss := GroupOf(kinds, specs).states(accs);
    assert forall i | 0 <= i < |kinds| :: ss[i] == kinds[i].state(accs[i]);
    MergedAll(kinds, WidenStates(ss), accs);
  }

  /** If combining two accumulators of a kind is taking the rows of both, it is so for a group. */
  lemma GroupCombines<A(!new)>(kinds: seq<Kind<A>>, specs: seq<Spec>, p: seq<Tuple>, q: seq<Tuple>)
    requires |specs| == |kinds|
    requires forall i, x: seq<Tuple>, y: seq<Tuple> | 0 <= i < |kinds| ::
               kinds[i].combine(Fold(kinds[i], kinds[i].empty, x), Fold(kinds[i], kinds[i].empty, y))
               == Fold(kinds[i], kinds[i].empty, x + y)
    ensures var acc := GroupOf(kinds, specs); acc.combine(Of(acc, p), Of(acc, q)) == Of(acc, p + q)
  {
    forall i | 0 <= i < |kinds| ensures Fed(specs[i], p + q) == Fed(specs[i], p) + Fed(specs[i], q) {
      FedConcat(specs[i], p, q);
    }
  }

  lemma GroupSequential<A(!new)>(kinds: seq<Kind<A>>, specs: seq<Spec>)
    ensures Sequential(GroupOf(kinds, specs))
  {
    forall accs: seq<A>, p: seq<Tuple>, q: seq<Tuple>
      ensures FeedKinds(kinds, specs, FeedKinds(kinds, specs, accs, p), q) == FeedKinds(kinds, specs, accs, p + q)
    {
      FeedTwice(kinds, specs, accs, p, q);
    }
  }

  lemma FeedTwice<A>(kinds: seq<Kind<A>>, specs: seq<Spec>, accs: seq<A>, p: seq<Tuple>, q: seq<Tuple>)
    ensures FeedKinds(kinds, specs, FeedKinds(kinds, specs, accs, p), q) == FeedKinds(kinds, specs, accs, p + q)
  {
    forall i | 0 <= i < |accs| && i < |kinds| && i < |specs|
      ensures Fold(kinds[i], Fold(kinds[i], accs[i], Fed(specs[i], p)), Fed(specs[i], q))
           == Fold(kinds[i], accs[i], Fed(specs[i], p + q))
    {
      FoldConcat(kinds[i], accs[i], Fed(specs[i], p), Fed(specs[i], q));
      FedConcat(specs[i], p, q);
    }
  }

  // ----- Column-wise updates --------------------------------------------------------------------------

  function ColumnOf(rows: seq<Tuple>, c: nat): Column {
    seq(|rows|, i requires 0 <= i < |rows| => Cell(rows[i], c))
  }

  /** Keep the values whose mask is true; false and null drop them. */
  function Keep(column: Column, mask: Column): Column
    requires |column| == |mask|
  {
    if column == [] then []
    else
      var n := |column| - 1;
      Keep(column[..n], mask[..n]) + (if mask[n] == TRUE then [column[n]] else [])
  }

  /** The rows an accumulator reads from its input arrays. */
  function Zip(columns: seq<Column>, n: nat): seq<Tuple>
    requires forall k | 0 <= k < |columns| :: |columns[k]| == n
  {
    seq(n, i requires 0 <= i < n => seq(|columns|, k requires 0 <= k < |columns| => columns[k][i]))
  }

  ghost function KeptColumn(spec: Spec, rows: seq<Tuple>, c: nat): Column {
    if spec.filter.Some? then Keep(ColumnOf(rows, c), ColumnOf(rows, spec.filter.value)) else ColumnOf(rows, c)
  }

  /** Masking the columns one by one keeps them aligned: position `i` of each is the cell of the
      i-th row fed. */
  lemma {:induction false} KeptAligned(spec: Spec, rows: seq<Tuple>, k: nat)
    requires k < |spec.inputs|
    ensures var kept, fed := KeptColumn(spec, rows, spec.inputs[k]), Fed(spec, rows);
            |kept| == |fed| && forall i | 0 <= i < |fed| :: |fed[i]| == |spec.inputs| && fed[i][k] == kept[i]
  {
    if rows == [] {
    } else {
      var n := |rows| - 1;
      KeptAligned(spec, rows[..n], k);
      var c := spec.inputs[k];
      assert ColumnOf(rows, c)[..n] == ColumnOf(rows[..n], c);
      if spec.filter.Some? {
        assert ColumnOf(rows, spec.filter.value)[..n] == ColumnOf(rows[..n], spec.filter.value);
      } else {
        assert ColumnOf(rows, c) == ColumnOf(rows[..n], c) + [Cell(rows[n], c)];
      }
    }
  }

  /** Column-wise filtering and zipping feeds an accumulator exactly its masked rows. */
  lemma ColumnwiseIsRowwise(spec: Spec, rows: seq<Tuple>, columns: seq<Column>)
    requires |spec.inputs| > 0 && |columns| == |spec.inputs|
    requires forall k | 0 <= k < |columns| :: columns[k] == KeptColumn(spec, rows, spec.inputs[k])
    ensures forall k | 0 <= k < |columns| :: |columns[k]| == |columns[0]|
    ensures Zip(columns, |columns[0]|) == Fed(spec, rows)
  {
    var fed := Fed(spec, rows);
    forall k | 0 <= k < |columns|
      ensures |columns[k]| == |fed| && forall i | 0 <= i < |fed| :: |fed[i]| == |spec.inputs| && fed[i][k] == columns[k][i]
    {
      KeptAligned(spec, rows, k);
    }
    var zipped := Zip(columns, |fed|);
    forall i | 0 <= i < |fed| ensures zipped[i] == fed[i] {
      assert forall k | 0 <= k < |columns| :: zipped[i][k] == columns[k][i] && fed[i][k] == columns[k][i];
      assert |fed[i]| == |spec.inputs| by { KeptAligned(spec, rows, 0); }
    }
  }

  method Gather(spec: Spec, rows: seq<Tuple>) returns (columns: seq<Column>)
    ensures |columns| == |spec.inputs|
    ensures forall k | 0 <= k < |columns| :: columns[k] == KeptColumn(spec, rows, spec.inputs[k])
  {
    columns := [];
    for k := 0 to |spec.inputs|
      invariant |columns| == k
      invariant forall j | 0 <= j < k :: columns[j] == ColumnOf(rows, spec.inputs[j])
    {
      columns := columns + [ColumnOf(rows, spec.inputs[k])];
    }
    if spec.filter.Some? {
      var mask := ColumnOf(rows, spec.filter.value);
      var filtered: seq<Column> := [];
      for k := 0 to |columns|
        invariant |filtered| == k
        invariant forall j | 0 <= j < k :: filtered[j] == KeptColumn(spec, rows, spec.inputs[j])
      {
        filtered := filtered + [Keep(columns[k], mask)];
      }
      columns := filtered;
    }
  }

  /** Feed the chosen rows of a batch to every accumulator of one group. */
  method UpdateGroupAccumulators<A(!new)>(kinds: seq<Kind<A>>, specs: seq<Spec>, accs: seq<A>, batch: seq<Tuple>,
                                    indices: seq<nat>) returns (after: seq<A>)
    requires |accs| == |kinds| == |specs| && forall i | 0 <= i < |indices| :: indices[i] < |batch|
    requires forall i | 0 <= i < |specs| :: |specs[i].inputs| > 0
    ensures after == FeedKinds(kinds, specs, accs, Take(batch, indices))
    ensures forall i | 0 <= i < |specs| :: Takes(kinds[i], accs[i], Fed(specs[i], Take(batch, indices)), after[i])
  {
    var rows := Take(batch, indices);
    after := accs;
    for i := 0 to |specs|
      invariant |after| == |specs|
      invariant forall j | 0 <= j < i :: after[j] == Fold(kinds[j], accs[j], Fed(specs[j], rows))
      invariant forall j | i <= j < |specs| :: after[j] == accs[j]
    {
      var columns := Gather(specs[i], rows);
      ColumnwiseIsRowwise(specs[i], rows, columns);
      after := after[i := Fold(kinds[i], after[i], Zip(columns, |columns[0]|))];
    }
    forall i | 0 <= i < |specs| ensures Takes(kinds[i], accs[i], Fed(specs[i], rows), after[i]) {
      FoldTakes(kinds[i], accs[i], Fed(specs[i], rows));
    }
  }

  // ----- Grouping -------------------------------------------------------------------------------------

  ghost predicate Indexes(n: nat, batch: seq<Tuple>, grouped: map<Key, seq<nat>>, k: Key, rows: seq<Tuple>) {
    && (k in grouped <==> rows != [])
    && (k in grouped ==>
          && (forall i | 0 <= i < |grouped[k]| :: grouped[k][i] < |batch|)
          && Take(batch, grouped[k]) == rows)
  }

  ghost predicate Grouped(n: nat, batch: seq<Tuple>, grouped: map<Key, seq<nat>>, prefix: seq<Tuple>) {
    forall k: Key :: Indexes(n, batch, grouped, k, RowsOf(n, k, prefix))
  }

  lemma GroupRow(n: nat, batch: seq<Tuple>, grouped: map<Key, seq<nat>>, i: nat)
    requires i < |batch| && n <= |batch[i]| && Grouped(n, batch, grouped, batch[..i])
    ensures var key := batch[i][..n];
            var indices := (if key in grouped then grouped[key] else []) + [i];
            Grouped(n, batch, grouped[key := indices], batch[..i + 1])
  {
    var key := batch[i][..n];
    var known := if key in grouped then grouped[key] else [];
    var after, prefix := grouped[key := known + [i]], batch[..i + 1];
    assert prefix == batch[..i] + [batch[i]];
    forall k: Key ensures Indexes(n, batch, after, k, RowsOf(n, k, prefix)) {
      assert Indexes(n, batch, grouped, k, RowsOf(n, k, batch[..i]));
      RowsOfMore(n, k, batch[..i], batch[i]);
      if k == key {
        assert Take(batch, known + [i]) == Take(batch, known) + [batch[i]];
      } else {
        assert RowsOf(n, k, prefix) == RowsOf(n, k, batch[..i]);
      }
    }
  }

  method GroupIndices(n: nat, batch: seq<Tuple>) returns (grouped: map<Key, seq<nat>>)
    requires forall i | 0 <= i < |batch| :: n <= |batch[i]|
    ensures Grouped(n, batch, grouped, batch)
  {
    grouped := map[];
    for i := 0 to |batch|
      invariant Grouped(n, batch, grouped, batch[..i])
    {
      GroupRow(n, batch, grouped, i);
      var key := batch[i][..n];
      grouped := grouped[key := (if key in grouped then grouped[key] else []) + [i]];
    }
    assert batch[..|batch|] == batch;
  }

  lemma GroupedOrder(n: nat, batch: seq<Tuple>, grouped: map<Key, seq<nat>>, order: seq<Key>)
    requires Grouped(n, batch, grouped, batch) && VisitedOnce(order, grouped.Keys, {})
    ensures IsOrder(n, order, batch)
  {
    forall k ensures k in order <==> RowsOf(n, k, batch) != [] {
      assert Indexes(n, batch, grouped, k, RowsOf(n, k, batch));
    }
  }

  lemma FeedAllMore<A>(acc: Accumulators<Tuple, A>, cap: Option<nat>, n: nat, t: Table<A>, order: seq<Key>, k: Key,
                       batch: seq<Tuple>)
    ensures FeedAll(acc, cap, n, t, order + [k], batch) ==
            AdmitTo(acc, FeedAll(acc, cap, n, t, order, batch), k, RowsOf(n, k, batch), cap)
  {
    assert (order + [k])[..|order|] == order;
  }

  datatype AggStateCheckpoint = AggStateCheckpoint(fingerprint: int, groups: seq<Entry<Saved>>)

  class IncrementalAggState<A(!new)> {
    const numGroupCols: nat
    const kinds: seq<Kind<A>>
    const specs: seq<Spec>
    const maxGroups: nat
    const fingerprint: int
    var groups: Table<seq<A>>

    /** A query is set up with one kind per aggregate, each reading some column. */
    ghost predicate Valid()
      reads this
    {
      && |kinds| == |specs| && (forall i | 0 <= i < |specs| :: |specs[i].inputs| > 0)
      && forall k | k in groups :: |groups[k]| == |kinds|
    }

    /** A query without GROUP BY has one group and no cap. */
    function Cap(): Option<nat> {
      if numGroupCols == 0 then None else Some(maxGroups)
    }

    function Acc(): Accumulators<Tuple, seq<A>> {
      GroupOf(kinds, specs)
    }

    constructor (numGroupCols: nat, kinds: seq<Kind<A>>, specs: seq<Spec>, maxGroups: nat, fingerprint: int)
      requires |kinds| == |specs| && forall i | 0 <= i < |specs| :: |specs[i].inputs| > 0
      ensures Valid() && groups == map[]
      ensures this.numGroupCols == numGroupCols && this.kinds == kinds && this.specs == specs
      ensures this.maxGroups == maxGroups && this.fingerprint == fingerprint
    {
      this.numGroupCols, this.kinds, this.specs := numGroupCols, kinds, specs;
      this.maxGroups, this.fingerprint := maxGroups, fingerprint;
      groups := map[];
    }

    /** Group a projected batch by key and update each group once. */
    method ProcessBatch(batch: seq<Tuple>)
      requires Valid() && forall i | 0 <= i < |batch| :: numGroupCols <= |batch[i]|
      modifies this
      ensures Valid() && BatchNext(Acc(), Cap(), numGroupCols, old(groups), batch, groups)
    {
      if |batch| == 0 {
        assert IsOrder(numGroupCols, [], batch);
        assert groups == FeedAll(Acc(), Cap(), numGroupCols, groups, [], batch);
        return;
      }
      if numGroupCols == 0 {
        ProcessBatchNoGroups(batch);
        return;
      }
      var grouped := GroupIndices(numGroupCols, batch);
      ghost var order := VisitGroups(batch, grouped);
      GroupedOrder(numGroupCols, batch, grouped, order);
    }

    /** Update each group once, in whatever order the hash map yields them. */
    method VisitGroups(batch: seq<Tuple>, grouped: map<Key, seq<nat>>) returns (ghost order: seq<Key>)
      requires Valid() && numGroupCols > 0 && Grouped(numGroupCols, batch, grouped, batch)
      modifies this
      ensures Valid() && VisitedOnce(order, grouped.Keys, {})
      ensures groups == FeedAll(Acc(), Cap(), numGroupCols, old(groups), order, batch)
    {
      order := [];
      var todo := grouped.Keys;
      while todo != {}
        invariant Valid() && todo <= grouped.Keys && VisitedOnce(order, grouped.Keys, todo)
        invariant groups == FeedAll(Acc(), Cap(), numGroupCols, old(groups), order, batch)
        decreases todo
      {
        var key :| key in todo;
        assert Indexes(numGroupCols, batch, grouped, key, RowsOf(numGroupCols, key, batch));
        FeedAllMore(Acc(), Cap(), numGroupCols, old(groups), order, key, batch);
        UpdateGroup(key, batch, grouped[key]);
        order, todo := order + [key], todo - {key};
      }
    }

    /** Make sure the group exists, unless the table is full, and feed it. */
    method UpdateGroup(key: Key, batch: seq<Tuple>, indices: seq<nat>)
      requires Valid() && numGroupCols > 0 && forall i | 0 <= i < |indices| :: indices[i] < |batch|
      modifies this
      ensures Valid() && groups == AdmitTo(Acc(), old(groups), key, Take(batch, indices), Cap())
    {
      if key !in groups {
        if |groups| >= maxGroups {
          return;
        }
        groups := groups[key := Empties(kinds)];
      }
      Feed(key, batch, indices);
    }

    method Feed(key: Key, batch: seq<Tuple>, indices: seq<nat>)
      requires Valid() && key in groups && forall i | 0 <= i < |indices| :: indices[i] < |batch|
      modifies this
      ensures Valid() && key in old(groups)
      ensures groups == old(groups)[key := Acc().feed(old(groups)[key], Take(batch, indices))]
    {
      var accs := UpdateGroupAccumulators(kinds, specs, groups[key], batch, indices);
      groups := groups[key := accs];
    }

    /** Without GROUP BY all rows go to the group of the empty key. */
    method ProcessBatchNoGroups(batch: seq<Tuple>)
      requires Valid() && numGroupCols == 0 && |batch| > 0
      modifies this
      ensures Valid() && BatchNext(Acc(), Cap(), numGroupCols, old(groups), batch, groups)
    {
      var key: Key := [];
      if key !in groups {
        groups := groups[key := Empties(kinds)];
      }
      var all := seq(|batch|, i => i);
      assert Take(batch, all) == batch;
      Feed(key, batch, all);
      OnlyGroup(Acc(), old(groups), batch);
    }

    method CheckpointGroups() returns (cp: AggStateCheckpoint, ghost keys: seq<Key>)
      ensures cp.fingerprint == fingerprint && Lists(Saver(Acc()), cp.groups, groups, keys)
    {
      var entries;
      entries, keys := Save(Saver(Acc()), groups);
      cp := AggStateCheckpoint(fingerprint, entries);
    }

    /** A fingerprint mismatch touches nothing; a key or a state that cannot be read leaves the
        groups before it. Whatever the checkpoint, the operator can go on. */
    method RestoreGroups(cp: AggStateCheckpoint) returns (r: Result<nat>)
      requires Valid()
      modifies this
      ensures Valid()
      ensures cp.fingerprint != fingerprint ==> r.Failure? && groups == old(groups)
      ensures cp.fingerprint == fingerprint && Restore(Loader(Acc()), cp.groups).Success? ==>
                r == Success(|cp.groups|) && Restore(Loader(Acc()), cp.groups) == Success(groups)
      ensures cp.fingerprint == fingerprint && Restore(Loader(Acc()), cp.groups).Failure? ==>
                r.Failure? && exists n: nat :: StoppedAt(Loader(Acc()), cp.groups, n, groups)
    {
      if cp.fingerprint != fingerprint {
        return Failure("checkpoint fingerprint mismatch");
      }
      var error;
      error, groups := Load(Loader(Acc()), cp.groups);
      LoadedWidth(kinds, specs, cp.groups, groups);
      if error.Some? {
        return Failure(error.value);
      }
      return Success(|cp.groups|);
    }
  }

  lemma LoadedWidth<A(!new)>(kinds: seq<Kind<A>>, specs: seq<Spec>, entries: seq<Entry<Saved>>, g: Table<seq<A>>)
    requires var load := Loader(GroupOf(kinds, specs));
             Restore(load, entries) == Success(g) || exists n: nat :: StoppedAt(load, entries, n, g)
    ensures forall k | k in g :: |g[k]| == |kinds|
  {
    var load := Loader(GroupOf(kinds, specs));
    if Restore(load, entries) == Success(g) {
      RestoredWidth(kinds, specs, entries);
    } else {
      var n: nat :| StoppedAt(load, entries, n, g);
      RestoredWidth(kinds, specs, entries[..n]);
    }
  }

  lemma {:induction false} RestoredWidth<A(!new)>(kinds: seq<Kind<A>>, specs: seq<Spec>, entries: seq<Entry<Saved>>)
    requires Restore(Loader(GroupOf(kinds, specs)), entries).Success?
    ensures forall k | k in Restore(Loader(GroupOf(kinds, specs)), entries).value ::
              |Restore(Loader(GroupOf(kinds, specs)), entries).value[k]| == |kinds|
  {
    if entries == [] {
    } else {
      RestoredWidth(kinds, specs, entries[..|entries| - 1]);
    }
  }

  lemma {:induction false} AllRows(batch: seq<Tuple>)
    ensures RowsOf(0, [], batch) == batch
  {
    if batch == [] {
    } else {
      AllRows(batch[..|batch| - 1]);
      assert batch == batch[..|batch| - 1] + [batch[|batch| - 1]];
    }
  }

  lemma OnlyOrder(batch: seq<Tuple>)
    requires batch != []
    ensures RowsOf(0, [], batch) == batch && IsOrder(0, [[]], batch)
  {
    AllRows(batch);
    var order: seq<Key> := [[]];
    forall k: Key ensures k in order <==> RowsOf(0, k, batch) != [] {
      if k != [] && RowsOf(0, k, batch) != [] {
        RowsOfMember(0, k, batch, RowsOf(0, k, batch)[0]);
      }
    }
  }

  lemma OnlyGroup<A(!new)>(acc: Accumulators<Tuple, A>, t: Table<A>, batch: seq<Tuple>)
    requires batch != []
    ensures BatchNext(acc, None, 0, t, batch, t[[] := acc.feed(if [] in t then t[[]] else acc.empty, batch)])
  {
    OnlyOrder(batch);
    var order: seq<Key> := [[]];
    assert order[..0] == [];
    assert FeedAll(acc, None, 0, t, order, batch) == AdmitTo(acc, t, [], batch, None);
  }

  // ----- From SQL to accumulators ---------------------------------------------------------------------

  lemma {:induction false} FilteredConcat(fs: Functions, filter: Option<Expr>, p: seq<Tuple>, q: seq<Tuple>)
    ensures Filtered(fs, filter, p + q) == Filtered(fs, filter, p) + Filtered(fs, filter, q)
  {
    if q == [] {
      assert p + q == p;
    } else {
      FilteredConcat(fs, filter, p, q[..|q| - 1]);
      assert (p + q)[..|p + q| - 1] == p + q[..|q| - 1];
    }
  }

  /** Every source batch evaluates to the projected batch at the same position. */
  ghost predicate Projected(fs: Functions, exprs: seq<Expr>, filter: Option<Expr>, sources: seq<seq<Tuple>>,
                            batches: seq<seq<Tuple>>) {
    |batches| == |sources|
    && forall i | 0 <= i < |sources| :: Evaluate(fs, exprs, filter, sources[i]) == Success(batches[i])
  }

  lemma {:induction false} ProjectedConcat(fs: Functions, exprs: seq<Expr>, filter: Option<Expr>,
                                           sources: seq<seq<Tuple>>, batches: seq<seq<Tuple>>)
    requires Projected(fs, exprs, filter, sources, batches)
    ensures Concat(batches) == ProjectAll(fs, exprs, Filtered(fs, filter, Concat(sources)))
  {
    if batches == [] {
    } else {
      var n := |batches| - 1;
      ProjectedConcat(fs, exprs, filter, sources[..n], batches[..n]);
      EvaluatedRows(fs, exprs, filter, sources[n], batches[n]);
      FilteredConcat(fs, filter, Concat(sources[..n]), sources[n]);
      ProjectAllConcat(fs, exprs, Filtered(fs, filter, Concat(sources[..n])), Filtered(fs, filter, sources[n]));
    }
  }

  lemma EvaluatedRows(fs: Functions, exprs: seq<Expr>, filter: Option<Expr>, source: seq<Tuple>, batch: seq<Tuple>)
    requires Evaluate(fs, exprs, filter, source) == Success(batch)
    ensures batch == ProjectAll(fs, exprs, Filtered(fs, filter, source))
  {
  }

  lemma ProjectAllConcat(fs: Functions, exprs: seq<Expr>, p: seq<Tuple>, q: seq<Tuple>)
    ensures ProjectAll(fs, exprs, p + q) == ProjectAll(fs, exprs, p) + ProjectAll(fs, exprs, q)
  {
  }

  /** End to end, for every query, batch sequence and hash order, restarts that are survived
      included: the accumulators of a group in the table are those fed exactly the arguments of
      the aggregate on the source rows of that group that pass WHERE and FILTER. */
  lemma AccumulatorsMeanQuery<A(!new)>(fs: Functions, keys: seq<Expr>, filter: Option<Expr>, aggs: seq<Aggregate>,
                                       exprs: seq<Expr>, specs: seq<Spec>, kinds: seq<Kind<A>>, cap: Option<nat>,
                                       tables: seq<Table<seq<A>>>, events: seq<TableEvent>, sources: seq<seq<Tuple>>,
                                       k: Key, i: nat)
    requires IsCompilation(keys, aggs, exprs, specs) && |kinds| == |aggs| && i < |aggs|
    requires Projected(fs, exprs, filter, sources, Uninterrupted(events))
    requires IsTableRun(GroupOf(kinds, specs), cap, |keys|, tables, events)
    requires k in tables[|events|]
    ensures |tables[|events|][k]| == |aggs|
    ensures tables[|events|][k][i] == Fold(kinds[i], kinds[i].empty, Direct(fs, keys, filter, aggs[i], k, Concat(sources)))
    ensures Takes(kinds[i], kinds[i].empty, Direct(fs, keys, filter, aggs[i], k, Concat(sources)), tables[|events|][k][i])
  {
    var acc, batches := GroupOf(kinds, specs), Uninterrupted(events);
    GroupSequential(kinds, specs);
    var states := RowsOfRun(acc, cap, |keys|, tables, events);
    RunNoPartial(cap, |keys|, states, batches);
    ProjectedConcat(fs, exprs, filter, sources, batches);
    CompiledIsDirect(fs, keys, filter, aggs[i], exprs, specs[i], k, Concat(sources));
    var rows := states[|batches|][k];
    assert tables[|events|][k] == FeedKinds(kinds, specs, Empties(kinds), rows);
    FoldTakes(kinds[i], kinds[i].empty, Direct(fs, keys, filter, aggs[i], k, Concat(sources)));
  }
}
