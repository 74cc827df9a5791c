/** The tumbling/hopping side of the window operator: state updated in place, batch by batch. */
module FixedOperator {
  import opened Int64
  import opened Collections
  import opened ScalarValues
  import opened ScalarCodec
  import opened Rows
  import opened WindowAssigner
  import opened Accumulators
  import opened GroupCap
  import opened FixedWindows
  import opened Snapshots
  import opened Restarts
  import opened WindowRestarts

  /** The batch rows at the given indices. */
  /** What a group should have collected from the first `i` rows, plus row `i` itself for the
      windows in `starts`. */
  ghost function Wanted(c: Config, batch: seq<Row>, i: nat, starts: seq<int>, g: Group): seq<Row>
    requires c.Valid() && i < |batch|
  {
    RowsIn(c, batch[..i], g) + (if g.key == batch[i].key && g.ws in starts then [batch[i]] else [])
  }

  ghost predicate Collects(batch: seq<Row>, grouped: map<Group, seq<nat>>, g: Group, rows: seq<Row>) {
    && (g in grouped <==> rows != [])
    && (g in grouped ==>
          && (forall i | 0 <= i < |grouped[g]| :: grouped[g][i] < |batch|)
          && Take(batch, grouped[g]) == rows)
  }

  ghost predicate Collected(c: Config, batch: seq<Row>, grouped: map<Group, seq<nat>>, prefix: seq<Row>)
    requires c.Valid()
  {
    forall g: Group :: Collects(batch, grouped, g, RowsIn(c, prefix, g))
  }

  ghost predicate Collecting(c: Config, batch: seq<Row>, grouped: map<Group, seq<nat>>, i: nat, starts: seq<int>)
    requires c.Valid() && i < |batch|
  {
    forall g: Group :: Collects(batch, grouped, g, Wanted(c, batch, i, starts, g))
  }

  lemma CollectOne(c: Config, batch: seq<Row>, i: nat, starts: seq<int>, j: nat, grouped: map<Group, seq<nat>>)
    requires c.Valid() && i < |batch| && j < |starts| && Ascending(starts)
    requires Collecting(c, batch, grouped, i, starts[..j])
    ensures var g := Group(starts[j], batch[i].key);
            var indices := (if g in grouped then grouped[g] else []) + [i];
            Collecting(c, batch, grouped[g := indices], i, starts[..j + 1])
  {
    var g := Group(starts[j], batch[i].key);
    var indices := (if g in grouped then grouped[g] else []) + [i];
    var after, before, done := grouped[g := indices], starts[..j], starts[..j + 1];
    assert done == before + [starts[j]];
    assert starts[j] !in before;
    forall h: Group ensures Collects(batch, after, h, Wanted(c, batch, i, done, h)) {
      assert Collects(batch, grouped, h, Wanted(c, batch, i, before, h));
      if h == g {
        TakeMore(batch, if g in grouped then grouped[g] else [], i);
        assert Wanted(c, batch, i, done, h) == Wanted(c, batch, i, before, h) + [batch[i]];
      } else {
        assert Wanted(c, batch, i, done, h) == Wanted(c, batch, i, before, h);
      }
    }
  }

  lemma TakeMore(batch: seq<Row>, indices: seq<nat>, i: nat)
    requires i < |batch| && forall j | 0 <= j < |indices| :: indices[j] < |batch|
    ensures Take(batch, indices + [i]) == Take(batch, indices) + [batch[i]]
  {
  }

  lemma CollectRow(c: Config, batch: seq<Row>, i: nat, starts: seq<int>, grouped: map<Group, seq<nat>>)
    requires c.Valid() && i < |batch| && HasTime(batch[i])
    requires forall ws :: ws in starts <==> Assigned(c.assigner, ws, batch[i].ts)
    requires Collecting(c, batch, grouped, i, starts)
    ensures Collected(c, batch, grouped, batch[..i + 1])
  {
    var prefix := batch[..i + 1];
    assert prefix[..i] == batch[..i];
    forall g: Group ensures Collects(batch, grouped, g, RowsIn(c, prefix, g)) {
      assert Wanted(c, batch, i, starts, g) == RowsIn(c, prefix, g);
    }
  }

  lemma SkipRow(c: Config, batch: seq<Row>, i: nat, grouped: map<Group, seq<nat>>)
    requires c.Valid() && i < |batch| && !HasTime(batch[i])
    requires Collected(c, batch, grouped, batch[..i])
    ensures Collected(c, batch, grouped, batch[..i + 1])
  {
    var prefix := batch[..i + 1];
    assert prefix[..i] == batch[..i];
    forall g: Group ensures Collects(batch, grouped, g, RowsIn(c, prefix, g)) {
      assert RowsIn(c, prefix, g) == RowsIn(c, batch[..i], g);
    }
  }

  lemma StartRow(c: Config, batch: seq<Row>, i: nat, grouped: map<Group, seq<nat>>)
    requires c.Valid() && i < |batch|
    requires Collected(c, batch, grouped, batch[..i])
    ensures Collecting(c, batch, grouped, i, [])
  {
    forall g: Group ensures Collects(batch, grouped, g, Wanted(c, batch, i, [], g)) {
      assert Wanted(c, batch, i, [], g) == RowsIn(c, batch[..i], g);
    }
  }

  datatype FixedCheckpoint = FixedCheckpoint(fingerprint: int, windows: seq<WindowCheckpoint>)

  // ----- The operator -----------------------------------------------------------------------------------

  class FixedWindowState<A(!new)> {
    const config: Config
    const acc: Accumulators<Row, A>
    const fingerprint: int
    var windows: Held<A>

    constructor (config: Config, acc: Accumulators<Row, A>, fingerprint: int)
      ensures windows == map[] && this.config == config && this.acc == acc && this.fingerprint == fingerprint
    {
      this.config, this.acc, this.fingerprint := config, acc, fingerprint;
      windows := map[];
    }

    /** Group a batch's row indices by window and key, then feed each group once, in whatever
        order the hash map yields the groups. */
    method UpdateBatch(batch: seq<Row>)
      requires config.Valid()
      requires forall r | r in batch && r.ts != NULL_TIMESTAMP :: HasTime(r) && config.assigner.Safe(r.ts)
      modifies this
      ensures BatchNext(acc, config, old(windows), batch, windows)
    {
      var grouped := CollectBatch(batch);
      ghost var order := VisitGroups(batch, grouped);
      CollectedOrder(config, batch, grouped, order);
    }

    method VisitGroups(batch: seq<Row>, grouped: map<Group, seq<nat>>) returns (ghost order: seq<Group>)
      requires config.Valid() && Collected(config, batch, grouped, batch)
      modifies this
      ensures VisitedOnce(order, grouped.Keys, {})
      ensures windows == FeedAll(acc, config, old(windows), order, batch)
    {
      order := [];
      var todo := grouped.Keys;
      while todo != {}
        invariant todo <= grouped.Keys && VisitedOnce(order, grouped.Keys, todo)
        invariant windows == FeedAll(acc, config, old(windows), order, batch)
        decreases todo
      {
        var g :| g in todo;
        assert Collects(batch, grouped, g, RowsIn(config, batch, g));
        FeedAllMore(acc, config, old(windows), order, g, batch);
        FeedGroup(g, Take(batch, grouped[g]));
        order, todo := order + [g], todo - {g};
      }
    }

    /** Collect row indices per window and key; rows without a timestamp are skipped. */
    method CollectBatch(batch: seq<Row>) returns (grouped: map<Group, seq<nat>>)
      requires config.Valid()
      requires forall r | r in batch && r.ts != NULL_TIMESTAMP :: HasTime(r) && config.assigner.Safe(r.ts)
      ensures Collected(config, batch, grouped, batch)
    {
      grouped := map[];
      for i := 0 to |batch|
        invariant Collected(config, batch, grouped, batch[..i])
      {
        var row := batch[i];
        assert row in batch;
        if row.ts == NULL_TIMESTAMP {
          SkipRow(config, batch, i, grouped);
          continue;
        }
        var starts := AssignWindows(config.assigner, row.ts);
        StartRow(config, batch, i, grouped);
        assert starts[..0] == [];
        for j := 0 to |starts|
          invariant Collecting(config, batch, grouped, i, starts[..j])
        {
          CollectOne(config, batch, i, starts, j, grouped);
          var g := Group(starts[j], row.key);
          grouped := grouped[g := (if g in grouped then grouped[g] else []) + [i]];
        }
        assert starts[..|starts|] == starts;
        CollectRow(config, batch, i, starts, grouped);
      }
      assert batch[..|batch|] == batch;
    }

    /** Make sure the group exists, unless the window is full, and update its accumulators. */
    method FeedGroup(g: Group, rows: seq<Row>)
      modifies this
      ensures windows == FeedGroupTo(acc, config, old(windows), g, rows)
    {
      if g.ws !in windows {
        windows := windows[g.ws := map[]];
      }
      if g.key !in windows[g.ws] {
        if config.cap.Some? && |windows[g.ws]| >= config.cap.value {
          SameIntMap(windows, FeedGroupTo(acc, config, old(windows), g, rows));
          return;
        }
        windows := windows[g.ws := windows[g.ws][g.key := acc.empty]];
      }
      windows := windows[g.ws := windows[g.ws][g.key := acc.feed(windows[g.ws][g.key], rows)]];
      assert windows[g.ws] == AdmitTo(acc, WindowAt(old(windows), g.ws), g.key, rows, config.cap);
      SameIntMap(windows, FeedGroupTo(acc, config, old(windows), g, rows));
    }

    /** Close and emit every window whose end plus the lateness is at or below the watermark. */
    method CloseFixedWindows(watermark: int) returns (out: seq<Emission<A>>)
      modifies this
      ensures windows == CloseWindows(config, old(windows), watermark)
      ensures IsOutput(config, old(windows), watermark, out)
      ensures forall log: seq<Emission<A>>, w: int ::
                CloseNext(config, Operator(old(windows), log, w), watermark,
                          Operator(windows, log + out, Max(w, watermark)))
    {
      out := [];
      if |windows| == 0 {
        NoneExpired(config, windows, watermark);
        ClosesAnyway(windows, out, watermark);
        return;
      }
      var first := Least(windows.Keys);
      if SatAdd(SatAdd(first, config.assigner.size), config.lateness) > watermark {
        NoneExpired(config, windows, watermark);
        ClosesAnyway(windows, out, watermark);
        return;
      }
      var toClose := TakeExpired(watermark);
      ghost var before := windows;
      for i := 0 to |toClose|
        invariant Removed(windows, before, toClose[..i])
        invariant Emits(config, before, toClose[..i], out)
      {
        var start := toClose[i];
        assert start in toClose;
        EmitsStep(config, before, toClose, i, out);
        var groups := windows[start];
        windows := windows - {start};
        if |groups| == 0 {
          continue;
        }
        out := out + [Emission(start, SatAdd(start, config.assigner.size), groups)];
      }
      assert toClose[..|toClose|] == toClose;
      SameIntMap(windows, CloseWindows(config, before, watermark));
      ClosesAnyway(before, out, watermark);
    }

    lemma ClosesAnyway(before: Held<A>, out: seq<Emission<A>>, watermark: int)
      requires IsOutput(config, before, watermark, out)
      ensures forall log: seq<Emission<A>>, w: int ::
                CloseNext(config, Operator(before, log, w), watermark,
                          Operator(CloseWindows(config, before, watermark), log + out, Max(w, watermark)))
    {
      forall log: seq<Emission<A>>, w: int
        ensures CloseNext(config, Operator(before, log, w), watermark,
                          Operator(CloseWindows(config, before, watermark), log + out, Max(w, watermark)))
      {
        CloseIsNext(config, Operator(before, log, w), watermark, out);
      }
    }

    /** The leading run of expired window starts. */
    method TakeExpired(watermark: int) returns (toClose: seq<int>)
      ensures Ascending(toClose)
      ensures forall ws :: ws in toClose <==> ws in windows && Expired(config, ws, watermark)
    {
      var keys := SortedKeys(windows.Keys);
      var n := 0;
      while n < |keys| && Expired(config, keys[n], watermark)
        invariant 0 <= n <= |keys|
        invariant forall i | 0 <= i < n :: Expired(config, keys[i], watermark)
      {
        n := n + 1;
      }
      toClose := keys[..n];
    }

    /** Save every window and group; map iteration order decides the order of the groups. */
    method CheckpointWindows() returns (cp: FixedCheckpoint, ghost starts: seq<int>, ghost keys: seq<seq<Key>>)
      ensures cp.fingerprint == fingerprint
      ensures IsCheckpoint(acc, cp.windows, windows, starts, keys)
    {
      var order := SortedKeys(windows.Keys);
      starts, keys := order, [];
      var cps: seq<WindowCheckpoint> := [];
      for i := 0 to |order|
        invariant |cps| == |keys| == i
        invariant forall j | 0 <= j < i ::
                    order[j] in windows && cps[j].start == order[j] && Lists(Saver(acc), cps[j].groups, windows[order[j]], keys[j])
      {
        assert order[i] in order;
        var groups, ks := Save(Saver(acc), windows[order[i]]);
        cps, keys := cps + [WindowCheckpoint(order[i], groups)], keys + [ks];
      }
      cp := FixedCheckpoint(fingerprint, cps);
    }

    /** A fingerprint mismatch touches nothing; otherwise the windows are rebuilt one by one, and
        a key or a state that cannot be read leaves the windows before it in place. */
    method RestoreWindows(cp: FixedCheckpoint) returns (r: Result<nat>)
      modifies this
      ensures cp.fingerprint != fingerprint ==> r.Failure? && windows == old(windows)
      ensures cp.fingerprint == fingerprint && RestoreAll(acc, cp.windows).Success? ==>
                r == Success(CountGroups(cp.windows)) && RestoreAll(acc, cp.windows) == Success(windows)
      ensures cp.fingerprint == fingerprint && RestoreAll(acc, cp.windows).Failure? ==>
                r.Failure? && exists n ::
                  (0 <= n < |cp.windows|
                   && RestoreAll(acc, cp.windows[..n]) == Success(windows)
                   && Restore(Loader(acc), cp.windows[n].groups).Failure?)
    {
      if cp.fingerprint != fingerprint {
        return Failure("checkpoint fingerprint mismatch");
      }
      windows := map[];
      var total := 0;
      for i := 0 to |cp.windows|
        invariant RestoreAll(acc, cp.windows[..i]) == Success(windows)
        invariant total == CountGroups(cp.windows[..i])
      {
        var wc := cp.windows[i];
        assert cp.windows[..i + 1][..i] == cp.windows[..i];
        var error, groups := Load(Loader(acc), wc.groups);
        if error.Some? {
          RestoreAllFails(acc, cp.windows, i);
          return Failure(error.value);
        }
        windows := windows[wc.start := groups];
        total := total + |wc.groups|;
      }
      assert cp.windows[..|cp.windows|] == cp.windows;
      r := Success(total);
    }
  }

  lemma FeedAllMore<A>(acc: Accumulators<Row, A>, c: Config, w: Held<A>, order: seq<Group>, g: Group, batch: seq<Row>)
    requires c.Valid()
    ensures FeedAll(acc, c, w, order + [g], batch) ==
            FeedGroupTo(acc, c, FeedAll(acc, c, w, order, batch), g, RowsIn(c, batch, g))
  {
    assert (order + [g])[..|order|] == order;
  }

  lemma CollectedOrder(c: Config, batch: seq<Row>, grouped: map<Group, seq<nat>>, order: seq<Group>)
    requires c.Valid() && Collected(c, batch, grouped, batch) && VisitedOnce(order, grouped.Keys, {})
    ensures IsOrder(c, order, batch)
  {
    forall g ensures g in order <==> RowsIn(c, batch, g) != [] {
      assert Collects(batch, grouped, g, RowsIn(c, batch, g));
    }
  }

  function CountGroups(ws: seq<WindowCheckpoint>): nat {
    if ws == [] then 0 else CountGroups(ws[..|ws| - 1]) + |ws[|ws| - 1].groups|
  }

  lemma {:induction false} RestoreAllFails<A>(acc: Accumulators<Row, A>, ws: seq<WindowCheckpoint>, n: nat)
    requires n < |ws| && Restore(Loader(acc), ws[n].groups).Failure?
    ensures RestoreAll(acc, ws).Failure?
    decreases |ws|
  {
    if n == |ws| - 1 {
    } else {
      RestoreAllFails(acc, ws[..|ws| - 1], n);
    }
  }

  // ----- Closing ------------------------------------------------------------------------------------------

  ghost predicate Removed<A>(after: Held<A>, w: Held<A>, gone: seq<int>) {
    && (forall ws :: ws in after <==> ws in w && ws !in gone)
    && (forall ws | ws in after :: after[ws] == w[ws])
  }

  /** `out` is the windows in `starts` that have groups, in that order. */
  ghost predicate Emits<A(!new)>(c: Config, w: Held<A>, starts: seq<int>, out: seq<Emission<A>>) {
    && (forall i, j | 0 <= i < j < |out| :: out[i].start < out[j].start)
    && (forall e :: e in out <==>
          e.start in starts && e.start in w && w[e.start] != map[]
          && e == Emission(e.start, SatAdd(e.start, c.assigner.size), w[e.start]))
  }

  lemma EmitsStep<A(!new)>(c: Config, w: Held<A>, starts: seq<int>, i: nat, out: seq<Emission<A>>)
    requires Ascending(starts) && i < |starts| && starts[i] in w
    requires Emits(c, w, starts[..i], out)
    ensures var e := Emission(starts[i], SatAdd(starts[i], c.assigner.size), w[starts[i]]);
            Emits(c, w, starts[..i + 1], if w[starts[i]] == map[] then out else out + [e])
    ensures starts[i] !in starts[..i]
    ensures forall ws :: ws in starts[..i + 1] <==> ws in starts[..i] || ws == starts[i]
  {
    TakeOne(starts, i);
    forall j | 0 <= j < |out| ensures out[j].start < starts[i] {
      assert out[j] in out;
    }
  }

  lemma NoneExpired<A(!new)>(c: Config, w: Held<A>, watermark: int)
    requires forall ws | ws in w :: !Expired(c, ws, watermark)
    ensures CloseWindows(c, w, watermark) == w && IsOutput(c, w, watermark, [])
  {
    SameIntMap(CloseWindows(c, w, watermark), w);
  }
}
