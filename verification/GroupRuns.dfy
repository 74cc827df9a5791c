/** Incremental GROUP BY over whole runs: batches grouped by key and fed, group by group, to a
    capped table that holds the rows each group was fed, in order. */
module GroupRuns {
  import opened Runs
  import opened ScalarValues
  import opened Rows
  import opened GroupCap
  import opened PreAggregation

  type Groups = map<Key, seq<Tuple>>

  /** The groups of a batch, in the order the hash map yields them. */
  function AdmitAll(cap: Option<nat>, n: nat, g: Groups, order: seq<Key>, batch: seq<Tuple>): Groups {
    if order == [] then g
    else
      var k := order[|order| - 1];
      Admit(AdmitAll(cap, n, g, order[..|order| - 1], batch), k, RowsOf(n, k, batch), cap)
  }

  ghost predicate IsOrder(n: nat, order: seq<Key>, batch: seq<Tuple>) {
    && (forall i, j | 0 <= i < j < |order| :: order[i] != order[j])
    && (forall k :: k in order <==> RowsOf(n, k, batch) != [])
  }

  ghost predicate Next(cap: Option<nat>, n: nat, g: Groups, batch: seq<Tuple>, h: Groups) {
    exists order :: IsOrder(n, order, batch) && h == AdmitAll(cap, n, g, order, batch)
  }

  ghost function Steps(cap: Option<nat>, n: nat): (Groups, seq<Tuple>, Groups) -> bool {
    (g, batch, h) => Next(cap, n, g, batch, h)
  }

  ghost predicate IsRun(cap: Option<nat>, n: nat, states: seq<Groups>, batches: seq<seq<Tuple>>) {
    IsRunOf(map[], Steps(cap, n), states, batches)
  }

  function Concat(batches: seq<seq<Tuple>>): seq<Tuple> {
    if batches == [] then [] else Concat(batches[..|batches| - 1]) + batches[|batches| - 1]
  }

  lemma {:induction false} RowsOfConcat(n: nat, key: Key, p: seq<Tuple>, q: seq<Tuple>)
    ensures RowsOf(n, key, p + q) == RowsOf(n, key, p) + RowsOf(n, key, q)
  {
    if q == [] {
      assert p + q == p;
    } else {
      RowsOfConcat(n, key, p, q[..|q| - 1]);
      assert (p + q)[..|p + q| - 1] == p + q[..|q| - 1];
    }
  }

  lemma {:induction false} RowsOfMember(n: nat, key: Key, rows: seq<Tuple>, t: Tuple)
    ensures t in RowsOf(n, key, rows) <==> t in rows && n <= |t| && t[..n] == key
  {
    if rows == [] {
    } else {
      RowsOfMember(n, key, rows[..|rows| - 1], t);
      assert rows == rows[..|rows| - 1] + [rows[|rows| - 1]];
    }
  }

  /** What a group has been fed when the groups in `done` of the current batch are in. */
  ghost function Known(n: nat, seen: seq<Tuple>, batch: seq<Tuple>, done: seq<Key>, k: Key): seq<Tuple> {
    RowsOf(n, k, seen) + if k in done then RowsOf(n, k, batch) else []
  }

  lemma KnownMore(n: nat, seen: seq<Tuple>, batch: seq<Tuple>, order: seq<Key>, m: nat)
    requires |order| == m + 1 && forall i, j | 0 <= i < j < |order| :: order[i] != order[j]
    ensures Known(n, seen, batch, order, order[m]) ==
            Known(n, seen, batch, order[..m], order[m]) + RowsOf(n, order[m], batch)
    ensures forall k | k != order[m] :: Known(n, seen, batch, order, k) == Known(n, seen, batch, order[..m], k)
  {
    assert order == order[..m] + [order[m]] && order[m] !in order[..m];
  }

  lemma {:induction false} AdmitAllKeeps(cap: Option<nat>, n: nat, g: Groups, seen: seq<Tuple>, batch: seq<Tuple>,
                                         order: seq<Key>)
    requires NoPartial(g, k => RowsOf(n, k, seen), cap)
    requires forall i, j | 0 <= i < j < |order| :: order[i] != order[j]
    requires forall i | 0 <= i < |order| :: RowsOf(n, order[i], batch) != []
    ensures NoPartial(AdmitAll(cap, n, g, order, batch), k => Known(n, seen, batch, order, k), cap)
  {
    if order == [] {
      NoPartialSame(g, k => RowsOf(n, k, seen), k => Known(n, seen, batch, order, k), cap);
    } else {
      AdmitAllKeeps(cap, n, g, seen, batch, order[..|order| - 1]);
      AdmitLast(cap, n, AdmitAll(cap, n, g, order[..|order| - 1], batch), seen, batch, order);
    }
  }

  lemma AdmitLast(cap: Option<nat>, n: nat, g: Groups, seen: seq<Tuple>, batch: seq<Tuple>, order: seq<Key>)
    requires order != [] && forall i, j | 0 <= i < j < |order| :: order[i] != order[j]
    requires RowsOf(n, order[|order| - 1], batch) != []
    requires NoPartial(g, k => Known(n, seen, batch, order[..|order| - 1], k), cap)
    ensures var last := order[|order| - 1];
            NoPartial(Admit(g, last, RowsOf(n, last, batch), cap), k => Known(n, seen, batch, order, k), cap)
  {
    var m := |order| - 1;
    var init, last := order[..m], order[m];
    KnownMore(n, seen, batch, order, m);
    AdmitKeeps(g, k => Known(n, seen, batch, init, k), k => Known(n, seen, batch, order, k),
               last, RowsOf(n, last, batch), cap);
  }

  lemma BatchKeeps(cap: Option<nat>, n: nat, g: Groups, seen: seq<Tuple>, batch: seq<Tuple>, h: Groups)
    requires NoPartial(g, k => RowsOf(n, k, seen), cap) && Next(cap, n, g, batch, h)
    ensures NoPartial(h, k => RowsOf(n, k, seen + batch), cap)
  {
    var order :| IsOrder(n, order, batch) && h == AdmitAll(cap, n, g, order, batch);
    forall i | 0 <= i < |order| ensures RowsOf(n, order[i], batch) != [] {
      assert order[i] in order;
    }
    AdmitAllKeeps(cap, n, g, seen, batch, order);
    forall k ensures RowsOf(n, k, seen + batch) == Known(n, seen, batch, order, k) {
      RowsOfConcat(n, k, seen, batch);
      assert k in order <==> RowsOf(n, k, batch) != [];
    }
    NoPartialSame(h, k => Known(n, seen, batch, order, k), k => RowsOf(n, k, seen + batch), cap);
  }

  /** Over every sequence of batches and every hash order: a group in the table has all of its
      rows since the start, the table never exceeds the cap, and a group is missing only when
      the table is full. */
  lemma {:induction false} RunNoPartial(cap: Option<nat>, n: nat, states: seq<Groups>, batches: seq<seq<Tuple>>)
    requires IsRun(cap, n, states, batches)
    ensures NoPartial(states[|batches|], k => RowsOf(n, k, Concat(batches)), cap)
    decreases |batches|
  {
    if batches == [] {
    } else {
      var m := |batches| - 1;
      PrefixRun(map[], Steps(cap, n), states, batches);
      RunNoPartial(cap, n, states[..m + 1], batches[..m]);
      BatchKeeps(cap, n, states[m], Concat(batches[..m]), batches[m], states[m + 1]);
    }
  }

  ghost function KeysOf(n: nat, rows: seq<Tuple>): set<Key> {
    set t | t in rows && n <= |t| :: t[..n]
  }

  ghost predicate BelowCap(cap: Option<nat>, n: nat, rows: seq<Tuple>) {
    cap.Some? ==> |KeysOf(n, rows)| <= cap.value
  }

  /** The table is the group-by of all rows exactly when the distinct keys fit the cap. */
  lemma RunGroupBy(cap: Option<nat>, n: nat, states: seq<Groups>, batches: seq<seq<Tuple>>)
    requires IsRun(cap, n, states, batches)
    ensures var g := states[|batches|];
            && ((forall k :: k in g <==> RowsOf(n, k, Concat(batches)) != []) <==> BelowCap(cap, n, Concat(batches)))
            && (forall k | k in g :: g[k] == RowsOf(n, k, Concat(batches)))
  {
    var g, rows := states[|batches|], Concat(batches);
    RunNoPartial(cap, n, states, batches);
    KeysHaveRows(n, rows);
    if BelowCap(cap, n, rows) {
      NothingDropped(g, k => RowsOf(n, k, rows), cap, KeysOf(n, rows));
    }
    if forall k :: k in g <==> RowsOf(n, k, rows) != [] {
      assert g.Keys == KeysOf(n, rows);
    }
  }

  lemma KeysHaveRows(n: nat, rows: seq<Tuple>)
    ensures forall k :: k in KeysOf(n, rows) <==> RowsOf(n, k, rows) != []
  {
    forall k ensures k in KeysOf(n, rows) <==> RowsOf(n, k, rows) != [] {
      if RowsOf(n, k, rows) != [] {
        RowsOfMember(n, k, rows, RowsOf(n, k, rows)[0]);
      }
      if k in KeysOf(n, rows) {
        var t :| t in rows && n <= |t| && t[..n] == k;
        RowsOfMember(n, k, rows, t);
      }
    }
  }

  /** Below the cap, how the stream is cut into batches, one row at a time included, and the
      order hash maps are visited in make no difference. */
  lemma CutsIrrelevant(cap: Option<nat>, n: nat, states: seq<Groups>, batches: seq<seq<Tuple>>,
                       states': seq<Groups>, batches': seq<seq<Tuple>>)
    requires IsRun(cap, n, states, batches) && IsRun(cap, n, states', batches')
    requires Concat(batches) == Concat(batches') && BelowCap(cap, n, Concat(batches))
    ensures states[|batches|] == states'[|batches'|]
  {
    RunGroupBy(cap, n, states, batches);
    RunGroupBy(cap, n, states', batches');
    var g, h := states[|batches|], states'[|batches'|];
    assert g.Keys == h.Keys;
  }
}
