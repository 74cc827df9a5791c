/** Incremental GROUP BY over accumulators: runs of batches and restarts of the group table. */
module TableRuns {
  import opened ScalarValues
  import opened Rows
  import opened Accumulators
  import opened GroupCap
  import opened PreAggregation
  import opened GroupRuns
  import opened Restarts
  import opened Runs

  type Table<A> = map<Key, A>

  /** The groups of a batch, in the order the hash map yields them. */
  function FeedAll<A>(acc: Accumulators<Tuple, A>, cap: Option<nat>, n: nat, t: Table<A>, order: seq<Key>,
                      batch: seq<Tuple>): Table<A> {
    if order == [] then t
    else
      var k := order[|order| - 1];
      AdmitTo(acc, FeedAll(acc, cap, n, t, order[..|order| - 1], batch), k, RowsOf(n, k, batch), cap)
  }

  ghost predicate BatchNext<A(!new)>(acc: Accumulators<Tuple, A>, cap: Option<nat>, n: nat, t: Table<A>,
                                     batch: seq<Tuple>, u: Table<A>) {
    exists order :: IsOrder(n, order, batch) && u == FeedAll(acc, cap, n, t, order, batch)
  }

  type TableEvent = Interrupted<seq<Tuple>>

  ghost predicate TableNext<A(!new)>(acc: Accumulators<Tuple, A>, cap: Option<nat>, n: nat, t: Table<A>, e: TableEvent,
                                     u: Table<A>) {
    match e
    case Go(batch) => BatchNext(acc, cap, n, t, batch, u)
    case Restart => Restarted(acc, t, u)
  }

  /** Restarts are of tables that survive them. */
  ghost predicate InOrder<A(!new)>(acc: Accumulators<Tuple, A>, t: Table<A>, e: TableEvent) {
    e.Restart? ==> TableTyped(acc, t) && Survives(acc, t)
  }

  ghost function TableSteps<A(!new)>(acc: Accumulators<Tuple, A>, cap: Option<nat>, n: nat)
    : (Table<A>, TableEvent, Table<A>) -> bool
  {
    (t, e, u) => TableNext(acc, cap, n, t, e, u) && InOrder(acc, t, e)
  }

  ghost predicate IsTableRun<A(!new)>(acc: Accumulators<Tuple, A>, cap: Option<nat>, n: nat, tables: seq<Table<A>>,
                                      events: seq<TableEvent>) {
    IsRunOf(map[], TableSteps(acc, cap, n), tables, events)
  }

  lemma {:induction false} FeedAllImage<A(!new)>(acc: Accumulators<Tuple, A>, cap: Option<nat>, n: nat, g: Groups,
                                                 order: seq<Key>, batch: seq<Tuple>)
    requires Sequential(acc)
    ensures FeedAll(acc, cap, n, Image(acc, g), order, batch) == Image(acc, AdmitAll(cap, n, g, order, batch))
  {
    if order == [] {
    } else {
      var init, k := order[..|order| - 1], order[|order| - 1];
      FeedAllImage(acc, cap, n, g, init, batch);
      AdmitImage(acc, AdmitAll(cap, n, g, init, batch), k, RowsOf(n, k, batch), cap);
    }
  }

  lemma BatchImage<A(!new)>(acc: Accumulators<Tuple, A>, cap: Option<nat>, n: nat, g: Groups, batch: seq<Tuple>,
                            u: Table<A>) returns (h: Groups)
    requires Sequential(acc) && BatchNext(acc, cap, n, Image(acc, g), batch, u)
    ensures Next(cap, n, g, batch, h) && u == Image(acc, h)
  {
    var order :| IsOrder(n, order, batch) && u == FeedAll(acc, cap, n, Image(acc, g), order, batch);
    FeedAllImage(acc, cap, n, g, order, batch);
    h := AdmitAll(cap, n, g, order, batch);
  }

  lemma OneBehind<A(!new)>(acc: Accumulators<Tuple, A>, cap: Option<nat>, n: nat, g: Groups, e: TableEvent, u: Table<A>)
    requires Sequential(acc) && TableNext(acc, cap, n, Image(acc, g), e, u) && InOrder(acc, Image(acc, g), e)
    ensures HasStep(GroupRuns.Steps(cap, n), h => Image(acc, h), _ => true, g, e, u)
  {
    match e
    case Restart => RestartedExact(acc, Image(acc, g), u);
    case Go(batch) =>
      var h := BatchImage(acc, cap, n, g, batch, u);
      assert GroupRuns.Steps(cap, n)(g, batch, h);
  }

  /** A run with restarts that are survived is, behind the accumulators, a run of the rows as if
      it had never stopped. */
  lemma RowsOfRun<A(!new)>(acc: Accumulators<Tuple, A>, cap: Option<nat>, n: nat, tables: seq<Table<A>>,
                           events: seq<TableEvent>) returns (states: seq<Groups>)
    requires Sequential(acc) && IsTableRun(acc, cap, n, tables, events)
    ensures IsRun(cap, n, states, Uninterrupted(events))
    ensures tables[|events|] == Image(acc, states[|Uninterrupted(events)|])
  {
    var image := (h: Groups) => Image(acc, h);
    assert image(map[]) == map[];
    forall g: Groups, e: TableEvent, u: Table<A> | TableSteps(acc, cap, n)(image(g), e, u)
      ensures HasStep(GroupRuns.Steps(cap, n), image, _ => true, g, e, u)
    {
      OneBehind(acc, cap, n, g, e, u);
    }
    states := RunBehind(map[], TableSteps(acc, cap, n), GroupRuns.Steps(cap, n), image, _ => true, tables, events);
  }

  /** A batch and nothing else. */
  ghost function BatchSteps<A(!new)>(acc: Accumulators<Tuple, A>, cap: Option<nat>, n: nat)
    : (Table<A>, seq<Tuple>, Table<A>) -> bool
  {
    (t, batch, u) => BatchNext(acc, cap, n, t, batch, u)
  }

  /** Restarts that are survived leave no trace: the same batches without them lead to the same
      table. */
  lemma RestartsInvisible<A(!new)>(acc: Accumulators<Tuple, A>, cap: Option<nat>, n: nat, tables: seq<Table<A>>,
                                   events: seq<TableEvent>) returns (straight: seq<Table<A>>)
    requires IsTableRun(acc, cap, n, tables, events)
    ensures IsRunOf(map[], BatchSteps(acc, cap, n), straight, Uninterrupted(events))
    ensures straight[|straight| - 1] == tables[|events|]
  {
    var same := (t: Table<A>) => t;
    forall t: Table<A>, e: TableEvent, u: Table<A> | TableSteps(acc, cap, n)(same(t), e, u)
      ensures HasStep(BatchSteps(acc, cap, n), same, _ => true, t, e, u)
    {
      if e.Restart? {
        RestartedExact(acc, t, u);
      } else {
        assert BatchSteps(acc, cap, n)(t, e.event, u) && u == same(u);
      }
    }
    straight := RunBehind(map[], TableSteps(acc, cap, n), BatchSteps(acc, cap, n), same, _ => true, tables, events);
  }
}
