/** A concrete query through the whole of incremental GROUP BY:
    `SELECT COUNT(*), SUM(c1) FILTER (WHERE c2) FROM s WHERE c3 GROUP BY c0`. */
module CountAndSum {
  import opened ScalarValues
  import opened ScalarCodec
  import opened Rows
  import opened PreAggregation
  import opened GroupRuns
  import opened Runs
  import opened TableRuns
  import opened Accumulators
  import opened Snapshots
  import opened Restarts
  import opened AggregateState

  const KEYS: seq<Expr> := [Column(0)]

  const WHERE: Option<Expr> := Some(Column(3))

  const COUNT: Aggregate := Aggregate([], None)

  const SUM: Aggregate := Aggregate([Column(1)], Some(Column(2)))

  function Stored(n: int): seq<Scalar> {
    [Int(W64, Some(n))]
  }

  function Loaded(s: seq<Scalar>): Option<int> {
    if |s| == 1 && s[0].Int? then s[0].i else None
  }

  function CountKind(): Kind<int> {
    Kind(0, (n, _) => n + 1, (n, m) => n + m, n => Stored(n), s => Loaded(s))
  }

  /** The number in a cell; null counts as nothing. */
  function Number(v: Scalar): int {
    if v.Int? && v.i.Some? then v.i.value else 0
  }

  function SumKind(): Kind<int> {
    Kind(0, (n, t) => n + if |t| == 1 then Number(t[0]) else 0, (n, m) => n + m, n => Stored(n), s => Loaded(s))
  }

  // ----- What the query asks for, on cells ------------------------------------------------------------

  predicate FourWide(rows: seq<Tuple>) {
    forall i | 0 <= i < |rows| :: |rows[i]| == 4
  }

  /** The row belongs to the group and passes WHERE. */
  predicate Counts(row: Tuple, key: Scalar) {
    |row| == 4 && row[0] == key && row[3] == Boolean(Some(true))
  }

  /** And it passes FILTER. */
  predicate Adds(row: Tuple, key: Scalar) {
    Counts(row, key) && row[2] == Boolean(Some(true))
  }

  /** Positions of the rows of the group. */
  function Positions(rows: seq<Tuple>, key: Scalar): set<nat> {
    set i: nat | i < |rows| && Counts(rows[i], key)
  }

  /** The sum over the rows of the group that pass FILTER. */
  function Total(rows: seq<Tuple>, key: Scalar): int {
    if rows == [] then 0
    else (if Adds(rows[0], key) then Number(rows[0][1]) else 0) + Total(rows[1..], key)
  }

  // ----- What the accumulators hold --------------------------------------------------------------------

  lemma {:induction false} CountFold(rows: seq<Tuple>)
    ensures Fold(CountKind(), 0, rows) == |rows|
  {
    if rows == [] {
    } else {
      CountFold(rows[..|rows| - 1]);
    }
  }

  lemma RowKey(fs: Functions, row: Tuple, key: Scalar)
    requires |row| == 4
    ensures Project(fs, KEYS, row) == [key] <==> row[0] == key
  {
    assert Project(fs, KEYS, row)[0] == row[0];
  }

  lemma {:induction false} CountDirect(fs: Functions, key: Scalar, rows: seq<Tuple>)
    requires FourWide(rows)
    ensures |Direct(fs, KEYS, WHERE, COUNT, [key], rows)| == |Positions(rows, key)|
  {
    if rows == [] {
      assert Positions(rows, key) == {};
    } else {
      var n := |rows| - 1;
      CountDirect(fs, key, rows[..n]);
      RowKey(fs, rows[n], key);
      if Counts(rows[n], key) {
        assert Positions(rows, key) == Positions(rows[..n], key) + {n};
      } else {
        assert Positions(rows, key) == Positions(rows[..n], key);
      }
    }
  }

  lemma {:induction false} TotalLast(rows: seq<Tuple>, row: Tuple, key: Scalar)
    ensures Total(rows + [row], key) ==
            Total(rows, key) + if Adds(row, key) then Number(row[1]) else 0
  {
    if rows == [] {
      assert rows + [row] == [row] && [row][1..] == [];
    } else {
      TotalLast(rows[1..], row, key);
      assert (rows + [row])[1..] == rows[1..] + [row];
    }
  }

  /** A row adds its number, or nothing. */
  lemma SumRow(fs: Functions, key: Scalar, rows: seq<Tuple>, row: Tuple)
    requires |row| == 4
    ensures var before := Direct(fs, KEYS, WHERE, SUM, [key], rows);
            var after := Direct(fs, KEYS, WHERE, SUM, [key], rows + [row]);
            after == if Adds(row, key) then before + [[row[1]]] else before
  {
    assert (rows + [row])[..|rows|] == rows;
    RowKey(fs, row, key);
    assert Passes(fs, WHERE, row) <==> row[3] == TRUE;
    assert Passes(fs, SUM.filter, row) <==> row[2] == TRUE;
    assert Arguments(fs, SUM, row)[0] == row[1];
    assert Arguments(fs, SUM, row) == [row[1]];
  }

  lemma SumMore(rows: seq<Tuple>, v: Scalar)
    ensures Fold(SumKind(), 0, rows + [[v]]) == Fold(SumKind(), 0, rows) + Number(v)
  {
    assert (rows + [[v]])[..|rows|] == rows;
  }

  lemma {:induction false} SumDirect(fs: Functions, key: Scalar, rows: seq<Tuple>)
    requires FourWide(rows)
    ensures Fold(SumKind(), 0, Direct(fs, KEYS, WHERE, SUM, [key], rows)) == Total(rows, key)
  {
    if rows == [] {
    } else {
      var init, row := rows[..|rows| - 1], rows[|rows| - 1];
      SumDirect(fs, key, init);
      SumStep(fs, key, init, row);
      assert rows == init + [row];
    }
  }

  lemma SumStep(fs: Functions, key: Scalar, rows: seq<Tuple>, row: Tuple)
    requires |row| == 4 && Fold(SumKind(), 0, Direct(fs, KEYS, WHERE, SUM, [key], rows)) == Total(rows, key)
    ensures Fold(SumKind(), 0, Direct(fs, KEYS, WHERE, SUM, [key], rows + [row])) == Total(rows + [row], key)
  {
    TotalLast(rows, row, key);
    SumRow(fs, key, rows, row);
    if Adds(row, key) {
      SumMore(Direct(fs, KEYS, WHERE, SUM, [key], rows), row[1]);
    }
  }

  /** The run of the query, over these sources. */
  ghost predicate IsQuery(fs: Functions, exprs: seq<Expr>, specs: seq<Spec>, cap: Option<nat>,
                          tables: seq<Table<seq<int>>>, events: seq<TableEvent>, sources: seq<seq<Tuple>>) {
    && IsCompilation(KEYS, [COUNT, SUM], exprs, specs)
    && Projected(fs, exprs, WHERE, sources, Uninterrupted(events)) && FourWide(Concat(sources))
    && IsTableRun(GroupOf([CountKind(), SumKind()], specs), cap, 1, tables, events)
  }

  lemma HoldsCount(fs: Functions, exprs: seq<Expr>, specs: seq<Spec>, cap: Option<nat>, tables: seq<Table<seq<int>>>,
                   events: seq<TableEvent>, sources: seq<seq<Tuple>>, key: Scalar)
    requires IsQuery(fs, exprs, specs, cap, tables, events, sources) && [key] in tables[|events|]
    ensures |tables[|events|][[key]]| == 2 && tables[|events|][[key]][0] == |Positions(Concat(sources), key)|
  {
    var kinds := [CountKind(), SumKind()];
    AccumulatorsMeanQuery(fs, KEYS, WHERE, [COUNT, SUM], exprs, specs, kinds, cap, tables, events, sources, [key], 0);
    CountFold(Direct(fs, KEYS, WHERE, COUNT, [key], Concat(sources)));
    CountDirect(fs, key, Concat(sources));
  }

  lemma HoldsSum(fs: Functions, exprs: seq<Expr>, specs: seq<Spec>, cap: Option<nat>, tables: seq<Table<seq<int>>>,
                 events: seq<TableEvent>, sources: seq<seq<Tuple>>, key: Scalar)
    requires IsQuery(fs, exprs, specs, cap, tables, events, sources) && [key] in tables[|events|]
    ensures |tables[|events|][[key]]| == 2 && tables[|events|][[key]][1] == Total(Concat(sources), key)
  {
    var kinds := [CountKind(), SumKind()];
    AccumulatorsMeanQuery(fs, KEYS, WHERE, [COUNT, SUM], exprs, specs, kinds, cap, tables, events, sources, [key], 1);
    SumDirect(fs, key, Concat(sources));
  }

  /** For this query a restart is survived exactly when every key is wide. */
  lemma QuerySurvives(specs: seq<Spec>, table: Table<seq<int>>)
    requires forall k | k in table :: |table[k]| == 2
    ensures Survives(GroupOf([CountKind(), SumKind()], specs), table) <==> forall k | k in table :: Wide(k)
  {
    forall k | k in table ensures Kept(GroupOf([CountKind(), SumKind()], specs), table[k]) {
      GroupKept([CountKind(), SumKind()], specs, table[k]);
      StoredKept(table[k][0]);
      StoredKept(table[k][1]);
    }
  }

  lemma StoredKept(n: int)
    ensures !AnyUnreadable(Stored(n)) && Loaded(WidenAll(Stored(n))) == Some(n)
  {
    assert Stored(n)[1..] == [] && WidenAll([]) == [];
  }

  /** Over every run of the query, any cap and hash order, restarts that are survived included: a
      group in the table holds the number of its rows that pass WHERE, and the sum of the second
      column over those that pass FILTER as well. */
  lemma CountsAndSums(fs: Functions, exprs: seq<Expr>, specs: seq<Spec>, cap: Option<nat>,
                      tables: seq<Table<seq<int>>>, events: seq<TableEvent>, sources: seq<seq<Tuple>>, key: Scalar)
    requires IsQuery(fs, exprs, specs, cap, tables, events, sources) && [key] in tables[|events|]
    ensures var held, rows := tables[|events|][[key]], Concat(sources);
            |held| == 2 && held[0] == |Positions(rows, key)| && held[1] == Total(rows, key)
  {
    HoldsCount(fs, exprs, specs, cap, tables, events, sources, key);
    HoldsSum(fs, exprs, specs, cap, tables, events, sources, key);
  }
}
