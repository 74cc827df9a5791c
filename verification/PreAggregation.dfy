/** Compiling aggregate calls into a positional projection. Group keys come first, then for each
    aggregate its arguments, guarded by its FILTER, and a boolean column that masks rows. */
module PreAggregation {
  import opened Collections
  import opened ScalarValues
  import opened ScalarCodec
  import opened Rows

  type Tuple = seq<Scalar>

  /** Expressions over a source row as far as compilation looks into them; `Call` is any
      deterministic function, the logical connectives included. */
  datatype Expr =
    | Column(index: nat)
    | Literal(value: Scalar)
    | Case(condition: Expr, yes: Expr, no: Expr)
    | Call(name: string, args: seq<Expr>)

  type Functions = (string, seq<Scalar>) -> Scalar

  const TRUE: Scalar := Boolean(Some(true))

  const FALSE: Scalar := Boolean(Some(false))

  /** A condition holds only if it is true; false and null take the other branch. */
  function Eval(fs: Functions, e: Expr, row: Tuple): Scalar
    decreases e
  {
    match e
    case Column(i) => if i < |row| then row[i] else Null
    case Literal(v) => v
    case Case(c, yes, no) => if Eval(fs, c, row) == TRUE then Eval(fs, yes, row) else Eval(fs, no, row)
    case Call(name, args) => fs(name, EvalArgs(fs, e, args, row))
  }

  function EvalArgs(fs: Functions, ghost parent: Expr, args: seq<Expr>, row: Tuple): seq<Scalar>
    requires forall i | 0 <= i < |args| :: args[i] < parent
    decreases parent, |args|
  {
    if args == [] then [] else [Eval(fs, args[0], row)] + EvalArgs(fs, parent, args[1..], row)
  }

  // ----- Compilation ----------------------------------------------------------------------------------

  /** An aggregate call: its arguments, none for COUNT(*), and its FILTER. */
  datatype Aggregate = Aggregate(args: seq<Expr>, filter: Option<Expr>)

  /** Where a compiled aggregate finds its inputs and its mask. */
  datatype Spec = Spec(inputs: seq<nat>, filter: Option<nat>)

  function InputExpr(agg: Aggregate, k: nat): Expr
    requires k < |agg.args|
  {
    if agg.filter.Some? then Case(agg.filter.value, agg.args[k], Literal(Null)) else agg.args[k]
  }

  function Mask(filter: Expr): Expr {
    Case(filter, Literal(TRUE), Literal(FALSE))
  }

  /** The columns of a spec hold what the aggregate asks for. */
  ghost predicate Implements(spec: Spec, agg: Aggregate, exprs: seq<Expr>) {
    && (forall k | 0 <= k < |spec.inputs| :: spec.inputs[k] < |exprs|)
    && (if agg.args == [] then |spec.inputs| == 1 && exprs[spec.inputs[0]] == Literal(TRUE)
        else
          |spec.inputs| == |agg.args| && forall k | 0 <= k < |agg.args| :: exprs[spec.inputs[k]] == InputExpr(agg, k))
    && (spec.filter.Some? <==> agg.filter.Some?)
    && (spec.filter.Some? ==> spec.filter.value < |exprs| && exprs[spec.filter.value] == Mask(agg.filter.value))
  }

  /** All columns of a spec, in projection order. */
  function ColumnsOf(spec: Spec): seq<nat> {
    spec.inputs + if spec.filter.Some? then [spec.filter.value] else []
  }

  function AllColumns(specs: seq<Spec>): seq<nat> {
    if specs == [] then [] else AllColumns(specs[..|specs| - 1]) + ColumnsOf(specs[|specs| - 1])
  }

  function Range(lo: nat, hi: nat): seq<nat>
    requires lo <= hi
  {
    seq(hi - lo, i requires 0 <= i => lo + i)
  }

  /** Group keys first, every aggregate implemented, and each further column used by exactly
      one aggregate, in order. */
  ghost predicate IsCompilation(groups: seq<Expr>, aggs: seq<Aggregate>, exprs: seq<Expr>, specs: seq<Spec>) {
    && groups <= exprs && |specs| == |aggs|
    && (forall i | 0 <= i < |aggs| :: Implements(specs[i], aggs[i], exprs))
    && AllColumns(specs) == Range(|groups|, |exprs|)
  }

  lemma ImplementsMore(spec: Spec, agg: Aggregate, exprs: seq<Expr>, longer: seq<Expr>)
    requires Implements(spec, agg, exprs) && exprs <= longer
    ensures Implements(spec, agg, longer)
  {
  }

  /** Columns are numbered by a counter that runs on from aggregate to aggregate. */
  method CompileAggregate(agg: Aggregate, before: seq<Expr>, column: nat)
    returns (spec: Spec, exprs: seq<Expr>, next: nat)
    requires column == |before|
    ensures next == |exprs|
    ensures before <= exprs && Implements(spec, agg, exprs)
    ensures ColumnsOf(spec) == Range(|before|, |exprs|)
  {
    exprs := before;
    next := column;
    var inputs: seq<nat> := [];
    if |agg.args| == 0 {
      exprs, inputs, next := exprs + [Literal(TRUE)], inputs + [next], next + 1;
    } else {
      for k := 0 to |agg.args|
        invariant before <= exprs && next == |exprs| == |before| + k
        invariant inputs == Range(|before|, next)
        invariant forall j | 0 <= j < k :: exprs[inputs[j]] == InputExpr(agg, j)
      {
        exprs := exprs + [InputExpr(agg, k)];
        inputs, next := inputs + [next], next + 1;
      }
    }
    spec := Spec(inputs, None);
    if agg.filter.Some? {
      spec := Spec(inputs, Some(next));
      exprs := exprs + [Mask(agg.filter.value)];
      next := next + 1;
    }
  }

  /** Lay out the projection, advancing one column at a time. */
  method Compile(groups: seq<Expr>, aggs: seq<Aggregate>) returns (exprs: seq<Expr>, specs: seq<Spec>)
    ensures IsCompilation(groups, aggs, exprs, specs)
  {
    exprs, specs := groups, [];
    var next := |groups|;
    for i := 0 to |aggs|
      invariant IsCompilation(groups, aggs[..i], exprs, specs) && next == |exprs|
    {
      ghost var before := exprs;
      var spec;
      spec, exprs, next := CompileAggregate(aggs[i], exprs, next);
      CompilationMore(groups, aggs, i, before, specs, spec, exprs);
      specs := specs + [spec];
    }
    assert aggs[..|aggs|] == aggs;
  }

  lemma CompilationMore(groups: seq<Expr>, aggs: seq<Aggregate>, i: nat, before: seq<Expr>, specs: seq<Spec>,
                        spec: Spec, exprs: seq<Expr>)
    requires i < |aggs| && IsCompilation(groups, aggs[..i], before, specs)
    requires before <= exprs && Implements(spec, aggs[i], exprs) && ColumnsOf(spec) == Range(|before|, |exprs|)
    ensures IsCompilation(groups, aggs[..i + 1], exprs, specs + [spec])
  {
    var more := specs + [spec];
    assert more[..|specs|] == specs;
    forall j | 0 <= j <= i ensures Implements(more[j], aggs[..i + 1][j], exprs) {
      if j < i {
        assert Implements(specs[j], aggs[..i][j], before);
        ImplementsMore(specs[j], aggs[j], before, exprs);
      }
    }
    assert AllColumns(more) == Range(|groups|, |before|) + Range(|before|, |exprs|);
  }

  // ----- Evaluation -----------------------------------------------------------------------------------

  function Project(fs: Functions, exprs: seq<Expr>, row: Tuple): Tuple {
    seq(|exprs|, i requires 0 <= i < |exprs| => Eval(fs, exprs[i], row))
  }

  predicate Passes(fs: Functions, filter: Option<Expr>, row: Tuple) {
    filter.Some? ==> Eval(fs, filter.value, row) == TRUE
  }

  function Filtered(fs: Functions, filter: Option<Expr>, batch: seq<Tuple>): seq<Tuple> {
    if batch == [] then []
    else
      var n := |batch| - 1;
      Filtered(fs, filter, batch[..n]) + (if Passes(fs, filter, batch[n]) then [batch[n]] else [])
  }

  function ProjectAll(fs: Functions, exprs: seq<Expr>, rows: seq<Tuple>): seq<Tuple> {
    seq(|rows|, i requires 0 <= i < |rows| => Project(fs, exprs, rows[i]))
  }

  /** The compiled projection: WHERE first, then every column; a WHERE that is not boolean is an
      error. */
  function Evaluate(fs: Functions, exprs: seq<Expr>, filter: Option<Expr>, batch: seq<Tuple>): Result<seq<Tuple>> {
    if filter.Some? && exists i :: 0 <= i < |batch| && !Eval(fs, filter.value, batch[i]).Boolean? then
      Failure("WHERE filter not boolean")
    else
      Success(ProjectAll(fs, exprs, Filtered(fs, filter, batch)))
  }

  /** `at` are the positions of the rows for which WHERE is true, in order. */
  ghost predicate ArePassing(fs: Functions, filter: Option<Expr>, batch: seq<Tuple>, at: seq<nat>) {
    Ascending(at) && forall i: nat :: i in at <==> i < |batch| && Passes(fs, filter, batch[i])
  }

  ghost predicate AreRowsAt(batch: seq<Tuple>, at: seq<nat>, rows: seq<Tuple>) {
    |rows| == |at| && forall k | 0 <= k < |at| :: at[k] < |batch| && rows[k] == batch[at[k]]
  }

  /** Evaluation fails exactly on a WHERE that is not boolean. Otherwise the tuples are the
      projections of the rows for which WHERE is true, unknown excluded, one for each and in
      batch order. */
  lemma EvaluateExact(fs: Functions, exprs: seq<Expr>, filter: Option<Expr>, batch: seq<Tuple>)
    ensures Evaluate(fs, exprs, filter, batch).Success? <==>
            filter.None? || forall i | 0 <= i < |batch| :: Eval(fs, filter.value, batch[i]).Boolean?
    ensures Evaluate(fs, exprs, filter, batch).Success? ==>
              exists at: seq<nat> ::
                && ArePassing(fs, filter, batch, at)
                && AreRowsAt(ProjectAll(fs, exprs, batch), at, Evaluate(fs, exprs, filter, batch).value)
  {
    if Evaluate(fs, exprs, filter, batch).Success? {
      var at := FilteredRows(fs, filter, batch);
      assert AreRowsAt(ProjectAll(fs, exprs, batch), at, Evaluate(fs, exprs, filter, batch).value);
    }
  }

  lemma {:induction false} FilteredRows(fs: Functions, filter: Option<Expr>, batch: seq<Tuple>) returns (at: seq<nat>)
    ensures ArePassing(fs, filter, batch, at) && AreRowsAt(batch, at, Filtered(fs, filter, batch))
  {
    if batch == [] {
      at := [];
    } else {
      var n := |batch| - 1;
      at := FilteredRows(fs, filter, batch[..n]);
      if Passes(fs, filter, batch[n]) {
        AscendingPush(at, n);
        at := at + [n];
      }
    }
  }

  // ----- Meaning --------------------------------------------------------------------------------------

  /** Rows of one group, in order: the leading columns are the key. */
  function RowsOf(n: nat, key: Key, tuples: seq<Tuple>): seq<Tuple> {
    if tuples == [] then []
    else
      var m := |tuples| - 1;
      RowsOf(n, key, tuples[..m]) + (if n <= |tuples[m]| && tuples[m][..n] == key then [tuples[m]] else [])
  }

  function Cell(t: Tuple, c: nat): Scalar {
    if c < |t| then t[c] else Null
  }

  function Inputs(spec: Spec, t: Tuple): Tuple {
    seq(|spec.inputs|, k requires 0 <= k < |spec.inputs| => Cell(t, spec.inputs[k]))
  }

  predicate Unmasked(spec: Spec, t: Tuple) {
    spec.filter.Some? ==> Cell(t, spec.filter.value) == TRUE
  }

  /** What a compiled aggregate is fed from projected rows: its input columns, masked. */
  function Fed(spec: Spec, tuples: seq<Tuple>): seq<Tuple> {
    if tuples == [] then []
    else
      var n := |tuples| - 1;
      Fed(spec, tuples[..n]) + (if Unmasked(spec, tuples[n]) then [Inputs(spec, tuples[n])] else [])
  }

  /** The reference: evaluate the arguments directly on the source rows of the group that pass
      WHERE and FILTER. */
  function Direct(fs: Functions, groups: seq<Expr>, filter: Option<Expr>, agg: Aggregate, key: Key, rows: seq<Tuple>): seq<Tuple> {
    if rows == [] then []
    else
      var n := |rows| - 1;
      var r := rows[n];
      var counts := Passes(fs, filter, r) && Project(fs, groups, r) == key && Passes(fs, agg.filter, r);
      Direct(fs, groups, filter, agg, key, rows[..n]) + (if counts then [Arguments(fs, agg, r)] else [])
  }

  function Arguments(fs: Functions, agg: Aggregate, row: Tuple): Tuple {
    if agg.args == [] then [TRUE] else Project(fs, agg.args, row)
  }

  lemma MaskMeaning(fs: Functions, filter: Expr, row: Tuple)
    ensures Eval(fs, Mask(filter), row) == if Eval(fs, filter, row) == TRUE then TRUE else FALSE
  {
    assert Eval(fs, Literal(TRUE), row) == TRUE && Eval(fs, Literal(FALSE), row) == FALSE;
  }

  /** On one row the mask is the FILTER, where it holds the columns are the arguments, and where it
      does not they are null. */
  lemma RowMeaning(fs: Functions, exprs: seq<Expr>, spec: Spec, agg: Aggregate, row: Tuple)
    requires Implements(spec, agg, exprs)
    ensures Unmasked(spec, Project(fs, exprs, row)) <==> Passes(fs, agg.filter, row)
    ensures Passes(fs, agg.filter, row) ==> Inputs(spec, Project(fs, exprs, row)) == Arguments(fs, agg, row)
    ensures !Passes(fs, agg.filter, row) && agg.args != [] ==>
              forall k | 0 <= k < |agg.args| :: Inputs(spec, Project(fs, exprs, row))[k] == Null
  {
    var t := Project(fs, exprs, row);
    if agg.filter.Some? {
      MaskMeaning(fs, agg.filter.value, row);
    }
    if Passes(fs, agg.filter, row) {
      var inputs, arguments := Inputs(spec, t), Arguments(fs, agg, row);
      forall k | 0 <= k < |spec.inputs| ensures inputs[k] == arguments[k] {
        assert agg.args != [] ==> exprs[spec.inputs[k]] == InputExpr(agg, k);
      }
    } else if agg.args != [] {
      forall k | 0 <= k < |agg.args| ensures Inputs(spec, t)[k] == Null {
        assert exprs[spec.inputs[k]] == InputExpr(agg, k);
        assert Eval(fs, Literal(Null), row) == Null;
      }
    }
  }

  lemma ProjectedKey(fs: Functions, groups: seq<Expr>, exprs: seq<Expr>, row: Tuple)
    requires groups <= exprs
    ensures Project(fs, exprs, row)[..|groups|] == Project(fs, groups, row)
  {
  }

  lemma FedMore(spec: Spec, tuples: seq<Tuple>, t: Tuple)
    ensures Fed(spec, tuples + [t]) == Fed(spec, tuples) + if Unmasked(spec, t) then [Inputs(spec, t)] else []
  {
    assert (tuples + [t])[..|tuples|] == tuples;
  }

  lemma RowsOfMore(n: nat, key: Key, tuples: seq<Tuple>, t: Tuple)
    ensures RowsOf(n, key, tuples + [t]) == RowsOf(n, key, tuples) + if n <= |t| && t[..n] == key then [t] else []
  {
    assert (tuples + [t])[..|tuples|] == tuples;
  }

  lemma OneMore(fs: Functions, groups: seq<Expr>, agg: Aggregate, exprs: seq<Expr>, spec: Spec, key: Key,
                init: seq<Tuple>, r: Tuple)
    requires groups <= exprs && Implements(spec, agg, exprs)
    ensures Fed(spec, RowsOf(|groups|, key, init + [Project(fs, exprs, r)])) ==
            Fed(spec, RowsOf(|groups|, key, init))
            + if Project(fs, groups, r) == key && Passes(fs, agg.filter, r) then [Arguments(fs, agg, r)] else []
  {
    var t := Project(fs, exprs, r);
    RowsOfMore(|groups|, key, init, t);
    ProjectedKey(fs, groups, exprs, r);
    RowMeaning(fs, exprs, spec, agg, r);
    if Project(fs, groups, r) == key {
      FedMore(spec, RowsOf(|groups|, key, init), t);
    } else {
      assert RowsOf(|groups|, key, init + [t]) == RowsOf(|groups|, key, init);
    }
  }

  /** Masked accumulation over the compiled projection is direct evaluation, for every
      aggregate, group and input. */
  lemma {:induction false} CompiledIsDirect(fs: Functions, groups: seq<Expr>, filter: Option<Expr>,
                                            agg: Aggregate, exprs: seq<Expr>, spec: Spec, key: Key, batch: seq<Tuple>)
    requires groups <= exprs && Implements(spec, agg, exprs)
    ensures Fed(spec, RowsOf(|groups|, key, ProjectAll(fs, exprs, Filtered(fs, filter, batch)))) ==
            Direct(fs, groups, filter, agg, key, batch)
  {
    if batch == [] {
    } else {
      var n := |batch| - 1;
      CompiledIsDirect(fs, groups, filter, agg, exprs, spec, key, batch[..n]);
      var r := batch[n];
      if Passes(fs, filter, r) {
        var init := ProjectAll(fs, exprs, Filtered(fs, filter, batch[..n]));
        assert ProjectAll(fs, exprs, Filtered(fs, filter, batch)) == init + [Project(fs, exprs, r)];
        OneMore(fs, groups, agg, exprs, spec, key, init, r);
      } else {
        assert Filtered(fs, filter, batch) == Filtered(fs, filter, batch[..n]);
      }
    }
  }
}
