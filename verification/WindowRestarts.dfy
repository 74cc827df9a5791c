/** Tumbling and hopping aggregation over accumulators: runs of batches, closes and restarts, and
    the rows behind them. */
module WindowRestarts {
  import opened Int64
  import opened Collections
  import opened ScalarValues
  import opened ScalarCodec
  import opened Rows
  import opened Accumulators
  import opened GroupCap
  import opened Snapshots
  import opened Restarts
  import opened FixedWindows
  import opened Runs

  type Held<A> = map<int, map<Key, A>>

  function FeedGroupTo<A>(acc: Accumulators<Row, A>, c: Config, w: Held<A>, g: Group, rows: seq<Row>): Held<A> {
    w[g.ws := AdmitTo(acc, WindowAt(w, g.ws), g.key, rows, c.cap)]
  }

  /** The groups of a batch, in the order the hash map yields them. */
  function FeedAll<A>(acc: Accumulators<Row, A>, c: Config, w: Held<A>, order: seq<Group>, batch: seq<Row>): Held<A>
    requires c.Valid()
  {
    if order == [] then w
    else
      var g := order[|order| - 1];
      FeedGroupTo(acc, c, FeedAll(acc, c, w, order[..|order| - 1], batch), g, RowsIn(c, batch, g))
  }

  ghost predicate BatchNext<A(!new)>(acc: Accumulators<Row, A>, c: Config, w: Held<A>, batch: seq<Row>, v: Held<A>)
    requires c.Valid()
  {
    exists order :: IsOrder(c, order, batch) && v == FeedAll(acc, c, w, order, batch)
  }

  // ----- Checkpoint and restore ---------------------------------------------------------------------

  datatype WindowCheckpoint = WindowCheckpoint(start: int, groups: seq<Entry<Saved>>)

  /** Windows are rebuilt one by one; the first key or state that cannot be read aborts. */
  function RestoreAll<R, A>(acc: Accumulators<R, A>, ws: seq<WindowCheckpoint>): Result<Held<A>> {
    if ws == [] then Success(map[])
    else
      var n := |ws| - 1;
      var init := RestoreAll(acc, ws[..n]);
      if init.Failure? then init
      else
        var groups := Restore(Loader(acc), ws[n].groups);
        if groups.Failure? then Failure(groups.error) else Success(init.value[ws[n].start := groups.value])
  }

  /** Windows in order, each with its groups listed once. */
  ghost predicate IsCheckpoint<R(!new), A(!new)>(acc: Accumulators<R, A>, cps: seq<WindowCheckpoint>, w: Held<A>,
                                                 starts: seq<int>, keys: seq<seq<Key>>) {
    && |cps| == |starts| == |keys| && Enumerates(starts, w.Keys)
    && (forall i | 0 <= i < |starts| ::
          starts[i] in w && cps[i].start == starts[i] && Lists(Saver(acc), cps[i].groups, w[starts[i]], keys[i]))
  }

  ghost predicate WindowsTyped<R, A>(acc: Accumulators<R, A>, w: Held<A>) {
    forall ws | ws in w :: TableTyped(acc, w[ws])
  }

  ghost predicate WindowsSurvive<R, A(!new)>(acc: Accumulators<R, A>, w: Held<A>) {
    forall ws | ws in w :: Survives(acc, w[ws])
  }

  ghost predicate WindowsRestorable<R, A>(acc: Accumulators<R, A>, w: Held<A>) {
    forall ws | ws in w :: Restorable(acc, w[ws])
  }

  /** `r` has the first windows, each the one saved exactly if it survives. */
  ghost predicate RestoredTo<R, A(!new)>(acc: Accumulators<R, A>, w: Held<A>, starts: seq<int>, r: Held<A>) {
    && (forall ws :: ws in r <==> ws in starts)
    && (forall ws | ws in r :: ws in w && (r[ws] == w[ws] <==> Survives(acc, w[ws])))
  }

  lemma RestoreAllLast<R, A>(acc: Accumulators<R, A>, cps: seq<WindowCheckpoint>, n: nat)
    requires n < |cps|
    ensures var init, last, all := RestoreAll(acc, cps[..n]), Restore(Loader(acc), cps[n].groups), RestoreAll(acc, cps[..n + 1]);
            && (all.Success? <==> init.Success? && last.Success?)
            && (all.Success? ==> all.value == init.value[cps[n].start := last.value])
  {
    assert cps[..n + 1][..n] == cps[..n];
  }

  lemma RestoredMore<R, A(!new)>(acc: Accumulators<R, A>, w: Held<A>, starts: seq<int>, r: Held<A>, ws: int,
                                 groups: map<Key, A>)
    requires RestoredTo(acc, w, starts, r) && ws in w && (groups == w[ws] <==> Survives(acc, w[ws]))
    ensures RestoredTo(acc, w, starts + [ws], r[ws := groups])
  {
  }

  lemma {:induction false} RestorePrefix<R(!new), A(!new)>(acc: Accumulators<R, A>, cps: seq<WindowCheckpoint>,
                                                           w: Held<A>, starts: seq<int>, keys: seq<seq<Key>>, n: nat)
    requires IsCheckpoint(acc, cps, w, starts, keys) && WindowsTyped(acc, w) && n <= |starts|
    ensures RestoreAll(acc, cps[..n]).Success? <==> forall i | 0 <= i < n :: Restorable(acc, w[starts[i]])
    ensures RestoreAll(acc, cps[..n]).Success? ==> RestoredTo(acc, w, starts[..n], RestoreAll(acc, cps[..n]).value)
  {
    if n == 0 {
    } else {
      var m := n - 1;
      RestorePrefix(acc, cps, w, starts, keys, m);
      RestartExact(acc, cps[m].groups, w[starts[m]], keys[m]);
      RestoreAllLast(acc, cps, m);
      if RestoreAll(acc, cps[..n]).Success? {
        TakeOne(starts, m);
        RestoredMore(acc, w, starts[..m], RestoreAll(acc, cps[..m]).value, starts[m],
                     Restore(Loader(acc), cps[m].groups).value);
      }
    }
  }

  /** Restart equivalence for fixed windows: a checkpoint can be restored exactly when no key and
      no accumulator state is unreadable or refused, and restores to the windows it was taken of
      exactly when every key is wide and every accumulator state is kept. */
  lemma WindowsRestartExact<R(!new), A(!new)>(acc: Accumulators<R, A>, cps: seq<WindowCheckpoint>, w: Held<A>,
                                              starts: seq<int>, keys: seq<seq<Key>>)
    requires IsCheckpoint(acc, cps, w, starts, keys) && WindowsTyped(acc, w)
    ensures RestoreAll(acc, cps).Success? <==> WindowsRestorable(acc, w)
    ensures RestoreAll(acc, cps) == Success(w) <==> WindowsSurvive(acc, w)
  {
    RestorePrefix(acc, cps, w, starts, keys, |starts|);
    assert cps[..|starts|] == cps && starts[..|starts|] == starts;
    forall ws | ws in w ensures exists i :: 0 <= i < |starts| && starts[i] == ws {
      assert ws in starts;
    }
    SurvivorsRestore(acc, w);
    if RestoreAll(acc, cps).Success? {
      SameWindows(acc, w, starts, RestoreAll(acc, cps).value);
    }
  }

  lemma SurvivorsRestore<R, A(!new)>(acc: Accumulators<R, A>, w: Held<A>)
    ensures WindowsSurvive(acc, w) ==> WindowsRestorable(acc, w)
  {
  }

  lemma SameWindows<R, A(!new)>(acc: Accumulators<R, A>, w: Held<A>, starts: seq<int>, r: Held<A>)
    requires Enumerates(starts, w.Keys) && RestoredTo(acc, w, starts, r)
    ensures r == w <==> WindowsSurvive(acc, w)
  {
    if WindowsSurvive(acc, w) {
      SameIntMap(r, w);
    }
    if r == w {
      forall ws | ws in w ensures Survives(acc, w[ws]) { assert ws in r; }
    }
  }

  ghost predicate WindowsRestarted<R(!new), A(!new)>(acc: Accumulators<R, A>, w: Held<A>, v: Held<A>) {
    exists cps: seq<WindowCheckpoint>, starts: seq<int>, keys: seq<seq<Key>> ::
      IsCheckpoint(acc, cps, w, starts, keys) && RestoreAll(acc, cps) == Success(v)
  }

  lemma WindowsRestartedExact<R(!new), A(!new)>(acc: Accumulators<R, A>, w: Held<A>, v: Held<A>)
    requires WindowsTyped(acc, w) && WindowsRestarted(acc, w, v)
    ensures v == w <==> WindowsSurvive(acc, w)
  {
    var cps: seq<WindowCheckpoint>, starts: seq<int>, keys: seq<seq<Key>> :|
      IsCheckpoint(acc, cps, w, starts, keys) && RestoreAll(acc, cps) == Success(v);
    WindowsRestartExact(acc, cps, w, starts, keys);
  }

  // ----- Runs -----------------------------------------------------------------------------------------

  type WindowEvent = Interrupted<Event>

  ghost predicate WindowNext<A(!new)>(acc: Accumulators<Row, A>, c: Config, s: Operator<A>, e: WindowEvent, t: Operator<A>)
    requires c.Valid()
  {
    match e
    case Go(Batch(rows)) => BatchNext(acc, c, s.windows, rows, t.windows) && t == s.(windows := t.windows)
    case Go(Close(at)) => CloseNext(c, s, at, t)
    case Restart => WindowsRestarted(acc, s.windows, t.windows) && t == s.(windows := t.windows)
  }

  /** On-time rows, and restarts of windows that survive them. */
  ghost predicate InOrder<A(!new)>(acc: Accumulators<Row, A>, c: Config, s: Operator<A>, e: WindowEvent) {
    match e
    case Go(event) => EventOnTime(c, s.watermark, event)
    case Restart => WindowsTyped(acc, s.windows) && WindowsSurvive(acc, s.windows)
  }

  ghost function WindowSteps<A(!new)>(acc: Accumulators<Row, A>, c: Config)
    : (Operator<A>, WindowEvent, Operator<A>) -> bool
    requires c.Valid()
  {
    (s, e, t) => WindowNext(acc, c, s, e, t) && InOrder(acc, c, s, e)
  }

  ghost predicate IsWindowRun<A(!new)>(acc: Accumulators<Row, A>, c: Config, states: seq<Operator<A>>,
                                       events: seq<WindowEvent>)
    requires c.Valid()
  {
    IsRunOf(Operator(map[], [], MIN), WindowSteps(acc, c), states, events)
  }

  // ----- The rows behind ------------------------------------------------------------------------------

  ghost function ImageWindows<A>(acc: Accumulators<Row, A>, w: Windows): Held<A> {
    map ws | ws in w :: Image(acc, w[ws])
  }

  ghost function ImageEmission<A>(acc: Accumulators<Row, A>, e: RowEmission): Emission<A> {
    Emission(e.start, e.end, Image(acc, e.groups))
  }

  ghost function ImageLog<A>(acc: Accumulators<Row, A>, log: seq<RowEmission>): seq<Emission<A>> {
    seq(|log|, i requires 0 <= i < |log| => ImageEmission(acc, log[i]))
  }

  ghost function ImageOf<A>(acc: Accumulators<Row, A>, s: State): Operator<A> {
    Operator(ImageWindows(acc, s.windows), ImageLog(acc, s.log), s.watermark)
  }

  lemma FeedGroupImage<A(!new)>(acc: Accumulators<Row, A>, c: Config, w: Windows, g: Group, rows: seq<Row>)
    requires Sequential(acc)
    ensures FeedGroupTo(acc, c, ImageWindows(acc, w), g, rows) == ImageWindows(acc, AdmitGroup(c, w, g, rows))
  {
    assert WindowAt(ImageWindows(acc, w), g.ws) == Image(acc, WindowAt(w, g.ws));
    AdmitImage(acc, WindowAt(w, g.ws), g.key, rows, c.cap);
    SameIntMap(FeedGroupTo(acc, c, ImageWindows(acc, w), g, rows), ImageWindows(acc, AdmitGroup(c, w, g, rows)));
  }

  lemma {:induction false} FeedAllImage<A(!new)>(acc: Accumulators<Row, A>, c: Config, w: Windows, order: seq<Group>,
                                                 batch: seq<Row>)
    requires Sequential(acc) && c.Valid()
    ensures FeedAll(acc, c, ImageWindows(acc, w), order, batch) == ImageWindows(acc, AdmitAll(c, w, order, batch))
  {
    if order == [] {
    } else {
      var init, g := order[..|order| - 1], order[|order| - 1];
      FeedAllImage(acc, c, w, init, batch);
      FeedGroupImage(acc, c, AdmitAll(c, w, init, batch), g, RowsIn(c, batch, g));
    }
  }

  lemma BatchBehind<A(!new)>(acc: Accumulators<Row, A>, c: Config, s: State, batch: seq<Row>, t: Operator<A>)
    returns (r: State)
    requires Sequential(acc) && c.Valid() && BatchNext(acc, c, ImageOf(acc, s).windows, batch, t.windows)
    requires t == ImageOf(acc, s).(windows := t.windows)
    ensures Next(c, s, Batch(batch), r) && t == ImageOf(acc, r)
  {
    var order :| IsOrder(c, order, batch) && t.windows == FeedAll(acc, c, ImageOf(acc, s).windows, order, batch);
    FeedAllImage(acc, c, s.windows, order, batch);
    r := s.(windows := AdmitAll(c, s.windows, order, batch));
  }

  /** The output rows behind an output of accumulators. */
  ghost function RowsBehind<A>(w: Windows, out: seq<Emission<A>>): seq<RowEmission>
    requires forall i | 0 <= i < |out| :: out[i].start in w
  {
    seq(|out|, i requires 0 <= i < |out| => Emission(out[i].start, out[i].end, w[out[i].start]))
  }

  lemma OutputBehind<A(!new)>(acc: Accumulators<Row, A>, c: Config, w: Windows, at: int, out: seq<Emission<A>>)
    requires IsOutput(c, ImageWindows(acc, w), at, out)
    ensures forall i | 0 <= i < |out| :: out[i].start in w
    ensures IsOutput(c, w, at, RowsBehind(w, out)) && ImageLog(acc, RowsBehind(w, out)) == out
  {
    forall i | 0 <= i < |out|
      ensures out[i].start in w && Expired(c, out[i].start, at) && w[out[i].start] != map[]
      ensures out[i] == Emission(out[i].start, SatAdd(out[i].start, c.assigner.size), Image(acc, w[out[i].start]))
    {
      assert out[i] in out;
      ImageSize(acc, w[out[i].start]);
    }
    var rows := RowsBehind(w, out);
    forall e: RowEmission | e.start in w && Expired(c, e.start, at) && w[e.start] != map[]
                            && e == Emission(e.start, SatAdd(e.start, c.assigner.size), w[e.start])
      ensures e in rows
    {
      ImageSize(acc, w[e.start]);
      assert ImageEmission(acc, e) in out;
      var i :| 0 <= i < |out| && out[i] == ImageEmission(acc, e);
      assert rows[i] == e;
    }
  }

  lemma CloseBehind<A(!new)>(acc: Accumulators<Row, A>, c: Config, s: State, at: int, t: Operator<A>) returns (r: State)
    requires c.Valid() && CloseNext(c, ImageOf(acc, s), at, t)
    ensures Next(c, s, Close(at), r) && t == ImageOf(acc, r)
  {
    var image := ImageOf(acc, s);
    var out := t.log[|image.log|..];
    OutputBehind(acc, c, s.windows, at, out);
    var rows := RowsBehind(s.windows, out);
    r := Operator(CloseWindows(c, s.windows, at), s.log + rows, Max(s.watermark, at));
    ClosedImage(acc, c, s.windows, at);
    LogImage(acc, s.log, rows);
    assert t.log == image.log + out;
    assert r.log[|s.log|..] == rows;
  }

  lemma ClosedImage<A(!new)>(acc: Accumulators<Row, A>, c: Config, w: Windows, at: int)
    requires c.Valid()
    ensures CloseWindows(c, ImageWindows(acc, w), at) == ImageWindows(acc, CloseWindows(c, w, at))
  {
    SameIntMap(CloseWindows(c, ImageWindows(acc, w), at), ImageWindows(acc, CloseWindows(c, w, at)));
  }

  lemma LogImage<A(!new)>(acc: Accumulators<Row, A>, log: seq<RowEmission>, more: seq<RowEmission>)
    ensures ImageLog(acc, log + more) == ImageLog(acc, log) + ImageLog(acc, more)
  {
  }

  lemma OneBehind<A(!new)>(acc: Accumulators<Row, A>, c: Config, s: State, e: WindowEvent, t: Operator<A>)
    requires Sequential(acc) && c.Valid() && WindowNext(acc, c, ImageOf(acc, s), e, t) && InOrder(acc, c, ImageOf(acc, s), e)
    ensures HasStep(Steps(c), r => ImageOf(acc, r), _ => true, s, e, t)
  {
    match e
    case Restart => WindowsRestartedExact(acc, ImageWindows(acc, s.windows), t.windows);
    case Go(event) =>
      var r: State;
      match event {
        case Batch(batch) => r := BatchBehind(acc, c, s, batch, t);
        case Close(at) => r := CloseBehind(acc, c, s, at, t);
      }
      assert Steps(c)(s, event, r);
  }

  /** A run with restarts that are survived is, behind the accumulators, a run of the rows as if
      it had never stopped. */
  lemma RowsOfRun<A(!new)>(acc: Accumulators<Row, A>, c: Config, states: seq<Operator<A>>, events: seq<WindowEvent>)
    returns (rows: seq<State>)
    requires Sequential(acc) && c.Valid() && IsWindowRun(acc, c, states, events)
    ensures IsRun(c, rows, Uninterrupted(events))
    ensures states[|events|] == ImageOf(acc, rows[|Uninterrupted(events)|])
  {
    var image := (r: State) => ImageOf(acc, r);
    SameIntMap(ImageWindows(acc, map[]), map[]);
    assert image(INITIAL) == Operator(map[], [], MIN);
    forall s: State, e: WindowEvent, t: Operator<A> | WindowSteps(acc, c)(image(s), e, t)
      ensures HasStep(Steps(c), image, _ => true, s, e, t)
    {
      OneBehind(acc, c, s, e, t);
    }
    rows := RunBehind(INITIAL, WindowSteps(acc, c), Steps(c), image, _ => true, states, events);
  }

  // ----- What the operator holds ----------------------------------------------------------------------

  ghost predicate HoldsAccumulators<A(!new)>(acc: Accumulators<Row, A>, c: Config, s: Operator<A>, seen: seq<Row>, g: Group)
    requires c.Valid()
  {
    forall a :: Holds(s, g, a) <==> RowsIn(c, seen, g) != [] && a == Of(acc, RowsIn(c, seen, g))
  }

  lemma HeldImage<A(!new)>(acc: Accumulators<Row, A>, s: State, g: Group, a: A)
    ensures Holds(ImageOf(acc, s), g, a) <==> exists rows :: Holds(s, g, rows) && a == Of(acc, rows)
  {
    var image := ImageOf(acc, s);
    if Holds(image, g, a) {
      if g.ws in image.windows && g.key in image.windows[g.ws] && image.windows[g.ws][g.key] == a {
        assert Holds(s, g, s.windows[g.ws][g.key]);
      } else {
        var e :| e in image.log && e.start == g.ws && g.key in e.groups && e.groups[g.key] == a;
        var i :| 0 <= i < |image.log| && image.log[i] == e;
        assert s.log[i] in s.log && Holds(s, g, s.log[i].groups[g.key]);
      }
    }
    if rows :| Holds(s, g, rows) && a == Of(acc, rows) {
      if !(g.ws in s.windows && g.key in s.windows[g.ws] && s.windows[g.ws][g.key] == rows) {
        var e :| e in s.log && e.start == g.ws && g.key in e.groups && e.groups[g.key] == rows;
        var i :| 0 <= i < |s.log| && s.log[i] == e;
        assert image.log[i] in image.log && image.log[i] == ImageEmission(acc, e);
      }
    }
  }

  /** The operator holds or has emitted, for every group of the window with rows, the
      accumulators fed exactly those rows, and nothing else. */
  ghost predicate HoldsTable<A(!new)>(acc: Accumulators<Row, A>, c: Config, s: Operator<A>, seen: seq<Row>, ws: int)
    requires c.Valid()
  {
    forall k :: HoldsAccumulators(acc, c, s, seen, Group(ws, k))
  }

  lemma HeldRows(c: Config, rows: seq<State>, events: seq<Event>, g: Group, held: seq<Row>)
    requires c.Valid() && IsRun(c, rows, events) && Holds(rows[|events|], g, held)
    ensures held == RowsIn(c, Input(events), g)
  {
    RunComplete(c, rows, events);
    assert g == Group(g.ws, g.key);
  }

  lemma TableBehind<A(!new)>(acc: Accumulators<Row, A>, c: Config, rows: seq<State>, events: seq<Event>, ws: int)
    requires c.Valid() && IsRun(c, rows, events)
    ensures HoldsTable(acc, c, ImageOf(acc, rows[|events|]), Input(events), ws) <==>
            HoldsAll(c, rows[|events|], Input(events), ws)
  {
    var s, seen := rows[|events|], Input(events);
    var image := ImageOf(acc, s);
    if HoldsAll(c, s, seen, ws) {
      forall k, a ensures Holds(image, Group(ws, k), a) <==>
                          RowsIn(c, seen, Group(ws, k)) != [] && a == Of(acc, RowsIn(c, seen, Group(ws, k)))
      {
        HeldImage(acc, s, Group(ws, k), a);
        assert Holds(s, Group(ws, k), RowsIn(c, seen, Group(ws, k))) <==> RowsIn(c, seen, Group(ws, k)) != [];
      }
    }
    if HoldsTable(acc, c, image, seen, ws) {
      forall k, held ensures Holds(s, Group(ws, k), held) <==> held == RowsIn(c, seen, Group(ws, k)) && held != [] {
        GroupBehind(acc, c, rows, events, Group(ws, k), held);
      }
    }
  }

  lemma GroupBehind<A(!new)>(acc: Accumulators<Row, A>, c: Config, rows: seq<State>, events: seq<Event>, g: Group,
                             held: seq<Row>)
    requires c.Valid() && IsRun(c, rows, events)
    requires HoldsAccumulators(acc, c, ImageOf(acc, rows[|events|]), Input(events), g)
    ensures Holds(rows[|events|], g, held) <==> held == RowsIn(c, Input(events), g) && held != []
  {
    var s, seen := rows[|events|], Input(events);
    if Holds(s, g, held) {
      HeldRows(c, rows, events, g, held);
      HeldImage(acc, s, g, Of(acc, held));
    } else if held == RowsIn(c, seen, g) && held != [] {
      HeldImage(acc, s, g, Of(acc, held));
      var other :| Holds(s, g, other) && Of(acc, held) == Of(acc, other);
      HeldRows(c, rows, events, g, other);
    }
  }

  /** The same for the half-open interval of the window. */
  ghost predicate HoldsInterval<A(!new)>(acc: Accumulators<Row, A>, c: Config, s: Operator<A>, seen: seq<Row>, ws: int)
    requires c.Valid()
  {
    forall k, a :: Holds(s, Group(ws, k), a) <==>
      RowsWithin(c, seen, Group(ws, k)) != [] && a == Of(acc, RowsWithin(c, seen, Group(ws, k)))
  }

  lemma TableInterval<A(!new)>(acc: Accumulators<Row, A>, c: Config, s: Operator<A>, seen: seq<Row>, ws: int)
    requires c.Valid() && AllExact(c, seen) && MIN <= ws
    ensures HoldsInterval(acc, c, s, seen, ws) <==> HoldsTable(acc, c, s, seen, ws)
  {
    forall k ensures RowsWithin(c, seen, Group(ws, k)) == RowsIn(c, seen, Group(ws, k)) {
      WithinExact(c, seen, Group(ws, k));
    }
    if HoldsInterval(acc, c, s, seen, ws) {
      forall k ensures HoldsAccumulators(acc, c, s, seen, Group(ws, k)) {
      }
    }
    if HoldsTable(acc, c, s, seen, ws) {
      forall k, a ensures Holds(s, Group(ws, k), a) <==>
                          RowsWithin(c, seen, Group(ws, k)) != [] && a == Of(acc, RowsWithin(c, seen, Group(ws, k)))
      {
        assert HoldsAccumulators(acc, c, s, seen, Group(ws, k));
      }
    }
  }

  /** Over every run of batches, closes and restarts that are survived: the operator holds or has
      emitted, for every group of a window with rows, the accumulators fed exactly those rows, if
      and only if the distinct keys of the window fit the cap. The window is the half-open
      interval where the assigner is exact, and otherwise what the assigner gives. */
  lemma RestartedGroupBy<A(!new)>(acc: Accumulators<Row, A>, c: Config, states: seq<Operator<A>>,
                                  events: seq<WindowEvent>, ws: int)
    requires Sequential(acc) && c.Valid() && IsWindowRun(acc, c, states, events)
    ensures var seen := Input(Uninterrupted(events));
            && (HoldsTable(acc, c, states[|events|], seen, ws) <==> BelowCapAt(c, seen, ws))
            && (AllExact(c, seen) && MIN <= ws ==>
                  (HoldsInterval(acc, c, states[|events|], seen, ws) <==>
                   (c.cap.Some? ==> |KeysWithin(c, seen, ws)| <= c.cap.value)))
  {
    var straight := Uninterrupted(events);
    var rows := RowsOfRun(acc, c, states, events);
    RunGroupBy(c, rows, straight, ws);
    TableBehind(acc, c, rows, straight, ws);
    if AllExact(c, Input(straight)) && MIN <= ws {
      TableInterval(acc, c, states[|events|], Input(straight), ws);
      KeysExact(c, Input(straight), ws);
    }
  }

  /** Over every run of batches, closes and restarts that are survived, whatever the cap turned
      away: emitted starts strictly increase, no emitted window is open again, every group open
      or emitted has the accumulators fed all of its rows, and no window has more groups than the
      cap. */
  lemma RestartedComplete<A(!new)>(acc: Accumulators<Row, A>, c: Config, states: seq<Operator<A>>,
                                   events: seq<WindowEvent>)
    requires Sequential(acc) && c.Valid() && IsWindowRun(acc, c, states, events)
    ensures IsComplete(acc, c, states[|events|], Input(Uninterrupted(events)))
  {
    var straight := Uninterrupted(events);
    var rows := RowsOfRun(acc, c, states, events);
    RunComplete(c, rows, straight);
    CompleteImage(acc, c, rows[|straight|], Input(straight));
  }

  ghost predicate IsComplete<A>(acc: Accumulators<Row, A>, c: Config, s: Operator<A>, seen: seq<Row>)
    requires c.Valid()
  {
    && (forall i, j | 0 <= i < j < |s.log| :: s.log[i].start < s.log[j].start)
    && (forall i, ws | 0 <= i < |s.log| && ws in s.windows :: s.log[i].start < ws)
    && (forall i, k | 0 <= i < |s.log| && k in s.log[i].groups ::
          s.log[i].groups[k] == Of(acc, RowsIn(c, seen, Group(s.log[i].start, k))))
    && (forall ws, k | ws in s.windows && k in s.windows[ws] ::
          s.windows[ws][k] == Of(acc, RowsIn(c, seen, Group(ws, k))))
    && (c.cap.Some? ==>
          && (forall ws | ws in s.windows :: |s.windows[ws]| <= c.cap.value)
          && (forall i | 0 <= i < |s.log| :: |s.log[i].groups| <= c.cap.value))
  }

  lemma CompleteImage<A>(acc: Accumulators<Row, A>, c: Config, s: State, seen: seq<Row>)
    requires c.Valid()
    requires forall i, j | 0 <= i < j < |s.log| :: s.log[i].start < s.log[j].start
    requires forall e, ws | e in s.log && ws in s.windows :: e.start < ws
    requires forall e, k | e in s.log && k in e.groups :: e.groups[k] == RowsIn(c, seen, Group(e.start, k))
    requires forall ws, k | ws in s.windows && k in s.windows[ws] :: s.windows[ws][k] == RowsIn(c, seen, Group(ws, k))
    requires c.cap.Some? ==> forall ws | ws in s.windows :: |s.windows[ws]| <= c.cap.value
    requires c.cap.Some? ==> forall e | e in s.log :: |e.groups| <= c.cap.value
    ensures IsComplete(acc, c, ImageOf(acc, s), seen)
  {
    forall i | 0 <= i < |s.log| ensures s.log[i] in s.log {
    }
    forall i | 0 <= i < |s.log| ensures |ImageEmission(acc, s.log[i]).groups| == |s.log[i].groups| {
      ImageSize(acc, s.log[i].groups);
    }
    forall ws | ws in s.windows ensures |Image(acc, s.windows[ws])| == |s.windows[ws]| {
      ImageSize(acc, s.windows[ws]);
    }
  }
}
