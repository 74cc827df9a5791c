/** Tumbling and hopping aggregation: rows grouped per window and key under a cardinality cap,
    windows closed by the watermark, over whole runs. Accumulators hold the rows fed to them,
    in order. */
module FixedWindows {
  import opened Int64
  import opened Collections
  import opened ScalarValues
  import opened Rows
  import opened WindowAssigner
  import opened GroupCap
  import opened Runs

  type Window = map<Key, seq<Row>>

  type Windows = map<int, Window>

  /** `cap` bounds the groups of one window; an ungrouped query has no cap. */
  datatype Config = Config(assigner: Assigner, lateness: int, cap: Option<nat>) {
    predicate Valid() {
      assigner.Valid() && lateness >= 0
    }
  }

  /** A (window, group) pair: the key under which a batch's row indices are collected. */
  datatype Group = Group(ws: int, key: Key)

  predicate Selects(c: Config, g: Group, r: Row)
    requires c.Valid()
  {
    HasTime(r) && r.key == g.key && Assigned(c.assigner, g.ws, r.ts)
  }

  /** The rows of one window and group, in arrival order. */
  function RowsIn(c: Config, rows: seq<Row>, g: Group): seq<Row>
    requires c.Valid()
  {
    if rows == [] then []
    else
      var r := rows[|rows| - 1];
      RowsIn(c, rows[..|rows| - 1], g) + (if Selects(c, g, r) then [r] else [])
  }

  lemma {:induction false} RowsInConcat(c: Config, p: seq<Row>, q: seq<Row>, g: Group)
    requires c.Valid()
    ensures RowsIn(c, p + q, g) == RowsIn(c, p, g) + RowsIn(c, q, g)
  {
    if q == [] {
      assert p + q == p;
    } else {
      RowsInConcat(c, p, q[..|q| - 1], g);
      assert (p + q)[..|p + q| - 1] == p + q[..|q| - 1];
    }
  }

  lemma {:induction false} RowsInMember(c: Config, rows: seq<Row>, g: Group, r: Row)
    requires c.Valid()
    ensures r in RowsIn(c, rows, g) <==> r in rows && Selects(c, g, r)
  {
    if rows == [] {
    } else {
      RowsInMember(c, rows[..|rows| - 1], g, r);
      assert rows == rows[..|rows| - 1] + [rows[|rows| - 1]];
    }
  }

  lemma RowsInSome(c: Config, rows: seq<Row>, g: Group) returns (r: Row)
    requires c.Valid() && RowsIn(c, rows, g) != []
    ensures r in rows && Selects(c, g, r)
  {
    r := RowsIn(c, rows, g)[0];
    RowsInMember(c, rows, g, r);
  }

  function WindowAt<A>(w: map<int, map<Key, A>>, ws: int): map<Key, A> {
    if ws in w then w[ws] else map[]
  }

  /** Feed a group's new rows to its window; the window entry is created even when the cap
      turns the group away. */
  function AdmitGroup(c: Config, w: Windows, g: Group, rows: seq<Row>): Windows {
    w[g.ws := Admit(WindowAt(w, g.ws), g.key, rows, c.cap)]
  }

  /** The groups of a batch, in the order the hash map yields them. */
  function AdmitAll(c: Config, w: Windows, order: seq<Group>, batch: seq<Row>): Windows
    requires c.Valid()
  {
    if order == [] then w
    else
      var g := order[|order| - 1];
      AdmitGroup(c, AdmitAll(c, w, order[..|order| - 1], batch), g, RowsIn(c, batch, g))
  }

  ghost predicate IsOrder(c: Config, order: seq<Group>, batch: seq<Row>)
    requires c.Valid()
  {
    && (forall i, j | 0 <= i < j < |order| :: order[i] != order[j])
    && (forall g :: g in order <==> RowsIn(c, batch, g) != [])
  }

  // ----- Closing --------------------------------------------------------------------------------

  predicate Expired(c: Config, ws: int, watermark: int) {
    SatAdd(SatAdd(ws, c.assigner.size), c.lateness) <= watermark
  }

  /** One emitted window: bounds and what its groups hold, rows or accumulators. */
  datatype Emission<+A> = Emission(start: int, end: int, groups: map<Key, A>)

  type RowEmission = Emission<seq<Row>>

  function CloseWindows<A>(c: Config, w: map<int, map<Key, A>>, watermark: int): map<int, map<Key, A>> {
    map ws | ws in w && !Expired(c, ws, watermark) :: w[ws]
  }

  /** Output of a close: every expired window that has groups, earliest first. */
  ghost predicate IsOutput<A(!new)>(c: Config, w: map<int, map<Key, A>>, watermark: int, out: seq<Emission<A>>) {
    && (forall i, j | 0 <= i < j < |out| :: out[i].start < out[j].start)
    && (forall e :: e in out <==>
          e.start in w && Expired(c, e.start, watermark) && w[e.start] != map[]
          && e == Emission(e.start, SatAdd(e.start, c.assigner.size), w[e.start]))
  }

  // ----- Runs -----------------------------------------------------------------------------------

  datatype Event = Batch(rows: seq<Row>) | Close(at: int)

  datatype Operator<+A> = Operator(windows: map<int, map<Key, A>>, log: seq<Emission<A>>, watermark: int)

  type State = Operator<seq<Row>>

  const INITIAL: State := Operator(map[], [], MIN)

  /** Expired windows move from the state to the output. */
  ghost predicate CloseNext<A(!new)>(c: Config, s: Operator<A>, at: int, t: Operator<A>) {
    && t.windows == CloseWindows(c, s.windows, at)
    && t.watermark == Max(s.watermark, at)
    && |t.log| >= |s.log| && t.log[..|s.log|] == s.log
    && IsOutput(c, s.windows, at, t.log[|s.log|..])
  }

  /** A close with this state and this output is a step, whatever was emitted before. */
  lemma CloseIsNext<A(!new)>(c: Config, s: Operator<A>, at: int, out: seq<Emission<A>>)
    requires IsOutput(c, s.windows, at, out)
    ensures CloseNext(c, s, at, Operator(CloseWindows(c, s.windows, at), s.log + out, Max(s.watermark, at)))
  {
    assert (s.log + out)[..|s.log|] == s.log && (s.log + out)[|s.log|..] == out;
  }

  ghost predicate Next(c: Config, s: State, e: Event, t: State)
    requires c.Valid()
  {
    match e
    case Batch(rows) =>
      exists order :: IsOrder(c, order, rows) && t == s.(windows := AdmitAll(c, s.windows, order, rows))
    case Close(at) => CloseNext(c, s, at, t)
  }

  /** A row not behind the watermark by more than the allowed lateness. */
  predicate OnTime(c: Config, watermark: int, r: Row) {
    HasTime(r) ==> watermark < MAX && r.ts + c.lateness >= watermark
  }

  /** A row that is on time at the watermark can still fall into the window. */
  ghost predicate MayFill(c: Config, watermark: int, ws: int) {
    exists row: Row :: HasTime(row) && OnTime(c, watermark, row) && ws <= row.ts < ws + c.assigner.size
  }

  /** A window with room for a timestamp is over exactly when no on-time row can fall into it. */
  lemma ExpiredExact(c: Config, ws: int, watermark: int)
    requires c.Valid() && Is(watermark) && Is(ws) && NULL_TIMESTAMP < ws + c.assigner.size - 1
    ensures Expired(c, ws, watermark) <==> !MayFill(c, watermark, ws)
  {
    var last := Row([], Min(ws + c.assigner.size - 1, MAX), []);
    assert HasTime(last) && ws <= last.ts < ws + c.assigner.size;
  }

  /** A close keeps exactly the windows that an on-time row can still fall into. It emits exactly
      the others that have groups, with those and with the bounds of the window, and in order. */
  lemma CloseExact<A(!new)>(c: Config, s: Operator<A>, at: int, t: Operator<A>, ws: int)
    requires c.Valid() && Is(at) && CloseNext(c, s, at, t)
    requires Is(ws) && NULL_TIMESTAMP < ws + c.assigner.size - 1 && ws + c.assigner.size <= MAX
    ensures ws in t.windows <==> ws in s.windows && MayFill(c, at, ws)
    ensures ws in t.windows ==> t.windows[ws] == s.windows[ws]
    ensures s.log <= t.log
    ensures forall i | |s.log| <= i < |t.log| && t.log[i].start == ws ::
              ws in s.windows && !MayFill(c, at, ws) && t.log[i] == Emission(ws, ws + c.assigner.size, s.windows[ws])
    ensures ws in s.windows && s.windows[ws] != map[] && !MayFill(c, at, ws) ==>
              exists i :: |s.log| <= i < |t.log| && t.log[i].start == ws
    ensures forall i, j | |s.log| <= i < j < |t.log| :: t.log[i].start < t.log[j].start
  {
    ExpiredExact(c, ws, at);
    var out := t.log[|s.log|..];
    assert t.log == s.log + out;
    forall i | |s.log| <= i < |t.log| ensures t.log[i] in out {
      assert t.log[i] == out[i - |s.log|];
    }
    forall i, j | |s.log| <= i < j < |t.log| ensures t.log[i].start < t.log[j].start {
      assert out[i - |s.log|].start < out[j - |s.log|].start;
    }
    if ws in s.windows && s.windows[ws] != map[] && !MayFill(c, at, ws) {
      var e := Emission(ws, SatAdd(ws, c.assigner.size), s.windows[ws]);
      assert e in out;
      var i :| 0 <= i < |out| && out[i] == e;
      assert t.log[|s.log| + i] == e;
    }
  }

  ghost predicate EventOnTime(c: Config, watermark: int, e: Event) {
    e.Batch? ==> forall r | r in e.rows :: OnTime(c, watermark, r)
  }

  /** A step with on-time rows. */
  ghost function Steps(c: Config): (State, Event, State) -> bool
    requires c.Valid()
  {
    (s, e, t) => Next(c, s, e, t) && EventOnTime(c, s.watermark, e)
  }

  ghost predicate IsRun(c: Config, states: seq<State>, events: seq<Event>)
    requires c.Valid()
  {
    IsRunOf(INITIAL, Steps(c), states, events)
  }

  function Input(events: seq<Event>): seq<Row> {
    if events == [] then []
    else
      var last := events[|events| - 1];
      Input(events[..|events| - 1]) + (if last.Batch? then last.rows else [])
  }

  // ----- Invariant --------------------------------------------------------------------------------

  /** What a group has been fed when the groups in `done` of the current batch are in. */
  ghost function Known(c: Config, seen: seq<Row>, batch: seq<Row>, done: set<Group>, g: Group): seq<Row>
    requires c.Valid()
  {
    RowsIn(c, seen, g) + (if g in done then RowsIn(c, batch, g) else [])
  }

  ghost predicate WindowInv(c: Config, groups: Window, seen: seq<Row>, batch: seq<Row>, done: set<Group>, ws: int)
    requires c.Valid()
  {
    NoPartial(groups, k => Known(c, seen, batch, done, Group(ws, k)), c.cap)
  }

  /** An expired window is never open; any other window is complete, and exists exactly when it
      has rows. */
  ghost predicate OpenAt(c: Config, w: Windows, watermark: int, seen: seq<Row>, batch: seq<Row>, done: set<Group>,
                         ws: int)
    requires c.Valid()
  {
    if Expired(c, ws, watermark) then ws !in w
    else
      && WindowInv(c, WindowAt(w, ws), seen, batch, done, ws)
      && (ws in w <==> exists k :: Known(c, seen, batch, done, Group(ws, k)) != [])
  }

  ghost predicate OpenInv(c: Config, w: Windows, watermark: int, seen: seq<Row>, batch: seq<Row>, done: set<Group>)
    requires c.Valid()
  {
    forall ws :: OpenAt(c, w, watermark, seen, batch, done, ws)
  }

  /** Emitted windows: expired, in order, complete, and none missing. */
  ghost predicate LogInv(c: Config, log: seq<RowEmission>, watermark: int, seen: seq<Row>)
    requires c.Valid()
  {
    && (forall i, j | 0 <= i < j < |log| :: log[i].start < log[j].start)
    && (forall e | e in log ::
          && Expired(c, e.start, watermark) && e.end == SatAdd(e.start, c.assigner.size)
          && e.groups != map[] && WindowInv(c, e.groups, seen, [], {}, e.start))
    && (forall g: Group | Expired(c, g.ws, watermark) && RowsIn(c, seen, g) != [] && c.cap != Some(0) ::
          exists e :: e in log && e.start == g.ws)
  }

  ghost predicate Inv(c: Config, s: State, seen: seq<Row>)
    requires c.Valid()
  {
    OpenInv(c, s.windows, s.watermark, seen, [], {}) && LogInv(c, s.log, s.watermark, seen)
  }

  // ----- Batches ------------------------------------------------------------------------------------

  lemma AdmitWindow(c: Config, groups: Window, seen: seq<Row>, batch: seq<Row>, done: set<Group>, g: Group)
    requires c.Valid() && g !in done && RowsIn(c, batch, g) != []
    requires WindowInv(c, groups, seen, batch, done, g.ws)
    ensures WindowInv(c, Admit(groups, g.key, RowsIn(c, batch, g), c.cap), seen, batch, done + {g}, g.ws)
  {
    assert g == Group(g.ws, g.key);
    AdmitKeeps(groups,
               k => Known(c, seen, batch, done, Group(g.ws, k)),
               k => Known(c, seen, batch, done + {g}, Group(g.ws, k)),
               g.key, RowsIn(c, batch, g), c.cap);
  }

  lemma OtherWindow(c: Config, groups: Window, seen: seq<Row>, batch: seq<Row>, done: set<Group>, g: Group, ws: int)
    requires c.Valid() && ws != g.ws && WindowInv(c, groups, seen, batch, done, ws)
    ensures WindowInv(c, groups, seen, batch, done + {g}, ws)
  {
    NoPartialSame(groups,
                  k => Known(c, seen, batch, done, Group(ws, k)),
                  k => Known(c, seen, batch, done + {g}, Group(ws, k)), c.cap);
  }

  lemma AdmitInv(c: Config, w: Windows, watermark: int, seen: seq<Row>, batch: seq<Row>, done: set<Group>, g: Group)
    requires c.Valid() && g !in done && RowsIn(c, batch, g) != [] && !Expired(c, g.ws, watermark)
    requires OpenInv(c, w, watermark, seen, batch, done)
    ensures OpenInv(c, AdmitGroup(c, w, g, RowsIn(c, batch, g)), watermark, seen, batch, done + {g})
  {
    var after := AdmitGroup(c, w, g, RowsIn(c, batch, g));
    forall ws ensures OpenAt(c, after, watermark, seen, batch, done + {g}, ws) {
      assert OpenAt(c, w, watermark, seen, batch, done, ws);
      if ws == g.ws {
        AdmitHere(c, w, watermark, seen, batch, done, g);
      } else {
        AdmitElsewhere(c, w, watermark, seen, batch, done, g, ws);
      }
    }
  }

  lemma AdmitHere(c: Config, w: Windows, watermark: int, seen: seq<Row>, batch: seq<Row>, done: set<Group>, g: Group)
    requires c.Valid() && g !in done && RowsIn(c, batch, g) != [] && !Expired(c, g.ws, watermark)
    requires OpenAt(c, w, watermark, seen, batch, done, g.ws)
    ensures OpenAt(c, AdmitGroup(c, w, g, RowsIn(c, batch, g)), watermark, seen, batch, done + {g}, g.ws)
  {
    AdmitWindow(c, WindowAt(w, g.ws), seen, batch, done, g);
    assert g == Group(g.ws, g.key);
    assert Known(c, seen, batch, done + {g}, Group(g.ws, g.key)) != [];
  }

  lemma AdmitElsewhere(c: Config, w: Windows, watermark: int, seen: seq<Row>, batch: seq<Row>, done: set<Group>,
                       g: Group, ws: int)
    requires c.Valid() && ws != g.ws && OpenAt(c, w, watermark, seen, batch, done, ws)
    ensures OpenAt(c, AdmitGroup(c, w, g, RowsIn(c, batch, g)), watermark, seen, batch, done + {g}, ws)
  {
    if !Expired(c, ws, watermark) {
      OtherWindow(c, WindowAt(w, ws), seen, batch, done, g, ws);
      assert forall k :: Known(c, seen, batch, done + {g}, Group(ws, k)) == Known(c, seen, batch, done, Group(ws, k));
    }
  }

  lemma OnTimeOpen(c: Config, watermark: int, r: Row, ws: int)
    requires c.Valid() && HasTime(r) && OnTime(c, watermark, r) && r.ts < ws + c.assigner.size
    ensures !Expired(c, ws, watermark)
  {
  }

  /** On-time rows never fall into a window that has expired. */
  lemma OnTimeRowsOpen(c: Config, watermark: int, rows: seq<Row>, g: Group)
    requires c.Valid() && (forall r | r in rows :: OnTime(c, watermark, r)) && RowsIn(c, rows, g) != []
    ensures !Expired(c, g.ws, watermark)
  {
    var r := RowsInSome(c, rows, g);
    OnTimeOpen(c, watermark, r, g.ws);
  }

  ghost function Groups(order: seq<Group>): set<Group> {
    set g | g in order
  }

  lemma {:induction false} AdmitAllInv(c: Config, w: Windows, watermark: int, seen: seq<Row>, batch: seq<Row>,
                                       order: seq<Group>, n: nat)
    requires c.Valid() && OpenInv(c, w, watermark, seen, batch, {})
    requires IsOrder(c, order, batch) && n <= |order|
    requires forall r | r in batch :: OnTime(c, watermark, r)
    ensures OpenInv(c, AdmitAll(c, w, order[..n], batch), watermark, seen, batch, Groups(order[..n]))
  {
    if n == 0 {
      assert Groups(order[..0]) == {};
    } else {
      var g := order[n - 1];
      assert g in order;
      AdmitAllInv(c, w, watermark, seen, batch, order, n - 1);
      OnTimeRowsOpen(c, watermark, batch, g);
      assert order[..n][..n - 1] == order[..n - 1];
      AdmitInv(c, AdmitAll(c, w, order[..n - 1], batch), watermark, seen, batch, Groups(order[..n - 1]), g);
      assert Groups(order[..n - 1]) + {g} == Groups(order[..n]);
    }
  }

  lemma KnownAll(c: Config, seen: seq<Row>, batch: seq<Row>, order: seq<Group>, g: Group)
    requires c.Valid() && IsOrder(c, order, batch)
    ensures Known(c, seen, batch, Groups(order), g) == RowsIn(c, seen + batch, g)
    ensures Known(c, seen + batch, [], {}, g) == RowsIn(c, seen + batch, g)
  {
    RowsInConcat(c, seen, batch, g);
  }

  lemma BatchOpen(c: Config, w: Windows, watermark: int, seen: seq<Row>, batch: seq<Row>, order: seq<Group>)
    requires c.Valid() && IsOrder(c, order, batch)
    requires OpenInv(c, w, watermark, seen, batch, Groups(order))
    ensures OpenInv(c, w, watermark, seen + batch, [], {})
  {
    forall ws ensures OpenAt(c, w, watermark, seen + batch, [], {}, ws) {
      assert OpenAt(c, w, watermark, seen, batch, Groups(order), ws);
      forall k ensures Known(c, seen + batch, [], {}, Group(ws, k))
                    == Known(c, seen, batch, Groups(order), Group(ws, k))
      {
        KnownAll(c, seen, batch, order, Group(ws, k));
      }
      if !Expired(c, ws, watermark) {
        NoPartialSame(WindowAt(w, ws),
                      k => Known(c, seen, batch, Groups(order), Group(ws, k)),
                      k => Known(c, seen + batch, [], {}, Group(ws, k)), c.cap);
      }
    }
  }

  lemma BatchStart(c: Config, w: Windows, watermark: int, seen: seq<Row>, batch: seq<Row>)
    requires c.Valid() && OpenInv(c, w, watermark, seen, [], {})
    ensures OpenInv(c, w, watermark, seen, batch, {})
  {
    forall ws ensures OpenAt(c, w, watermark, seen, batch, {}, ws) {
      assert OpenAt(c, w, watermark, seen, [], {}, ws);
      if !Expired(c, ws, watermark) {
        NoPartialSame(WindowAt(w, ws),
                      k => Known(c, seen, [], {}, Group(ws, k)),
                      k => Known(c, seen, batch, {}, Group(ws, k)), c.cap);
        assert forall k :: Known(c, seen, batch, {}, Group(ws, k)) == Known(c, seen, [], {}, Group(ws, k));
      }
    }
  }

  lemma ExpiredUnchanged(c: Config, watermark: int, seen: seq<Row>, batch: seq<Row>, g: Group)
    requires c.Valid() && (forall r | r in batch :: OnTime(c, watermark, r)) && Expired(c, g.ws, watermark)
    ensures RowsIn(c, seen + batch, g) == RowsIn(c, seen, g)
  {
    RowsInConcat(c, seen, batch, g);
    if RowsIn(c, batch, g) != [] { OnTimeRowsOpen(c, watermark, batch, g); }
  }

  lemma BatchLog(c: Config, log: seq<RowEmission>, watermark: int, seen: seq<Row>, batch: seq<Row>)
    requires c.Valid() && LogInv(c, log, watermark, seen)
    requires forall r | r in batch :: OnTime(c, watermark, r)
    ensures LogInv(c, log, watermark, seen + batch)
  {
    forall e | e in log ensures WindowInv(c, e.groups, seen + batch, [], {}, e.start) {
      forall k ensures Known(c, seen + batch, [], {}, Group(e.start, k)) == Known(c, seen, [], {}, Group(e.start, k)) {
        ExpiredUnchanged(c, watermark, seen, batch, Group(e.start, k));
      }
      NoPartialSame(e.groups,
                    k => Known(c, seen, [], {}, Group(e.start, k)),
                    k => Known(c, seen + batch, [], {}, Group(e.start, k)), c.cap);
    }
    forall g: Group | Expired(c, g.ws, watermark) && RowsIn(c, seen + batch, g) != [] && c.cap != Some(0)
      ensures exists e :: e in log && e.start == g.ws
    {
      ExpiredUnchanged(c, watermark, seen, batch, g);
    }
  }

  lemma BatchInv(c: Config, s: State, seen: seq<Row>, rows: seq<Row>, t: State)
    requires c.Valid() && Inv(c, s, seen) && Next(c, s, Batch(rows), t) && EventOnTime(c, s.watermark, Batch(rows))
    ensures Inv(c, t, seen + rows)
  {
    var order :| IsOrder(c, order, rows) && t == s.(windows := AdmitAll(c, s.windows, order, rows));
    BatchStart(c, s.windows, s.watermark, seen, rows);
    AdmitAllInv(c, s.windows, s.watermark, seen, rows, order, |order|);
    assert order[..|order|] == order;
    BatchOpen(c, t.windows, s.watermark, seen, rows, order);
    BatchLog(c, s.log, s.watermark, seen, rows);
  }

  // ----- Closes ---------------------------------------------------------------------------------

  lemma CloseOpen(c: Config, s: State, seen: seq<Row>, at: int, t: State)
    requires c.Valid() && Inv(c, s, seen) && Next(c, s, Close(at), t)
    ensures OpenInv(c, t.windows, t.watermark, seen, [], {})
  {
    forall ws ensures OpenAt(c, t.windows, t.watermark, seen, [], {}, ws) {
      assert OpenAt(c, s.windows, s.watermark, seen, [], {}, ws);
    }
  }

  /** A close emits windows later than everything emitted before. */
  lemma CloseOrder(c: Config, s: State, seen: seq<Row>, at: int, t: State)
    requires c.Valid() && Inv(c, s, seen) && Next(c, s, Close(at), t)
    ensures forall i, j | 0 <= i < j < |t.log| :: t.log[i].start < t.log[j].start
  {
    var out := t.log[|s.log|..];
    assert t.log == s.log + out;
    forall i, j | 0 <= i < |s.log| && 0 <= j < |out| ensures s.log[i].start < out[j].start {
      assert s.log[i] in s.log && out[j] in out;
      EmittedLater(c, s, seen, at, out, s.log[i], out[j]);
    }
    StartsConcat(s.log, out);
  }

  lemma StartsConcat(log: seq<RowEmission>, out: seq<RowEmission>)
    requires forall i, j | 0 <= i < j < |log| :: log[i].start < log[j].start
    requires forall i, j | 0 <= i < j < |out| :: out[i].start < out[j].start
    requires forall i, j | 0 <= i < |log| && 0 <= j < |out| :: log[i].start < out[j].start
    ensures forall i, j | 0 <= i < j < |log + out| :: (log + out)[i].start < (log + out)[j].start
  {
  }

  lemma EmittedLater(c: Config, s: State, seen: seq<Row>, at: int, out: seq<RowEmission>, d: RowEmission, e: RowEmission)
    requires c.Valid() && Inv(c, s, seen) && IsOutput(c, s.windows, at, out) && d in s.log && e in out
    ensures d.start < e.start
  {
    assert OpenAt(c, s.windows, s.watermark, seen, [], {}, e.start);
  }

  lemma CloseLog(c: Config, s: State, seen: seq<Row>, at: int, t: State)
    requires c.Valid() && Inv(c, s, seen) && Next(c, s, Close(at), t)
    ensures LogInv(c, t.log, t.watermark, seen)
  {
    var out := t.log[|s.log|..];
    assert t.log == s.log + out;
    CloseOrder(c, s, seen, at, t);
    forall e | e in t.log
      ensures Expired(c, e.start, t.watermark) && e.end == SatAdd(e.start, c.assigner.size)
      ensures e.groups != map[] && WindowInv(c, e.groups, seen, [], {}, e.start)
    {
      if e in out {
        assert OpenAt(c, s.windows, s.watermark, seen, [], {}, e.start);
      } else {
        assert e in s.log;
      }
    }
    forall g: Group | Expired(c, g.ws, t.watermark) && RowsIn(c, seen, g) != [] && c.cap != Some(0)
      ensures exists e :: e in t.log && e.start == g.ws
    {
      CloseCovers(c, s, seen, at, t, g);
    }
  }

  lemma EmptyMeansNoRoom(c: Config, seen: seq<Row>, g: Group)
    requires c.Valid() && WindowInv(c, map[], seen, [], {}, g.ws) && RowsIn(c, seen, g) != []
    ensures c.cap == Some(0)
  {
    var none: Window := map[];
    assert g == Group(g.ws, g.key) && Known(c, seen, [], {}, g) != [];
    assert g.key !in none && |none| == 0;
  }

  lemma CloseCovers(c: Config, s: State, seen: seq<Row>, at: int, t: State, g: Group)
    requires c.Valid() && Inv(c, s, seen) && Next(c, s, Close(at), t)
    requires Expired(c, g.ws, t.watermark) && RowsIn(c, seen, g) != [] && c.cap != Some(0)
    ensures exists e :: e in t.log && e.start == g.ws
  {
    var out := t.log[|s.log|..];
    assert t.log == s.log + out;
    assert OpenAt(c, s.windows, s.watermark, seen, [], {}, g.ws);
    if Expired(c, g.ws, s.watermark) {
      var e :| e in s.log && e.start == g.ws;
      assert e in t.log;
    } else {
      assert g == Group(g.ws, g.key) && Known(c, seen, [], {}, g) != [];
      var groups := s.windows[g.ws];
      if groups == map[] {
        EmptyMeansNoRoom(c, seen, g);
      }
      assert Emission(g.ws, SatAdd(g.ws, c.assigner.size), groups) in out;
    }
  }

  // ----- Whole runs -------------------------------------------------------------------------------

  lemma StepInv(c: Config, s: State, seen: seq<Row>, e: Event, t: State)
    requires c.Valid() && Inv(c, s, seen) && Next(c, s, e, t) && EventOnTime(c, s.watermark, e)
    ensures Inv(c, t, seen + if e.Batch? then e.rows else [])
  {
    match e
    case Batch(rows) =>
      BatchInv(c, s, seen, rows, t);
    case Close(at) =>
      CloseOpen(c, s, seen, at, t);
      CloseLog(c, s, seen, at, t);
      assert seen + [] == seen;
  }

  lemma {:induction false} RunInv(c: Config, states: seq<State>, events: seq<Event>)
    requires c.Valid() && IsRun(c, states, events)
    ensures Inv(c, states[|events|], Input(events))
    decreases |events|
  {
    if events == [] {
      forall ws ensures OpenAt(c, map[], MIN, [], [], {}, ws) {
      }
    } else {
      var n := |events| - 1;
      PrefixRun(INITIAL, Steps(c), states, events);
      RunInv(c, states[..n + 1], events[..n]);
      StepInv(c, states[n], Input(events[..n]), events[n], states[n + 1]);
    }
  }

  /** Over every run with on-time rows: emitted starts strictly increase, no emitted window is
      open again, and every group that is open or was emitted has all of its rows, whatever
      order the hash maps were visited in and however many groups the cap turned away. */
  lemma RunComplete(c: Config, states: seq<State>, events: seq<Event>)
    requires c.Valid() && IsRun(c, states, events)
    ensures var s := states[|events|];
            && (forall i, j | 0 <= i < j < |s.log| :: s.log[i].start < s.log[j].start)
            && (forall e, ws | e in s.log && ws in s.windows :: e.start < ws)
            && (forall e, k | e in s.log && k in e.groups ::
                  e.groups[k] == RowsIn(c, Input(events), Group(e.start, k)) && e.end == SatAdd(e.start, c.assigner.size))
            && (forall ws, k | ws in s.windows && k in s.windows[ws] ::
                  s.windows[ws][k] == RowsIn(c, Input(events), Group(ws, k)))
            && (c.cap.Some? ==>
                  && (forall ws | ws in s.windows :: |s.windows[ws]| <= c.cap.value)
                  && (forall e | e in s.log :: |e.groups| <= c.cap.value))
  {
    RunInv(c, states, events);
    var s, seen := states[|events|], Input(events);
    forall ws | ws in s.windows
      ensures !Expired(c, ws, s.watermark) && WindowInv(c, s.windows[ws], seen, [], {}, ws)
    {
      assert OpenAt(c, s.windows, s.watermark, seen, [], {}, ws);
    }
    forall e | e in s.log
      ensures forall k | k in e.groups :: e.groups[k] == Known(c, seen, [], {}, Group(e.start, k))
    {
    }
  }

  /** What the run holds for a window and group, open or emitted. */
  ghost predicate Holds<A(!new)>(s: Operator<A>, g: Group, held: A) {
    || (g.ws in s.windows && g.key in s.windows[g.ws] && s.windows[g.ws][g.key] == held)
    || (exists e :: e in s.log && e.start == g.ws && g.key in e.groups && e.groups[g.key] == held)
  }

  ghost function KeysIn(c: Config, rows: seq<Row>, ws: int): set<Key>
    requires c.Valid()
  {
    set r | r in rows && HasTime(r) && Assigned(c.assigner, ws, r.ts) :: r.key
  }

  /** The window sees no more distinct groups than the cap admits. */
  ghost predicate BelowCapAt(c: Config, rows: seq<Row>, ws: int)
    requires c.Valid()
  {
    c.cap.Some? ==> |KeysIn(c, rows, ws)| <= c.cap.value
  }

  ghost predicate BelowCap(c: Config, rows: seq<Row>)
    requires c.Valid()
  {
    forall ws :: BelowCapAt(c, rows, ws)
  }

  lemma KeysHaveRows(c: Config, seen: seq<Row>, ws: int)
    requires c.Valid()
    ensures forall k :: k in KeysIn(c, seen, ws) <==> RowsIn(c, seen, Group(ws, k)) != []
  {
    forall k ensures k in KeysIn(c, seen, ws) <==> RowsIn(c, seen, Group(ws, k)) != [] {
      if RowsIn(c, seen, Group(ws, k)) != [] {
        var r := RowsInSome(c, seen, Group(ws, k));
      }
      if k in KeysIn(c, seen, ws) {
        var r :| r in seen && HasTime(r) && Assigned(c.assigner, ws, r.ts) && r.key == k;
        RowsInMember(c, seen, Group(ws, k), r);
      }
    }
  }

  /** A window's table is the group-by of its rows exactly when its distinct keys fit the cap. */
  lemma WindowExact(c: Config, groups: Window, seen: seq<Row>, ws: int)
    requires c.Valid() && WindowInv(c, groups, seen, [], {}, ws)
    ensures (forall k :: k in groups <==> RowsIn(c, seen, Group(ws, k)) != []) <==> BelowCapAt(c, seen, ws)
    ensures forall k | k in groups :: groups[k] == RowsIn(c, seen, Group(ws, k))
  {
    KeysHaveRows(c, seen, ws);
    forall k ensures Known(c, seen, [], {}, Group(ws, k)) == RowsIn(c, seen, Group(ws, k)) {
    }
    if BelowCapAt(c, seen, ws) {
      NothingDropped(groups, k => Known(c, seen, [], {}, Group(ws, k)), c.cap, KeysIn(c, seen, ws));
    }
    if forall k :: k in groups <==> RowsIn(c, seen, Group(ws, k)) != [] {
      assert groups.Keys == KeysIn(c, seen, ws);
    }
  }

  /** The run holds, open or emitted, exactly the groups of the window that have rows. */
  ghost predicate HoldsAll(c: Config, s: State, seen: seq<Row>, ws: int)
    requires c.Valid()
  {
    forall k, rows :: Holds(s, Group(ws, k), rows) <==> rows == RowsIn(c, seen, Group(ws, k)) && rows != []
  }

  lemma HeldOpen(c: Config, s: State, seen: seq<Row>, ws: int)
    requires c.Valid() && Inv(c, s, seen) && !Expired(c, ws, s.watermark)
    ensures HoldsAll(c, s, seen, ws) <==> BelowCapAt(c, seen, ws)
  {
    assert OpenAt(c, s.windows, s.watermark, seen, [], {}, ws);
    forall e | e in s.log ensures e.start != ws {
    }
    var groups := WindowAt(s.windows, ws);
    WindowExact(c, groups, seen, ws);
    HeldTable(c, s, seen, ws, groups);
  }

  lemma HeldTable(c: Config, s: State, seen: seq<Row>, ws: int, groups: Window)
    requires c.Valid() && WindowInv(c, groups, seen, [], {}, ws)
    requires forall k, rows :: Holds(s, Group(ws, k), rows) <==> k in groups && groups[k] == rows
    ensures HoldsAll(c, s, seen, ws) <==> BelowCapAt(c, seen, ws)
  {
    WindowExact(c, groups, seen, ws);
    if HoldsAll(c, s, seen, ws) {
      forall k ensures k in groups <==> RowsIn(c, seen, Group(ws, k)) != [] {
        assert Holds(s, Group(ws, k), RowsIn(c, seen, Group(ws, k))) <==> RowsIn(c, seen, Group(ws, k)) != [];
      }
    }
  }

  lemma HeldEmitted(c: Config, s: State, seen: seq<Row>, ws: int)
    requires c.Valid() && Inv(c, s, seen) && Expired(c, ws, s.watermark)
    ensures HoldsAll(c, s, seen, ws) <==> BelowCapAt(c, seen, ws)
  {
    assert OpenAt(c, s.windows, s.watermark, seen, [], {}, ws);
    if e :| e in s.log && e.start == ws {
      forall f | f in s.log && f.start == ws ensures f == e {
      }
      HeldTable(c, s, seen, ws, e.groups);
    } else {
      NoneEmitted(c, s, seen, ws);
      HeldTable(c, s, seen, ws, map[]);
    }
  }

  /** A window that is over without output had no rows, or room for none. */
  lemma NoneEmitted(c: Config, s: State, seen: seq<Row>, ws: int)
    requires c.Valid() && Inv(c, s, seen) && Expired(c, ws, s.watermark)
    requires forall e | e in s.log :: e.start != ws
    ensures WindowInv(c, map[], seen, [], {}, ws)
  {
    forall k | Known(c, seen, [], {}, Group(ws, k)) != [] ensures c.cap == Some(0) {
      assert RowsIn(c, seen, Group(ws, k)) != [];
    }
  }

  // ----- Half-open intervals --------------------------------------------------------------------------

  /** The rows of one group whose time is in the aligned interval `[ws, ws + size)`, in order. */
  function RowsWithin(c: Config, rows: seq<Row>, g: Group): seq<Row>
    requires c.Valid()
  {
    if rows == [] then []
    else
      var r := rows[|rows| - 1];
      var counts := HasTime(r) && r.key == g.key && InWindow(c.assigner, g.ws, r.ts);
      RowsWithin(c, rows[..|rows| - 1], g) + (if counts then [r] else [])
  }

  ghost function KeysWithin(c: Config, rows: seq<Row>, ws: int): set<Key>
    requires c.Valid()
  {
    set r | r in rows && HasTime(r) && InWindow(c.assigner, ws, r.ts) :: r.key
  }

  /** The assigner gives every timestamp exactly the windows that contain it. */
  ghost predicate AllExact(c: Config, rows: seq<Row>)
    requires c.Valid()
  {
    forall r | r in rows && HasTime(r) :: c.assigner.Exact(r.ts)
  }

  lemma {:induction false} WithinExact(c: Config, rows: seq<Row>, g: Group)
    requires c.Valid() && AllExact(c, rows) && MIN <= g.ws
    ensures RowsWithin(c, rows, g) == RowsIn(c, rows, g)
  {
    if rows == [] {
    } else {
      var r := rows[|rows| - 1];
      WithinExact(c, rows[..|rows| - 1], g);
      if HasTime(r) {
        AssignedExact(c.assigner, r.ts);
      }
    }
  }

  lemma KeysExact(c: Config, rows: seq<Row>, ws: int)
    requires c.Valid() && AllExact(c, rows) && MIN <= ws
    ensures KeysWithin(c, rows, ws) == KeysIn(c, rows, ws)
  {
    forall r | r in rows && HasTime(r)
      ensures InWindow(c.assigner, ws, r.ts) <==> Assigned(c.assigner, ws, r.ts)
    {
      AssignedExact(c.assigner, r.ts);
    }
  }

  /** The run holds, open or emitted, exactly the groups with rows in the interval, each with
      exactly those rows. */
  ghost predicate HoldsInterval(c: Config, s: State, seen: seq<Row>, ws: int)
    requires c.Valid()
  {
    forall k, rows :: Holds(s, Group(ws, k), rows) <==> rows == RowsWithin(c, seen, Group(ws, k)) && rows != []
  }

  /** Emitted plus open state is the group-by of all rows of a window, every group with rows held
      with exactly those rows, if and only if the distinct keys of the window fit the cap. The
      window is the half-open interval where the assigner is exact, and otherwise what the
      assigner gives. */
  lemma RunGroupBy(c: Config, states: seq<State>, events: seq<Event>, ws: int)
    requires c.Valid() && IsRun(c, states, events)
    ensures HoldsAll(c, states[|events|], Input(events), ws) <==> BelowCapAt(c, Input(events), ws)
    ensures AllExact(c, Input(events)) && MIN <= ws ==>
              (HoldsInterval(c, states[|events|], Input(events), ws) <==>
               (c.cap.Some? ==> |KeysWithin(c, Input(events), ws)| <= c.cap.value))
  {
    RunInv(c, states, events);
    if Expired(c, ws, states[|events|].watermark) {
      HeldEmitted(c, states[|events|], Input(events), ws);
    } else {
      HeldOpen(c, states[|events|], Input(events), ws);
    }
    if AllExact(c, Input(events)) && MIN <= ws {
      IntervalExact(c, states[|events|], Input(events), ws);
    }
  }

  lemma IntervalExact(c: Config, s: State, seen: seq<Row>, ws: int)
    requires c.Valid() && AllExact(c, seen) && MIN <= ws
    ensures HoldsInterval(c, s, seen, ws) <==> HoldsAll(c, s, seen, ws)
    ensures KeysWithin(c, seen, ws) == KeysIn(c, seen, ws)
  {
    KeysExact(c, seen, ws);
    forall k ensures RowsWithin(c, seen, Group(ws, k)) == RowsIn(c, seen, Group(ws, k)) {
      WithinExact(c, seen, Group(ws, k));
    }
  }

  ghost predicate OnlyBatches(events: seq<Event>) {
    forall i | 0 <= i < |events| :: events[i].Batch?
  }

  lemma {:induction false} NoCloseNoLog(c: Config, states: seq<State>, events: seq<Event>)
    requires c.Valid() && IsRun(c, states, events) && OnlyBatches(events)
    ensures states[|events|].log == [] && states[|events|].watermark == MIN
    decreases |events|
  {
    if events == [] {
    } else {
      var n := |events| - 1;
      PrefixRun(INITIAL, Steps(c), states, events);
      NoCloseNoLog(c, states[..n + 1], events[..n]);
      assert events[n].Batch?;
    }
  }

  /** Below the cap, how the row stream is cut into batches, one row at a time included, and
      the order hash maps are visited in make no difference. */
  lemma BatchingIrrelevant(c: Config, states: seq<State>, events: seq<Event>, states': seq<State>, events': seq<Event>)
    requires c.Valid() && IsRun(c, states, events) && IsRun(c, states', events')
    requires OnlyBatches(events) && OnlyBatches(events')
    requires Input(events) == Input(events') && BelowCap(c, Input(events))
    ensures states[|events|] == states'[|events'|]
  {
    var s, t, seen := states[|events|], states'[|events'|], Input(events);
    RunInv(c, states, events);
    RunInv(c, states', events');
    NoCloseNoLog(c, states, events);
    NoCloseNoLog(c, states', events');
    forall ws
      ensures (ws in s.windows <==> ws in t.windows) && (ws in s.windows && ws in t.windows ==> s.windows[ws] == t.windows[ws])
    {
      SameWindow(c, s.windows, t.windows, seen, ws);
    }
    SameIntMap(s.windows, t.windows);
  }

  lemma SameWindow(c: Config, w: Windows, w': Windows, seen: seq<Row>, ws: int)
    requires c.Valid() && BelowCap(c, seen)
    requires OpenInv(c, w, MIN, seen, [], {}) && OpenInv(c, w', MIN, seen, [], {})
    ensures (ws in w <==> ws in w') && (ws in w && ws in w' ==> w[ws] == w'[ws])
  {
    assert OpenAt(c, w, MIN, seen, [], {}, ws) && OpenAt(c, w', MIN, seen, [], {}, ws);
    if ws in w && ws in w' {
      WindowExact(c, w[ws], seen, ws);
      WindowExact(c, w'[ws], seen, ws);
    }
  }
}
