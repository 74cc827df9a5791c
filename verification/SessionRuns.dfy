/** Whole runs of the session operator: batches and watermark closes in any interleaving. */
module SessionRuns {
  import opened Runs
  import opened Int64
  import opened Collections
  import opened Rows
  import opened SessionComponents
  import opened SessionWindows

  datatype Config = Config(gap: int, lateness: int)

  type Groups = map<Key, SessionMap>

  /** A closed session as it leaves the operator. */
  datatype Emission<+A> = Emission(key: Key, session: Span<A>)

  type RowEmission = Emission<multiset<Row>>

  function SessionsAt<A>(g: map<Key, Spans<A>>, key: Key): Spans<A> {
    if key in g then g[key] else map[]
  }

  /** Rows without a timestamp are skipped; any other row goes to its group's sessions. */
  ghost function UpdateRow(g: Groups, row: Row, gap: int): Groups {
    if row.ts == NULL_TIMESTAMP then g
    else g[row.key := Absorb(SessionsAt(g, row.key), row, gap)]
  }

  ghost function UpdateRows(g: Groups, rows: seq<Row>, gap: int): Groups {
    if rows == [] then g
    else UpdateRow(UpdateRows(g, rows[..|rows| - 1], gap), rows[|rows| - 1], gap)
  }

  predicate Closable<A>(s: Span<A>, lateness: int, watermark: int) {
    SatAdd(s.end, lateness) <= watermark
  }

  function KeepOpen<A>(m: Spans<A>, lateness: int, watermark: int): Spans<A> {
    map k | k in m && !Closable(m[k], lateness, watermark) :: m[k]
  }

  /** State after a close: expired sessions and then empty groups are gone. */
  ghost function CloseGroups<A>(g: map<Key, Spans<A>>, lateness: int, watermark: int): map<Key, Spans<A>> {
    map key | key in g && KeepOpen(g[key], lateness, watermark) != map[] ::
      KeepOpen(g[key], lateness, watermark)
  }

  lemma OpenAfterClose<A>(g: map<Key, Spans<A>>, lateness: int, watermark: int, key: Key, k: int)
    ensures var after := CloseGroups(g, lateness, watermark);
            key in after && k in after[key] <==>
            key in g && k in g[key] && watermark < SatAdd(g[key][k].end, lateness)
  {
    if key in g && k in KeepOpen(g[key], lateness, watermark) {
      assert KeepOpen(g[key], lateness, watermark) != map[];
    }
  }

  ghost predicate Expires<A>(e: Emission<A>, g: map<Key, Spans<A>>, lateness: int, watermark: int) {
    e.session in SessionsAt(g, e.key).Values && Closable(e.session, lateness, watermark)
  }

  predicate Earlier<A>(a: Emission<A>, b: Emission<A>) {
    a.session.start < b.session.start
    || (a.session.start == b.session.start && a.session.end <= b.session.end)
  }

  /** Output of a close: every expired session once, ordered by start and then end. */
  ghost predicate IsOutput<A(!new)>(out: seq<Emission<A>>, g: map<Key, Spans<A>>, lateness: int, watermark: int) {
    && (forall e :: e in out <==> Expires(e, g, lateness, watermark))
    && (forall i, j | 0 <= i < j < |out| :: out[i] != out[j] && Earlier(out[i], out[j]))
  }

  // ----- Runs -----------------------------------------------------------------------------

  datatype Event = Batch(rows: seq<Row>) | Close(at: int)

  /** `log` is everything emitted so far, `watermark` the highest watermark closed at. */
  datatype Operator<+A> = Operator(groups: map<Key, Spans<A>>, log: seq<Emission<A>>, watermark: int)

  type State = Operator<multiset<Row>>

  const INITIAL: State := Operator(map[], [], MIN)

  /** Expired sessions move from the state to the output. */
  ghost predicate CloseNext<A(!new)>(c: Config, s: Operator<A>, at: int, t: Operator<A>) {
    && t.groups == CloseGroups(s.groups, c.lateness, at)
    && t.watermark == Max(s.watermark, at)
    && |t.log| >= |s.log| && t.log[..|s.log|] == s.log
    && IsOutput(t.log[|s.log|..], s.groups, c.lateness, at)
  }

  /** A close with this state and this output is a step, whatever was emitted before. */
  lemma CloseIsNext<A(!new)>(c: Config, s: Operator<A>, at: int, out: seq<Emission<A>>)
    requires IsOutput(out, s.groups, c.lateness, at)
    ensures CloseNext(c, s, at, Operator(CloseGroups(s.groups, c.lateness, at), s.log + out, Max(s.watermark, at)))
  {
    assert (s.log + out)[..|s.log|] == s.log && (s.log + out)[|s.log|..] == out;
  }

  ghost predicate Next(c: Config, s: State, e: Event, t: State) {
    match e
    case Batch(rows) =>
      t == s.(groups := UpdateRows(s.groups, rows, c.gap))
    case Close(at) => CloseNext(c, s, at, t)
  }

  ghost predicate OnTime(c: Config, watermark: int, row: Row) {
    row.ts != NULL_TIMESTAMP ==> HasTime(row) && SatAdd(row.ts, c.lateness) > watermark
  }

  ghost predicate EventOnTime(c: Config, watermark: int, e: Event) {
    e.Batch? ==> forall row | row in e.rows :: OnTime(c, watermark, row)
  }

  /** A step with on-time rows. */
  ghost function Steps(c: Config): (State, Event, State) -> bool {
    (s, e, t) => Next(c, s, e, t) && EventOnTime(c, s.watermark, e)
  }

  ghost predicate IsRun(c: Config, states: seq<State>, events: seq<Event>) {
    IsRunOf(INITIAL, Steps(c), states, events)
  }

  function Input(events: seq<Event>): seq<Row> {
    if events == [] then []
    else
      var last := events[|events| - 1];
      Input(events[..|events| - 1]) + (if last.Batch? then last.rows else [])
  }

  /** The timestamped rows of one group, with multiplicity. */
  ghost function KeyRows(rows: seq<Row>, key: Key): multiset<Row> {
    if rows == [] then multiset{}
    else
      var r := rows[|rows| - 1];
      KeyRows(rows[..|rows| - 1], key) + (if r.key == key && HasTime(r) then multiset{r} else multiset{})
  }

  ghost function Emitted(log: seq<RowEmission>, key: Key): set<Session> {
    set e | e in log && e.key == key :: e.session
  }

  // ----- Invariant --------------------------------------------------------------------------

  ghost predicate GroupInv(c: Config, s: State, seen: seq<Row>, key: Key) {
    var m := SessionsAt(s.groups, key);
    && WellKeyed(m)
    && Good(m.Values + Emitted(s.log, key), KeyRows(seen, key), c.gap)
    && m.Values !! Emitted(s.log, key)
    && (forall x | x in Emitted(s.log, key) :: Closable(x, c.lateness, s.watermark))
  }

  ghost predicate Inv(c: Config, s: State, seen: seq<Row>) {
    && (forall key :: GroupInv(c, s, seen, key))
    && (forall i, j | 0 <= i < j < |s.log| :: s.log[i] != s.log[j])
  }

  lemma OnTimeUntouched(c: Config, s: State, seen: seq<Row>, row: Row)
    requires GroupInv(c, s, seen, row.key) && HasTime(row) && OnTime(c, s.watermark, row)
    ensures Untouched(Emitted(s.log, row.key), row.ts, c.gap)
  {
  }

  lemma RowInv(c: Config, s: State, seen: seq<Row>, row: Row)
    requires Inv(c, s, seen) && OnTime(c, s.watermark, row)
    ensures Inv(c, s.(groups := UpdateRow(s.groups, row, c.gap)), seen + [row])
  {
    var t := s.(groups := UpdateRow(s.groups, row, c.gap));
    assert (seen + [row])[..|seen|] == seen;
    forall key ensures GroupInv(c, t, seen + [row], key) {
      assert GroupInv(c, s, seen, key);
      if HasTime(row) && row.key == key {
        RowGroupInv(c, s, seen, row);
      } else {
        assert KeyRows(seen + [row], key) == KeyRows(seen, key);
      }
    }
  }

  lemma RowGroupInv(c: Config, s: State, seen: seq<Row>, row: Row)
    requires GroupInv(c, s, seen, row.key) && HasTime(row) && OnTime(c, s.watermark, row)
    ensures GroupInv(c, s.(groups := UpdateRow(s.groups, row, c.gap)), seen + [row], row.key)
  {
    var m := SessionsAt(s.groups, row.key);
    var closed := Emitted(s.log, row.key);
    assert (seen + [row])[..|seen|] == seen;
    OnTimeUntouched(c, s, seen, row);
    AbsorbGood(m, closed, KeyRows(seen, row.key), row, c.gap);
    AbsorbDisjoint(m, closed, row, c.gap);
  }

  lemma AbsorbDisjoint(m: SessionMap, closed: set<Session>, row: Row, gap: int)
    requires m.Values !! closed && Merged(m, row, gap) !in closed
    ensures Absorb(m, row, gap).Values !! closed
  {
    var after := Absorb(m, row, gap);
    forall x | x in after.Values ensures x !in closed {
      var k := KeyOf(after, x);
      if x != Merged(m, row, gap) { assert m[k] == x; }
    }
  }

  lemma {:induction false} RowsInv(c: Config, s: State, seen: seq<Row>, rows: seq<Row>)
    requires Inv(c, s, seen) && forall row | row in rows :: OnTime(c, s.watermark, row)
    ensures Inv(c, s.(groups := UpdateRows(s.groups, rows, c.gap)), seen + rows)
  {
    if rows == [] {
      assert seen + rows == seen;
    } else {
      var init, last := rows[..|rows| - 1], rows[|rows| - 1];
      RowsInv(c, s, seen, init);
      RowInv(c, s.(groups := UpdateRows(s.groups, init, c.gap)), seen + init, last);
      assert seen + init + [last] == seen + rows;
    }
  }

  /** A close moves sessions from the open side to the emitted side and changes none. */
  lemma CloseGroupInv(c: Config, s: State, seen: seq<Row>, at: int, t: State, key: Key)
    requires GroupInv(c, s, seen, key) && Next(c, s, Close(at), t)
    ensures GroupInv(c, t, seen, key)
  {
    var m, n := SessionsAt(s.groups, key), SessionsAt(t.groups, key);
    var out := t.log[|s.log|..];
    assert t.log == s.log + out;
    SameIntMap(n, KeepOpen(m, c.lateness, at));
    forall x | x in m.Values
      ensures if Closable(x, c.lateness, at) then x in Emitted(out, key) else x in n.Values
    {
      var k := KeyOf(m, x);
      if Closable(x, c.lateness, at) {
        assert Expires(Emission(key, x), s.groups, c.lateness, at);
        assert Emission(key, x) in out;
      } else {
        assert n[k] == x;
      }
    }
    forall x | x in n.Values ensures x in m.Values && !Closable(x, c.lateness, at) {
      var k := KeyOf(n, x);
      assert m[k] == x;
    }
    forall x | x in Emitted(out, key)
      ensures x in m.Values && Closable(x, c.lateness, at)
    {
      assert Emission(key, x) in out;
      assert Expires(Emission(key, x), s.groups, c.lateness, at);
    }
    assert Emitted(t.log, key) == Emitted(s.log, key) + Emitted(out, key);
    assert n.Values + Emitted(t.log, key) == m.Values + Emitted(s.log, key);
  }

  lemma CloseInv(c: Config, s: State, seen: seq<Row>, at: int, t: State)
    requires Inv(c, s, seen) && Next(c, s, Close(at), t)
    ensures Inv(c, t, seen)
  {
    forall key ensures GroupInv(c, t, seen, key) {
      assert GroupInv(c, s, seen, key);
      CloseGroupInv(c, s, seen, at, t, key);
    }
    var out := t.log[|s.log|..];
    assert t.log == s.log + out;
    forall i, j | 0 <= i < |s.log| && 0 <= j < |out| ensures s.log[i] != out[j] {
      assert out[j] in out;
      assert Expires(out[j], s.groups, c.lateness, at);
      assert GroupInv(c, s, seen, out[j].key);
      assert s.log[i] in s.log;
    }
  }

  lemma {:induction false} RunInv(c: Config, states: seq<State>, events: seq<Event>)
    requires c.gap > 0 && IsRun(c, states, events)
    ensures Inv(c, states[|events|], Input(events))
    decreases |events|
  {
    if events == [] {
      forall key ensures GroupInv(c, INITIAL, [], key) {
      }
    } else {
      var n := |events| - 1;
      PrefixRun(INITIAL, Steps(c), states, events);
      RunInv(c, states[..n + 1], events[..n]);
      StepInv(c, states[n], Input(events[..n]), events[n], states[n + 1]);
    }
  }

  lemma StepInv(c: Config, s: State, seen: seq<Row>, e: Event, t: State)
    requires Inv(c, s, seen) && Next(c, s, e, t) && EventOnTime(c, s.watermark, e)
    ensures Inv(c, t, seen + if e.Batch? then e.rows else [])
  {
    match e
    case Batch(rows) =>
      RowsInv(c, s, seen, rows);
    case Close(at) =>
      CloseInv(c, s, seen, at, t);
      assert seen + [] == seen;
  }

  /** Over every run with on-time rows, what was emitted plus what is open is exactly the
      sessions of the whole input, group by group, and nothing is emitted twice. */
  lemma RunSessions(c: Config, states: seq<State>, events: seq<Event>, key: Key)
    requires c.gap > 0 && IsRun(c, states, events)
    ensures var s := states[|events|];
            var open := SessionsAt(s.groups, key).Values;
            && AreSessions(open + Emitted(s.log, key), KeyRows(Input(events), key), c.gap)
            && open !! Emitted(s.log, key)
            && (forall i, j | 0 <= i < j < |s.log| :: s.log[i] != s.log[j])
  {
    RunInv(c, states, events);
    var s := states[|events|];
    assert GroupInv(c, s, Input(events), key);
    GoodAreSessions(SessionsAt(s.groups, key).Values + Emitted(s.log, key), KeyRows(Input(events), key), c.gap);
  }

  // ----- When a session leaves ----------------------------------------------------------------

  /** A row that is on time at the watermark can still join the session. */
  ghost predicate MayGrow<A>(c: Config, watermark: int, s: Span<A>) {
    exists row: Row :: HasTime(row) && OnTime(c, watermark, row) && Touches(s, row.ts, c.gap)
  }

  /** A session is due exactly when no on-time row can join it any more. */
  lemma ClosableExact<A>(c: Config, s: Span<A>, watermark: int)
    requires s.start <= s.end && NULL_TIMESTAMP < s.end <= MAX && c.gap > 0
    ensures Closable(s, c.lateness, watermark) <==> !MayGrow(c, watermark, s)
  {
    var last := Row([], s.end, []);
    assert HasTime(last) && Touches(s, last.ts, c.gap);
  }

  /** What a close does to one session of a group. */
  ghost predicate ClosesRight(c: Config, s: State, at: int, t: State, out: seq<RowEmission>, key: Key, x: Session) {
    && (x in SessionsAt(t.groups, key).Values <==> x in SessionsAt(s.groups, key).Values && MayGrow(c, at, x))
    && (Emission(key, x) in out <==> x in SessionsAt(s.groups, key).Values && !MayGrow(c, at, x))
  }

  /** In every run, a close emits exactly the open sessions that no row on time at its watermark
      can join any more, and keeps exactly the others open; the output is ordered by start and
      then by end. */
  lemma RunCloses(c: Config, states: seq<State>, events: seq<Event>, at: int, t: State)
    requires c.gap > 0 && IsRun(c, states, events) && CloseNext(c, states[|events|], at, t)
    ensures var s := states[|events|];
            var out := t.log[|s.log|..];
            && t.log == s.log + out
            && (forall key, x: Session :: ClosesRight(c, s, at, t, out, key, x))
            && (forall i, j | 0 <= i < j < |out| ::
                  || out[i].session.start < out[j].session.start
                  || (out[i].session.start == out[j].session.start && out[i].session.end <= out[j].session.end))
  {
    RunInv(c, states, events);
    var s := states[|events|];
    var out := t.log[|s.log|..];
    assert t.log == s.log + out;
    forall key, x: Session ensures ClosesRight(c, s, at, t, out, key, x) {
      CloseOne(c, s, Input(events), at, t, out, key, x);
    }
  }

  lemma CloseOne(c: Config, s: State, seen: seq<Row>, at: int, t: State, out: seq<RowEmission>, key: Key, x: Session)
    requires c.gap > 0 && Inv(c, s, seen) && CloseNext(c, s, at, t) && out == t.log[|s.log|..]
    ensures ClosesRight(c, s, at, t, out, key, x)
  {
    var m, kept := SessionsAt(s.groups, key), SessionsAt(t.groups, key);
    assert GroupInv(c, s, seen, key);
    assert kept == KeepOpen(m, c.lateness, at);
    if x in m.Values {
      var k := KeyOf(m, x);
      SolidEnds(x, c.gap);
      ClosableExact(c, x, at);
      assert x in kept.Values <==> !Closable(x, c.lateness, at) by {
        if x in kept.Values { var j := KeyOf(kept, x); }
        if !Closable(x, c.lateness, at) { assert kept[k] == x; }
      }
    }
    assert Expires(Emission(key, x), s.groups, c.lateness, at) <==> Emission(key, x) in out;
  }

  // ----- Arrival order ----------------------------------------------------------------------

  lemma {:induction false} KeyRowsCount(rows: seq<Row>, key: Key, r: Row)
    ensures KeyRows(rows, key)[r] == if r.key == key && HasTime(r) then multiset(rows)[r] else 0
  {
    if rows == [] {
    } else {
      KeyRowsCount(rows[..|rows| - 1], key, r);
      assert rows == rows[..|rows| - 1] + [rows[|rows| - 1]];
    }
  }

  lemma {:induction false} GroupsNonEmpty(rows: seq<Row>, gap: int)
    ensures forall key | key in UpdateRows(map[], rows, gap) :: UpdateRows(map[], rows, gap)[key] != map[]
  {
    if rows == [] {
    } else {
      var init, last := rows[..|rows| - 1], rows[|rows| - 1];
      GroupsNonEmpty(init, gap);
      var m := SessionsAt(UpdateRows(map[], init, gap), last.key);
      assert Merged(m, last, gap).start in Absorb(m, last, gap);
    }
  }

  lemma WellKeyedValues(m: SessionMap, n: SessionMap)
    requires WellKeyed(m) && WellKeyed(n) && m.Values == n.Values
    ensures m == n
  {
    forall k ensures k in m ==> k in n && m[k] == n[k] {
      if k in m { var j := KeyOf(n, m[k]); }
    }
    forall k ensures k in n ==> k in m {
      if k in n { var j := KeyOf(m, n[k]); }
    }
    SameIntMap(m, n);
  }

  lemma GroupFromInput(rows: seq<Row>, gap: int, key: Key)
    requires gap > 0 && forall row | row in rows :: row.ts != NULL_TIMESTAMP ==> HasTime(row)
    ensures WellKeyed(SessionsAt(UpdateRows(map[], rows, gap), key))
    ensures AreSessions(SessionsAt(UpdateRows(map[], rows, gap), key).Values, KeyRows(rows, key), gap)
  {
    var c := Config(gap, 0);
    var states := [INITIAL, INITIAL.(groups := UpdateRows(map[], rows, gap))];
    assert EventOnTime(c, INITIAL.watermark, Batch(rows));
    assert Next(c, INITIAL, Batch(rows), states[1]);
    assert Steps(c)(INITIAL, Batch(rows), states[1]);
    assert IsRun(c, states, [Batch(rows)]);
    assert Input([Batch(rows)]) == rows by {
      assert [Batch(rows)][..0] == [];
      assert [] + rows == rows;
    }
    RunInv(c, states, [Batch(rows)]);
    assert GroupInv(c, states[1], rows, key);
    RunSessions(c, states, [Batch(rows)], key);
    var m := SessionsAt(UpdateRows(map[], rows, gap), key);
    assert m.Values + Emitted([], key) == m.Values;
  }

  /** Without a close in between, each group's sessions are the components of its rows, so the
      state does not depend on arrival order. */
  lemma ArrivalOrderIrrelevant(p: seq<Row>, q: seq<Row>, gap: int)
    requires gap > 0 && multiset(p) == multiset(q)
    requires forall row | row in p :: row.ts != NULL_TIMESTAMP ==> HasTime(row)
    ensures UpdateRows(map[], p, gap) == UpdateRows(map[], q, gap)
  {
    var g, h := UpdateRows(map[], p, gap), UpdateRows(map[], q, gap);
    forall row | row in q ensures row in p { assert row in multiset(q); }
    forall key ensures SessionsAt(g, key) == SessionsAt(h, key) {
      forall r: Row ensures KeyRows(p, key)[r] == KeyRows(q, key)[r] {
        KeyRowsCount(p, key, r);
        KeyRowsCount(q, key, r);
      }
      assert KeyRows(p, key) == KeyRows(q, key);
      GroupFromInput(p, gap, key);
      GroupFromInput(q, gap, key);
      SessionsUnique(SessionsAt(g, key).Values, SessionsAt(h, key).Values, KeyRows(p, key), gap);
      WellKeyedValues(SessionsAt(g, key), SessionsAt(h, key));
    }
    GroupsNonEmpty(p, gap);
    GroupsNonEmpty(q, gap);
    forall key ensures key in g <==> key in h {
      assert SessionsAt(g, key) == SessionsAt(h, key);
    }
    forall key | key in g ensures g[key] == h[key] {
      assert SessionsAt(g, key) == SessionsAt(h, key);
    }
  }

  /** In every reachable state the open sessions of a group are keyed by their start, at least
      `gap` long (up to saturation), strictly separated, and any row overlaps at most two. */
  lemma ReachableShape(c: Config, states: seq<State>, events: seq<Event>, key: Key, ts: int, ks: seq<int>)
    requires c.gap > 0 && IsRun(c, states, events)
    requires Enumerates(ks, TouchedKeys(SessionsAt(states[|events|].groups, key), ts, c.gap))
    ensures var m := SessionsAt(states[|events|].groups, key);
            && (forall k | k in m :: m[k].start == k && m[k].end >= SatAdd(k, c.gap))
            && (forall j, k | j in m && k in m && j < k :: m[j].end < k)
            && |ks| <= 2
  {
    RunInv(c, states, events);
    var s := states[|events|];
    assert GroupInv(c, s, Input(events), key);
    var m := SessionsAt(s.groups, key);
    var closed := Emitted(s.log, key);
    forall k | k in m ensures m[k].start == k && m[k].end >= SatAdd(k, c.gap) && m[k].start <= m[k].end {
      assert m[k] in m.Values;
      SolidEnds(m[k], c.gap);
    }
    forall j, k | j in m && k in m && j < k ensures m[j].end < k {
      assert m[j] in m.Values && m[k] in m.Values;
      assert Apart(m[j], m[k]);
    }
    TouchedShape(m, closed, KeyRows(Input(events), key), c.gap, ts, ks);
  }
}
