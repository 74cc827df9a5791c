/** Session windows over accumulators: runs of batches, closes and restarts, and the rows behind
    them. */
module SessionRestarts {
  import opened Runs
  import opened Int64
  import opened Collections
  import opened ScalarValues
  import opened ScalarCodec
  import opened Rows
  import opened Accumulators
  import opened Snapshots
  import opened Restarts
  import opened SessionComponents
  import opened SessionWindows
  import opened SessionRuns

  // ----- One row ---------------------------------------------------------------------------------------

  /** The bounds of the row and the sessions at `ks`, with the accumulators of the latter combined
      into those of the first. */
  function MergeSpans<A>(acc: Accumulators<Row, A>, m: Spans<A>, ks: seq<int>, row: Row, gap: int): Span<A>
    requires forall i | 0 <= i < |ks| :: ks[i] in m
  {
    if ks == [] then Span(row.ts, SatAdd(row.ts, gap), acc.empty)
    else
      var n := |ks| - 1;
      var init, last := MergeSpans(acc, m, ks[..n], row, gap), m[ks[n]];
      Span(Min(init.start, last.start), Max(init.end, last.end),
           if n == 0 then last.held else acc.combine(init.held, last.held))
  }

  function Fed<A>(acc: Accumulators<Row, A>, s: Span<A>, row: Row): Span<A> {
    s.(held := acc.feed(s.held, [row]))
  }

  /** The session that takes over from everything the row touches. */
  ghost function MergedSpan<A>(acc: Accumulators<Row, A>, m: Spans<A>, row: Row, gap: int): Span<A> {
    Fed(acc, MergeSpans(acc, m, Enumerate(TouchedKeys(m, row.ts, gap)), row, gap), row)
  }

  ghost function AbsorbTo<A>(acc: Accumulators<Row, A>, m: Spans<A>, row: Row, gap: int): Spans<A> {
    var merged := MergedSpan(acc, m, row, gap);
    (m - TouchedKeys(m, row.ts, gap))[merged.start := merged]
  }

  ghost function UpdateRowTo<A>(acc: Accumulators<Row, A>, g: map<Key, Spans<A>>, row: Row, gap: int): map<Key, Spans<A>> {
    if row.ts == NULL_TIMESTAMP then g
    else g[row.key := AbsorbTo(acc, SessionsAt(g, row.key), row, gap)]
  }

  ghost function UpdateRowsTo<A>(acc: Accumulators<Row, A>, g: map<Key, Spans<A>>, rows: seq<Row>, gap: int)
    : map<Key, Spans<A>>
  {
    if rows == [] then g
    else UpdateRowTo(acc, UpdateRowsTo(acc, g, rows[..|rows| - 1], gap), rows[|rows| - 1], gap)
  }

  // ----- The rows behind ------------------------------------------------------------------------------

  /** Accumulators that depend on the multiset of their rows only, `of` being the dependence. */
  ghost predicate Additive<A(!new)>(acc: Accumulators<Row, A>, of: multiset<Row> -> A) {
    && acc.empty == of(multiset{})
    && (forall rows: multiset<Row>, r: Row :: acc.feed(of(rows), [r]) == of(rows + multiset{r}))
    && (forall p: multiset<Row>, q: multiset<Row> :: acc.combine(of(p), of(q)) == of(p + q))
  }

  ghost function ImageSpan<A>(of: multiset<Row> -> A, s: Session): Span<A> {
    Span(s.start, s.end, of(s.held))
  }

  ghost function ImageSpans<A>(of: multiset<Row> -> A, m: SessionMap): Spans<A> {
    map k | k in m :: ImageSpan(of, m[k])
  }

  ghost function ImageGroups<A>(of: multiset<Row> -> A, g: Groups): map<Key, Spans<A>> {
    map key | key in g :: ImageSpans(of, g[key])
  }

  /** The rows of the sessions at `ks`. */
  ghost function Sum(m: SessionMap, ks: seq<int>): multiset<Row>
    requires forall i | 0 <= i < |ks| :: ks[i] in m
  {
    if ks == [] then multiset{} else Sum(m, ks[..|ks| - 1]) + m[ks[|ks| - 1]].held
  }

  lemma {:induction false} MergeRows(m: SessionMap, ks: seq<int>, row: Row, gap: int)
    requires forall i | 0 <= i < |ks| :: ks[i] in m
    ensures MergeKeys(m, ks, row, gap).held == multiset{row} + Sum(m, ks)
  {
    if ks == [] {
    } else {
      MergeRows(m, ks[..|ks| - 1], row, gap);
    }
  }

  lemma {:induction false} MergeBounds<A>(acc: Accumulators<Row, A>, of: multiset<Row> -> A, m: SessionMap,
                                          ks: seq<int>, row: Row, gap: int)
    requires forall i | 0 <= i < |ks| :: ks[i] in m
    ensures var merged, rows := MergeSpans(acc, ImageSpans(of, m), ks, row, gap), MergeKeys(m, ks, row, gap);
            merged.start == rows.start && merged.end == rows.end
  {
    if ks == [] {
    } else {
      MergeBounds(acc, of, m, ks[..|ks| - 1], row, gap);
      assert ImageSpans(of, m)[ks[|ks| - 1]] == ImageSpan(of, m[ks[|ks| - 1]]);
    }
  }

  lemma {:induction false} MergeHeld<A(!new)>(acc: Accumulators<Row, A>, of: multiset<Row> -> A, m: SessionMap,
                                              ks: seq<int>, row: Row, gap: int)
    requires Additive(acc, of) && forall i | 0 <= i < |ks| :: ks[i] in m
    ensures MergeSpans(acc, ImageSpans(of, m), ks, row, gap).held == of(Sum(m, ks))
  {
    if ks == [] {
    } else {
      var n := |ks| - 1;
      MergeHeld(acc, of, m, ks[..n], row, gap);
      var sum, last := Sum(m, ks[..n]), m[ks[n]].held;
      assert ImageSpans(of, m)[ks[n]] == ImageSpan(of, m[ks[n]]);
      if n == 0 {
        assert ks[..n] == [] && sum + last == last;
      } else {
        assert acc.combine(of(sum), of(last)) == of(sum + last);
      }
    }
  }

  lemma TouchedImage<A>(of: multiset<Row> -> A, m: SessionMap, ts: int, gap: int)
    ensures TouchedKeys(ImageSpans(of, m), ts, gap) == TouchedKeys(m, ts, gap)
  {
    SameIntSet(TouchedKeys(ImageSpans(of, m), ts, gap), TouchedKeys(m, ts, gap));
  }

  lemma AbsorbImage<A(!new)>(acc: Accumulators<Row, A>, of: multiset<Row> -> A, m: SessionMap, row: Row, gap: int)
    requires Additive(acc, of)
    ensures AbsorbTo(acc, ImageSpans(of, m), row, gap) == ImageSpans(of, Absorb(m, row, gap))
  {
    TouchedImage(of, m, row.ts, gap);
    MergedImage(acc, of, m, row, gap);
    SameIntMap(AbsorbTo(acc, ImageSpans(of, m), row, gap), ImageSpans(of, Absorb(m, row, gap)));
  }

  lemma MergedImage<A(!new)>(acc: Accumulators<Row, A>, of: multiset<Row> -> A, m: SessionMap, row: Row, gap: int)
    requires Additive(acc, of)
    ensures MergedSpan(acc, ImageSpans(of, m), row, gap) == ImageSpan(of, Merged(m, row, gap))
  {
    var keys := Enumerate(TouchedKeys(m, row.ts, gap));
    TouchedImage(of, m, row.ts, gap);
    MergeRows(m, keys, row, gap);
    MergeBounds(acc, of, m, keys, row, gap);
    MergeHeld(acc, of, m, keys, row, gap);
    assert multiset{row} + Sum(m, keys) == Sum(m, keys) + multiset{row};
  }

  lemma SessionsAtImage<A>(of: multiset<Row> -> A, g: Groups, key: Key)
    ensures SessionsAt(ImageGroups(of, g), key) == ImageSpans(of, SessionsAt(g, key))
  {
    if key !in g {
      SameIntMap(ImageSpans(of, map[]), map[]);
    }
  }

  lemma {:induction false} UpdateImage<A(!new)>(acc: Accumulators<Row, A>, of: multiset<Row> -> A, g: Groups,
                                                rows: seq<Row>, gap: int)
    requires Additive(acc, of)
    ensures UpdateRowsTo(acc, ImageGroups(of, g), rows, gap) == ImageGroups(of, UpdateRows(g, rows, gap))
  {
    if rows == [] {
    } else {
      var init, row := rows[..|rows| - 1], rows[|rows| - 1];
      UpdateImage(acc, of, g, init, gap);
      var before := UpdateRows(g, init, gap);
      if row.ts != NULL_TIMESTAMP {
        SessionsAtImage(of, before, row.key);
        AbsorbImage(acc, of, SessionsAt(before, row.key), row, gap);
      }
    }
  }

  // ----- Checkpoint and restore -----------------------------------------------------------------------

  datatype SessionCheckpoint = SessionCheckpoint(start: int, end: int, states: Saved)

  function SaveSpan<A>(acc: Accumulators<Row, A>, s: Span<A>): SessionCheckpoint {
    SessionCheckpoint(s.start, s.end, SaveStates(acc, s.held))
  }

  /** The sessions of a group, in key order. */
  ghost function SaveSpans<A>(acc: Accumulators<Row, A>, m: Spans<A>): seq<SessionCheckpoint> {
    var ks := Enumerate(m.Keys);
    seq(|ks|, i requires 0 <= i < |ks| => SaveSpan(acc, m[ks[i]]))
  }

  /** Sessions are rebuilt one by one; the first state that cannot be read aborts. */
  function LoadSpans<A>(acc: Accumulators<Row, A>, cs: seq<SessionCheckpoint>): Result<Spans<A>> {
    if cs == [] then Success(map[])
    else
      var n := |cs| - 1;
      var init := LoadSpans(acc, cs[..n]);
      if init.Failure? then init
      else
        var held := LoadStates(acc, cs[n].states);
        if held.Failure? then Failure(held.error)
        else Success(init.value[cs[n].start := Span(cs[n].start, cs[n].end, held.value)])
  }

  ghost function SpanSaver<A>(acc: Accumulators<Row, A>): Spans<A> -> seq<SessionCheckpoint> {
    m => SaveSpans(acc, m)
  }

  function SpanLoader<A>(acc: Accumulators<Row, A>): seq<SessionCheckpoint> -> Result<Spans<A>> {
    cs => LoadSpans(acc, cs)
  }

  ghost predicate SpansTyped<A>(acc: Accumulators<Row, A>, m: Spans<A>) {
    WellKeyed(m) && forall k | k in m :: StatesTyped(acc.states(m[k].held))
  }

  ghost predicate SpansKept<A(!new)>(acc: Accumulators<Row, A>, m: Spans<A>) {
    forall k | k in m :: Kept(acc, m[k].held)
  }

  ghost predicate SpansLoadable<A>(acc: Accumulators<Row, A>, m: Spans<A>) {
    forall k | k in m :: Loadable(acc, m[k].held)
  }

  /** `r` has the sessions at `ks`, each the one saved exactly if its accumulators are kept. */
  ghost predicate SpansReadBack<A(!new)>(acc: Accumulators<Row, A>, m: Spans<A>, ks: seq<int>, r: Spans<A>) {
    && (forall k :: k in r <==> k in ks)
    && (forall k | k in r :: k in m && (r[k] == m[k] <==> Kept(acc, m[k].held)))
  }

  lemma {:induction false} SpansPrefix<A(!new)>(acc: Accumulators<Row, A>, m: Spans<A>, ks: seq<int>,
                                                cs: seq<SessionCheckpoint>)
    requires SpansTyped(acc, m) && |cs| == |ks|
    requires forall i | 0 <= i < |ks| :: ks[i] in m && cs[i] == SaveSpan(acc, m[ks[i]])
    requires Ascending(ks)
    ensures LoadSpans(acc, cs).Success? <==> forall i | 0 <= i < |ks| :: Loadable(acc, m[ks[i]].held)
    ensures LoadSpans(acc, cs).Success? ==> SpansReadBack(acc, m, ks, LoadSpans(acc, cs).value)
  {
    if ks == [] {
    } else {
      var n := |ks| - 1;
      SpansPrefix(acc, m, ks[..n], cs[..n]);
      LoadSaved(acc, m[ks[n]].held);
      TakeOne(ks, n);
      assert ks[..n + 1] == ks;
    }
  }

  /** A group's sessions can be read back exactly when every accumulator state is loadable, and
      come back unchanged exactly when every one is kept. */
  lemma SpansRoundTrip<A(!new)>(acc: Accumulators<Row, A>, m: Spans<A>)
    requires SpansTyped(acc, m)
    ensures LoadSpans(acc, SaveSpans(acc, m)).Success? <==> SpansLoadable(acc, m)
    ensures LoadSpans(acc, SaveSpans(acc, m)) == Success(m) <==> SpansKept(acc, m)
  {
    var ks := Enumerate(m.Keys);
    SpansPrefix(acc, m, ks, SaveSpans(acc, m));
    forall k | k in m ensures exists i :: 0 <= i < |ks| && ks[i] == k {
      assert k in ks;
    }
    if LoadSpans(acc, SaveSpans(acc, m)).Success? {
      SameSpans(acc, m, ks, LoadSpans(acc, SaveSpans(acc, m)).value);
    }
  }

  lemma SameSpans<A(!new)>(acc: Accumulators<Row, A>, m: Spans<A>, ks: seq<int>, r: Spans<A>)
    requires Enumerates(ks, m.Keys) && SpansReadBack(acc, m, ks, r)
    ensures r == m <==> SpansKept(acc, m)
  {
    if SpansKept(acc, m) {
      SameIntMap(r, m);
    }
    if r == m {
      forall k | k in m ensures Kept(acc, m[k].held) { assert k in r; }
    }
  }

  ghost predicate GroupsTyped<A>(acc: Accumulators<Row, A>, g: map<Key, Spans<A>>) {
    forall key | key in g :: Typed(key) && SpansTyped(acc, g[key])
  }

  /** Every key is wide and every session's accumulators are kept. */
  ghost predicate GroupsSurvive<A(!new)>(acc: Accumulators<Row, A>, g: map<Key, Spans<A>>) {
    forall key | key in g :: Wide(key) && SpansKept(acc, g[key])
  }

  ghost predicate GroupsRestorable<A>(acc: Accumulators<Row, A>, g: map<Key, Spans<A>>) {
    forall key | key in g :: !AnyUnreadable(key) && SpansLoadable(acc, g[key])
  }

  /** Restart equivalence for sessions: a checkpoint can be restored exactly when no key and no
      accumulator state is unreadable or refused, and restores to the sessions it was taken of
      exactly when every key is wide and every accumulator state is kept. */
  lemma SessionsRestartExact<A(!new)>(acc: Accumulators<Row, A>, entries: seq<Entry<seq<SessionCheckpoint>>>,
                                      g: map<Key, Spans<A>>, keys: seq<Key>)
    requires Lists(SpanSaver(acc), entries, g, keys) && GroupsTyped(acc, g)
    ensures Restore(SpanLoader(acc), entries).Success? <==> GroupsRestorable(acc, g)
    ensures Restore(SpanLoader(acc), entries) == Success(g) <==> GroupsSurvive(acc, g)
  {
    RestoreExact(SpanLoader(acc), SpanSaver(acc), entries, g, keys);
    forall key | key in g
      ensures Readable(SpanLoader(acc), SpanSaver(acc), g, key) <==> !AnyUnreadable(key) && SpansLoadable(acc, g[key])
      ensures Intact(SpanLoader(acc), SpanSaver(acc), g, key) <==> Wide(key) && SpansKept(acc, g[key])
    {
      SpansRoundTrip(acc, g[key]);
    }
  }

  ghost predicate SessionsRestarted<A(!new)>(acc: Accumulators<Row, A>, g: map<Key, Spans<A>>, h: map<Key, Spans<A>>) {
    exists entries: seq<Entry<seq<SessionCheckpoint>>>, keys: seq<Key> ::
      Lists(SpanSaver(acc), entries, g, keys) && Restore(SpanLoader(acc), entries) == Success(h)
  }

  lemma SessionsRestartedExact<A(!new)>(acc: Accumulators<Row, A>, g: map<Key, Spans<A>>, h: map<Key, Spans<A>>)
    requires GroupsTyped(acc, g) && SessionsRestarted(acc, g, h)
    ensures h == g <==> GroupsSurvive(acc, g)
  {
    var entries: seq<Entry<seq<SessionCheckpoint>>>, keys: seq<Key> :|
      Lists(SpanSaver(acc), entries, g, keys) && Restore(SpanLoader(acc), entries) == Success(h);
    SessionsRestartExact(acc, entries, g, keys);
  }

  // ----- Runs -----------------------------------------------------------------------------------------

  type SessionEvent = Interrupted<Event>

  ghost predicate SessionNext<A(!new)>(acc: Accumulators<Row, A>, c: Config, s: Operator<A>, e: SessionEvent,
                                       t: Operator<A>) {
    match e
    case Go(Batch(rows)) => t == s.(groups := UpdateRowsTo(acc, s.groups, rows, c.gap))
    case Go(Close(at)) => CloseNext(c, s, at, t)
    case Restart => SessionsRestarted(acc, s.groups, t.groups) && t == s.(groups := t.groups)
  }

  /** On-time rows, and restarts of sessions that survive them. */
  ghost predicate InOrder<A(!new)>(acc: Accumulators<Row, A>, c: Config, s: Operator<A>, e: SessionEvent) {
    match e
    case Go(event) => EventOnTime(c, s.watermark, event)
    case Restart => GroupsTyped(acc, s.groups) && GroupsSurvive(acc, s.groups)
  }

  ghost function SessionSteps<A(!new)>(acc: Accumulators<Row, A>, c: Config)
    : (Operator<A>, SessionEvent, Operator<A>) -> bool
  {
    (s, e, t) => SessionNext(acc, c, s, e, t) && InOrder(acc, c, s, e)
  }

  ghost predicate IsSessionRun<A(!new)>(acc: Accumulators<Row, A>, c: Config, states: seq<Operator<A>>,
                                        events: seq<SessionEvent>) {
    IsRunOf(Operator(map[], [], MIN), SessionSteps(acc, c), states, events)
  }

  ghost function ImageEmission<A>(of: multiset<Row> -> A, e: RowEmission): Emission<A> {
    Emission(e.key, ImageSpan(of, e.session))
  }

  ghost function ImageLog<A>(of: multiset<Row> -> A, log: seq<RowEmission>): seq<Emission<A>> {
    seq(|log|, i requires 0 <= i < |log| => ImageEmission(of, log[i]))
  }

  ghost function ImageOf<A>(of: multiset<Row> -> A, s: State): Operator<A> {
    Operator(ImageGroups(of, s.groups), ImageLog(of, s.log), s.watermark)
  }

  ghost predicate AllWellKeyed(g: Groups) {
    forall key | key in g :: WellKeyed(g[key])
  }

  /** An expiring session of the image stands for the expiring session at its start. */
  lemma ExpiresBehind<A>(of: multiset<Row> -> A, g: Groups, e: Emission<A>, lateness: int, at: int)
    requires AllWellKeyed(g) && Expires(e, ImageGroups(of, g), lateness, at)
    ensures e.key in g && e.session.start in g[e.key]
    ensures var s := g[e.key][e.session.start];
            e.session == ImageSpan(of, s) && Expires(Emission(e.key, s), g, lateness, at)
  {
    SessionsAtImage(of, g, e.key);
    var m := SessionsAt(g, e.key);
    var k := KeyOf(ImageSpans(of, m), e.session);
    assert m[k] in m.Values;
  }

  lemma ExpiresImage<A>(of: multiset<Row> -> A, g: Groups, e: RowEmission, lateness: int, at: int)
    requires Expires(e, g, lateness, at)
    ensures Expires(ImageEmission(of, e), ImageGroups(of, g), lateness, at)
  {
    SessionsAtImage(of, g, e.key);
    var m := SessionsAt(g, e.key);
    var k := KeyOf(m, e.session);
    assert ImageSpans(of, m)[k] == ImageSpan(of, e.session);
  }

  /** The output rows behind an output of accumulators. */
  ghost function RowsBehind<A>(g: Groups, out: seq<Emission<A>>): seq<RowEmission>
    requires forall i | 0 <= i < |out| :: out[i].key in g && out[i].session.start in g[out[i].key]
  {
    seq(|out|, i requires 0 <= i < |out| => Emission(out[i].key, g[out[i].key][out[i].session.start]))
  }

  lemma OutputBehind<A(!new)>(of: multiset<Row> -> A, g: Groups, lateness: int, at: int, out: seq<Emission<A>>)
    requires AllWellKeyed(g) && IsOutput(out, ImageGroups(of, g), lateness, at)
    ensures forall i | 0 <= i < |out| :: out[i].key in g && out[i].session.start in g[out[i].key]
    ensures IsOutput(RowsBehind(g, out), g, lateness, at) && ImageLog(of, RowsBehind(g, out)) == out
  {
    forall i | 0 <= i < |out|
      ensures out[i].key in g && out[i].session.start in g[out[i].key]
      ensures var s := g[out[i].key][out[i].session.start];
              out[i].session == ImageSpan(of, s) && Expires(Emission(out[i].key, s), g, lateness, at)
    {
      assert out[i] in out;
      ExpiresBehind(of, g, out[i], lateness, at);
    }
    var rows := RowsBehind(g, out);
    forall e: RowEmission | Expires(e, g, lateness, at) ensures e in rows {
      ExpiresImage(of, g, e, lateness, at);
      assert ImageEmission(of, e) in out;
      var i :| 0 <= i < |out| && out[i] == ImageEmission(of, e);
      var k := KeyOf(SessionsAt(g, e.key), e.session);
      assert rows[i] == e;
    }
    forall i, j | 0 <= i < j < |rows| ensures rows[i] != rows[j] && Earlier(rows[i], rows[j]) {
      assert out[i] != out[j] && Earlier(out[i], out[j]);
    }
  }

  lemma KeepOpenImage<A>(of: multiset<Row> -> A, m: SessionMap, lateness: int, at: int)
    ensures KeepOpen(ImageSpans(of, m), lateness, at) == ImageSpans(of, KeepOpen(m, lateness, at))
    ensures KeepOpen(ImageSpans(of, m), lateness, at) == map[] <==> KeepOpen(m, lateness, at) == map[]
  {
    var kept, image := KeepOpen(m, lateness, at), KeepOpen(ImageSpans(of, m), lateness, at);
    SameIntMap(image, ImageSpans(of, kept));
    if kept == map[] {
      SameIntMap(image, map[]);
    }
    if image == map[] {
      assert forall k | k in kept :: k in image;
      SameIntMap(kept, map[]);
    }
  }

  lemma CloseImage<A>(of: multiset<Row> -> A, g: Groups, lateness: int, at: int)
    ensures CloseGroups(ImageGroups(of, g), lateness, at) == ImageGroups(of, CloseGroups(g, lateness, at))
  {
    forall key | key in g
      ensures KeepOpen(ImageSpans(of, g[key]), lateness, at) == ImageSpans(of, KeepOpen(g[key], lateness, at))
      ensures KeepOpen(ImageSpans(of, g[key]), lateness, at) == map[] <==> KeepOpen(g[key], lateness, at) == map[]
    {
      KeepOpenImage(of, g[key], lateness, at);
    }
  }

  lemma CloseBehind<A(!new)>(of: multiset<Row> -> A, c: Config, s: State, at: int, t: Operator<A>) returns (r: State)
    requires AllWellKeyed(s.groups) && CloseNext(c, ImageOf(of, s), at, t)
    ensures Next(c, s, Close(at), r) && t == ImageOf(of, r)
  {
    var image := ImageOf(of, s);
    var out := t.log[|image.log|..];
    OutputBehind(of, s.groups, c.lateness, at, out);
    CloseImage(of, s.groups, c.lateness, at);
    var rows := RowsBehind(s.groups, out);
    r := Operator(CloseGroups(s.groups, c.lateness, at), s.log + rows, Max(s.watermark, at));
    assert t.log == image.log + out;
    assert ImageLog(of, s.log + rows) == ImageLog(of, s.log) + ImageLog(of, rows);
    assert r.log[|s.log|..] == rows;
  }

  /** Some input leads here. */
  ghost predicate Reached(c: Config, s: State) {
    exists seen: seq<Row> :: Inv(c, s, seen)
  }

  lemma ReachedWellKeyed(c: Config, s: State)
    requires c.gap > 0 && Reached(c, s)
    ensures AllWellKeyed(s.groups)
  {
    var seen: seq<Row> :| Inv(c, s, seen);
    forall key | key in s.groups ensures WellKeyed(s.groups[key]) {
      assert GroupInv(c, s, seen, key);
    }
  }

  lemma ReachedNext(c: Config, s: State, e: Event, t: State)
    requires c.gap > 0 && Reached(c, s) && Steps(c)(s, e, t)
    ensures Reached(c, t)
  {
    var seen: seq<Row> :| Inv(c, s, seen);
    StepInv(c, s, seen, e, t);
  }

  lemma OneBehind<A(!new)>(acc: Accumulators<Row, A>, of: multiset<Row> -> A, c: Config, s: State, e: SessionEvent,
                           t: Operator<A>)
    requires Additive(acc, of) && c.gap > 0 && Reached(c, s)
    requires SessionNext(acc, c, ImageOf(of, s), e, t) && InOrder(acc, c, ImageOf(of, s), e)
    ensures HasStep(Steps(c), r => ImageOf(of, r), r => Reached(c, r), s, e, t)
  {
    match e
    case Restart => SessionsRestartedExact(acc, ImageGroups(of, s.groups), t.groups);
    case Go(event) =>
      var r: State;
      match event {
        case Batch(batch) =>
          UpdateImage(acc, of, s.groups, batch, c.gap);
          r := s.(groups := UpdateRows(s.groups, batch, c.gap));
        case Close(at) =>
          ReachedWellKeyed(c, s);
          r := CloseBehind(of, c, s, at, t);
      }
      assert Steps(c)(s, event, r);
      ReachedNext(c, s, event, r);
  }

  /** A run with restarts that are survived is, behind the accumulators, a run of the rows as if
      it had never stopped. */
  lemma RowsOfRun<A(!new)>(acc: Accumulators<Row, A>, of: multiset<Row> -> A, c: Config, states: seq<Operator<A>>,
                           events: seq<SessionEvent>) returns (rows: seq<State>)
    requires Additive(acc, of) && c.gap > 0 && IsSessionRun(acc, c, states, events)
    ensures IsRun(c, rows, Uninterrupted(events))
    ensures states[|events|] == ImageOf(of, rows[|Uninterrupted(events)|])
  {
    var image, reached := (r: State) => ImageOf(of, r), (r: State) => Reached(c, r);
    assert image(INITIAL) == Operator(map[], [], MIN);
    RunInv(c, [INITIAL], []);
    forall s: State, e: SessionEvent, t: Operator<A> | reached(s) && SessionSteps(acc, c)(image(s), e, t)
      ensures HasStep(Steps(c), image, reached, s, e, t)
    {
      OneBehind(acc, of, c, s, e, t);
    }
    rows := RunBehind(INITIAL, SessionSteps(acc, c), Steps(c), image, reached, states, events);
  }

  /** Over every run of batches, closes and restarts that are survived, the operator's open and
      emitted sessions are the accumulators of exactly the sessions of the whole input: there is
      a state of rows behind it whose open and emitted sessions, group by group, are the
      components of the rows, none emitted twice. */
  lemma RestartedSessions<A(!new)>(acc: Accumulators<Row, A>, of: multiset<Row> -> A, c: Config,
                                   states: seq<Operator<A>>, events: seq<SessionEvent>) returns (s: State)
    requires Additive(acc, of) && c.gap > 0 && IsSessionRun(acc, c, states, events)
    ensures states[|events|] == ImageOf(of, s)
    ensures forall key :: SessionsOf(c, s, Input(Uninterrupted(events)), key)
    ensures forall i, j | 0 <= i < j < |s.log| :: s.log[i] != s.log[j]
  {
    var straight := Uninterrupted(events);
    var rows := RowsOfRun(acc, of, c, states, events);
    s := rows[|straight|];
    forall key ensures SessionsOf(c, s, Input(straight), key) {
      RunSessions(c, rows, straight, key);
    }
    RunInv(c, rows, straight);
  }

  ghost predicate SessionsOf(c: Config, s: State, seen: seq<Row>, key: Key) {
    var open := SessionsAt(s.groups, key).Values;
    && AreSessions(open + Emitted(s.log, key), KeyRows(seen, key), c.gap)
    && open !! Emitted(s.log, key)
  }

  // ----- An accumulator that meets the laws -----------------------------------------------------------

  /** COUNT(*), saved as one 64-bit integer. */
  function Count(): Accumulators<Row, int> {
    Accumulators(
      0, (n: int, rows: seq<Row>) => n + |rows|, (n: int, m: int) => n + m, (n: int) => [[Int(W64, Some(n))]],
      (ss: seq<seq<Scalar>>) => if |ss| == 1 && |ss[0]| == 1 && ss[0][0].Int? then ss[0][0].i else None)
  }

  ghost function CountOf(): multiset<Row> -> int {
    rows => |rows|
  }

  lemma CountLaws(n: int)
    ensures Sequential(Count()) && Reloads(Count()) && Additive(Count(), CountOf())
    ensures Kept(Count(), n)
  {
    var ss := [[Int(W64, Some(n))]];
    assert !Unreadable(ss[0][0]) && !AnyUnreadable(ss[0]) && !StatesUnreadable(ss);
    assert ss[0][1..] == [] && WidenAll([]) == [];
    assert WidenAll(ss[0]) == ss[0];
    assert WidenStates(ss) == ss;
  }
}
