/** The per-group session map of the windowed operator: how one row is absorbed, and that the
    open sessions together with the emitted ones are always the components of the input. */
module SessionWindows {
  import opened Int64
  import opened Collections
  import opened Rows
  import opened SessionComponents

  /** Active sessions of one group, keyed by start. */
  type Spans<+A> = map<int, Span<A>>

  type SessionMap = Spans<multiset<Row>>

  ghost predicate WellKeyed<A>(m: Spans<A>) {
    forall k | k in m :: m[k].start == k
  }

  /** Keys found by the range-and-filter scan for a row at `ts`. */
  function TouchedKeys<A>(m: Spans<A>, ts: int, gap: int): set<int> {
    set k | k in m && k <= SatAdd(ts, gap) && m[k].end >= ts
  }

  function MergeKeys(m: SessionMap, ks: seq<int>, row: Row, gap: int): Session
    requires forall i | 0 <= i < |ks| :: ks[i] in m
  {
    if ks == [] then Fresh(row, gap)
    else Merge(MergeKeys(m, ks[..|ks| - 1], row, gap), m[ks[|ks| - 1]])
  }

  /** The session that takes over from everything the row touches. */
  ghost function Merged(m: SessionMap, row: Row, gap: int): Session {
    MergeKeys(m, Enumerate(TouchedKeys(m, row.ts, gap)), row, gap)
  }

  ghost function Absorb(m: SessionMap, row: Row, gap: int): SessionMap {
    var merged := Merged(m, row, gap);
    (m - TouchedKeys(m, row.ts, gap))[merged.start := merged]
  }

  // ----- One row keeps the components ---------------------------------------------------

  ghost predicate Untouched(closed: set<Session>, ts: int, gap: int) {
    forall c | c in closed :: !Touches(c, ts, gap)
  }

  /** The sessions a row touches are the ones at the scanned keys. */
  lemma TouchedByKey(m: SessionMap, closed: set<Session>, ts: int, gap: int, s: Session)
    requires WellKeyed(m) && Untouched(closed, ts, gap) && s in m.Values + closed
    ensures Touches(s, ts, gap) <==> s.start in TouchedKeys(m, ts, gap) && m[s.start] == s
  {
    if s in m.Values {
      var k := KeyOf(m, s);
      assert k == s.start;
    }
  }

  /** Every reachable group: a row overlaps no session, one, or two neighbours that it bridges. */
  lemma TouchedShape(m: SessionMap, closed: set<Session>, all: multiset<Row>, gap: int, ts: int, ks: seq<int>)
    requires WellKeyed(m) && Good(m.Values + closed, all, gap)
    requires Enumerates(ks, TouchedKeys(m, ts, gap))
    ensures |ks| <= 2
    ensures |ks| == 2 ==> ks[0] in m && ks[1] in m && m[ks[0]].end < m[ks[1]].start
  {
    assert forall i | 0 <= i < |ks| :: ks[i] in ks;
    if |ks| >= 3 {
      assert ks[0] in m && ks[1] in m && ks[2] in m;
      TouchesAtMostTwo(m.Values + closed, all, gap, ts, m[ks[0]], m[ks[1]], m[ks[2]]);
    }
    if |ks| == 2 {
      assert ks[0] in m && ks[1] in m;
      SolidEnds(m[ks[0]], gap);
      SolidEnds(m[ks[1]], gap);
      assert Apart(m[ks[0]], m[ks[1]]);
    }
  }

  lemma MergedReplaces(m: SessionMap, closed: set<Session>, all: multiset<Row>, row: Row, gap: int)
    requires WellKeyed(m) && Good(m.Values + closed, all, gap)
    requires HasTime(row) && Untouched(closed, row.ts, gap)
    ensures Replaces(Merged(m, row, gap), Touching(m.Values + closed, row.ts, gap), row, gap)
    ensures Merged(m, row, gap).start == row.ts
         || Merged(m, row, gap).start in TouchedKeys(m, row.ts, gap)
  {
    var ks := Enumerate(TouchedKeys(m, row.ts, gap));
    var gone := Touching(m.Values + closed, row.ts, gap);
    TouchedShape(m, closed, all, gap, row.ts, ks);
    TouchedValues(m, closed, row.ts, gap, ks);
    assert forall i | 0 <= i < |ks| :: Solid(m[ks[i]], gap) && Touches(m[ks[i]], row.ts, gap);
    MergedCases(m, gone, row, gap, ks);
  }

  lemma MergedCases(m: SessionMap, gone: set<Session>, row: Row, gap: int, ks: seq<int>)
    requires gap > 0 && HasTime(row) && |ks| <= 2
    requires forall i | 0 <= i < |ks| :: ks[i] in m && m[ks[i]].start == ks[i] && m[ks[i]] in gone
    requires forall i | 0 <= i < |ks| :: Solid(m[ks[i]], gap) && Touches(m[ks[i]], row.ts, gap)
    requires |ks| == 2 ==> m[ks[0]].end < m[ks[1]].start
    requires forall s | s in gone :: exists i :: 0 <= i < |ks| && m[ks[i]] == s
    ensures Replaces(MergeKeys(m, ks, row, gap), gone, row, gap)
    ensures MergeKeys(m, ks, row, gap).start == row.ts
         || exists i :: 0 <= i < |ks| && ks[i] == MergeKeys(m, ks, row, gap).start
  {
    GoneIs(m, gone, ks);
    if |ks| == 0 {
      FreshReplaces(row, gap);
    } else if |ks| == 1 {
      MergedOne(m, ks[0], row, gap);
    } else {
      MergedTwo(m, ks[0], ks[1], row, gap);
    }
  }

  lemma GoneIs(m: SessionMap, gone: set<Session>, ks: seq<int>)
    requires |ks| <= 2 && forall i | 0 <= i < |ks| :: ks[i] in m && m[ks[i]] in gone
    requires forall s | s in gone :: exists i :: 0 <= i < |ks| && m[ks[i]] == s
    ensures |ks| == 0 ==> ks == [] && gone == {}
    ensures |ks| == 1 ==> ks == [ks[0]] && gone == {m[ks[0]]}
    ensures |ks| == 2 ==> ks == [ks[0], ks[1]] && gone == {m[ks[0]], m[ks[1]]}
  {
  }

  lemma MergedOne(m: SessionMap, k: int, row: Row, gap: int)
    requires gap > 0 && HasTime(row) && k in m && m[k].start == k && Solid(m[k], gap) && Touches(m[k], row.ts, gap)
    ensures Replaces(MergeKeys(m, [k], row, gap), {m[k]}, row, gap)
    ensures MergeKeys(m, [k], row, gap).start == row.ts || MergeKeys(m, [k], row, gap).start == k
  {
    MergeOne(m, k, row, gap);
    ExtendReplaces(m[k], row, gap);
  }

  lemma MergedTwo(m: SessionMap, j: int, k: int, row: Row, gap: int)
    requires gap > 0 && HasTime(row) && j in m && k in m && m[j].start == j && m[k].start == k
    requires Solid(m[j], gap) && Touches(m[j], row.ts, gap) && Solid(m[k], gap) && Touches(m[k], row.ts, gap)
    requires m[j].end < m[k].start
    ensures Replaces(MergeKeys(m, [j, k], row, gap), {m[j], m[k]}, row, gap)
    ensures MergeKeys(m, [j, k], row, gap).start == row.ts || MergeKeys(m, [j, k], row, gap).start in [j, k]
  {
    MergeTwo(m, j, k, row, gap);
    BridgeReplaces(m[j], m[k], row, gap);
  }

  lemma TouchedValues(m: SessionMap, closed: set<Session>, ts: int, gap: int, ks: seq<int>)
    requires WellKeyed(m) && Untouched(closed, ts, gap)
    requires Enumerates(ks, TouchedKeys(m, ts, gap))
    ensures forall i | 0 <= i < |ks| :: ks[i] in m && m[ks[i]] in Touching(m.Values + closed, ts, gap)
    ensures forall s | s in Touching(m.Values + closed, ts, gap) ::
              exists i :: 0 <= i < |ks| && ks[i] == s.start && ks[i] in m && m[ks[i]] == s
  {
    forall i | 0 <= i < |ks|
      ensures ks[i] in m && m[ks[i]] in Touching(m.Values + closed, ts, gap)
    {
      assert ks[i] in ks;
      assert m[ks[i]] in m.Values;
    }
    forall s | s in Touching(m.Values + closed, ts, gap)
      ensures exists i :: 0 <= i < |ks| && ks[i] == s.start && ks[i] in m && m[ks[i]] == s
    {
      TouchedByKey(m, closed, ts, gap, s);
      assert s.start in ks;
    }
  }

  lemma MergeOne(m: SessionMap, k: int, row: Row, gap: int)
    requires k in m
    ensures MergeKeys(m, [k], row, gap) == Merge(m[k], Fresh(row, gap))
  {
    assert MergeKeys(m, [k], row, gap) == Merge(MergeKeys(m, [k][..0], row, gap), m[k]);
    assert m[k].held + multiset{row} == multiset{row} + m[k].held;
  }

  lemma MergeTwo(m: SessionMap, j: int, k: int, row: Row, gap: int)
    requires j in m && k in m
    ensures MergeKeys(m, [j, k], row, gap) == Merge(Merge(m[j], Fresh(row, gap)), m[k])
  {
    assert [j, k][..1] == [j];
    MergeOne(m, j, row, gap);
  }

  lemma AbsorbKeyFree(m: SessionMap, row: Row, gap: int)
    requires WellKeyed(m) && HasTime(row)
    requires forall k | k in m :: m[k].start <= m[k].end && gap >= 0
    requires Merged(m, row, gap).start == row.ts
          || Merged(m, row, gap).start in TouchedKeys(m, row.ts, gap)
    ensures Merged(m, row, gap).start !in m - TouchedKeys(m, row.ts, gap)
  {
  }

  lemma AbsorbValues(m: SessionMap, closed: set<Session>, row: Row, gap: int)
    requires WellKeyed(m) && Untouched(closed, row.ts, gap)
    requires Merged(m, row, gap).start !in m - TouchedKeys(m, row.ts, gap)
    ensures WellKeyed(Absorb(m, row, gap))
    ensures Absorb(m, row, gap).Values + closed
         == m.Values + closed - Touching(m.Values + closed, row.ts, gap) + {Merged(m, row, gap)}
  {
    var keys := TouchedKeys(m, row.ts, gap);
    var merged := Merged(m, row, gap);
    var after := Absorb(m, row, gap);
    assert after[merged.start] == merged;
    forall s | s in m.Values && !Touches(s, row.ts, gap) ensures s in after.Values {
      var k := KeyOf(m, s);
      assert k !in keys && after[k] == s;
    }
    forall s | s in after.Values && s != merged ensures s in m.Values && !Touches(s, row.ts, gap) {
      var k := KeyOf(after, s);
      assert k in m && k !in keys;
    }
  }

  /** Absorbing an on-time row keeps open plus emitted sessions the components of the input. */
  lemma AbsorbGood(m: SessionMap, closed: set<Session>, all: multiset<Row>, row: Row, gap: int)
    requires WellKeyed(m) && Good(m.Values + closed, all, gap)
    requires HasTime(row) && Untouched(closed, row.ts, gap)
    ensures WellKeyed(Absorb(m, row, gap))
    ensures Good(Absorb(m, row, gap).Values + closed, all + multiset{row}, gap)
    ensures Merged(m, row, gap) !in closed
  {
    MergedReplaces(m, closed, all, row, gap);
    forall k | k in m ensures m[k].start <= m[k].end {
      assert m[k] in m.Values;
      SolidEnds(m[k], gap);
    }
    AbsorbKeyFree(m, row, gap);
    AbsorbValues(m, closed, row, gap);
    ReplaceGood(m.Values + closed, all, gap, row, Merged(m, row, gap));
    Within(Merged(m, row, gap), gap, row);
  }

  // ----- Late rows ------------------------------------------------------------------------

  lemma TouchConnected(c: Session, row: Row, times: set<int>, gap: int)
    requires Solid(c, gap) && gap > 0 && HasTime(row) && Touches(c, row.ts, gap)
    requires Times(c.held) <= times && row.ts in times
    ensures Connected(times, gap, c.start, row.ts)
  {
    var x := Merge(c, Fresh(row, gap));
    ExtendSolid(c, row, gap);
    TimesSum(c.held, multiset{row});
    SameIntSet(Times(multiset{row}), {row.ts});
    assert Times(x.held) == Times(c.held) + {row.ts};
    SolidReach(x, times, gap, c.start);
    SolidReach(x, times, gap, row.ts);
    ConnectedSym(times, gap, x.start, c.start);
    ConnectedTrans(times, gap, c.start, x.start, row.ts);
  }

  /** Exactly when a row leaves open plus emitted sessions correct: it touches nothing
      already emitted. */
  lemma LateRowExact(m: SessionMap, closed: set<Session>, all: multiset<Row>, row: Row, gap: int)
    requires WellKeyed(m) && Good(m.Values + closed, all, gap) && HasTime(row)
    ensures AreSessions(Absorb(m, row, gap).Values + closed, all + multiset{row}, gap)
       <==> Untouched(closed, row.ts, gap)
  {
    if Untouched(closed, row.ts, gap) {
      AbsorbGood(m, closed, all, row, gap);
      GoodAreSessions(Absorb(m, row, gap).Values + closed, all + multiset{row}, gap);
    } else {
      var c :| c in closed && Touches(c, row.ts, gap);
      LateRowBreaks(m.Values + closed, all, row, gap, c);
    }
  }

  lemma LateRowBreaks(sessions: set<Session>, all: multiset<Row>, row: Row, gap: int, c: Session)
    requires Good(sessions, all, gap) && HasTime(row) && c in sessions && Touches(c, row.ts, gap)
    ensures !IsComponent(c, all + multiset{row}, gap)
  {
    var times := Times(all + multiset{row});
    TimesSum(all, multiset{row});
    assert Times(c.held) <= times;
    assert row in multiset{row} && row.ts in Times(multiset{row});
    TouchConnected(c, row, times, gap);
    assert row in c.held ==> c.held[row] == all[row];
  }

  /** The end of a session is exclusive for closing but inclusive for merging, so a row exactly
      at the watermark (minus lateness) can belong to a session that is already gone. */
  lemma WatermarkEdgeSplitsSession(first: Row, late: Row, gap: int, lateness: int, watermark: int)
    requires gap > 0 && lateness >= 0 && HasTime(first) && HasTime(late)
    requires late.ts == first.ts + gap && SatAdd(late.ts, lateness) == watermark
    ensures SatAdd(Fresh(first, gap).end, lateness) <= watermark
    ensures !AreSessions(Absorb(map[], late, gap).Values + {Fresh(first, gap)}, multiset{first, late}, gap)
  {
    var closed := {Fresh(first, gap)};
    var none: SessionMap := map[];
    FreshSolid(first, gap);
    assert Good(closed, multiset{first}, gap) by {
      assert Fresh(first, gap) in closed;
      assert Holds(closed, first);
    }
    assert none.Values + closed == closed;
    LateRowExact(none, closed, multiset{first}, late, gap);
    assert multiset{first} + multiset{late} == multiset{first, late};
  }
}
