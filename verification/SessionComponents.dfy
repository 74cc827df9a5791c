/** Session windows as a mathematical object: the connected components of event times under
    "at most `gap` apart", and how absorbing one row changes them. */
module SessionComponents {
  import opened Int64
  import opened Collections
  import opened Rows

  /** One session: inclusive start, end = last event + gap, and what it holds, rows or
      accumulators. */
  datatype Span<+A> = Span(start: int, end: int, held: A)

  type Session = Span<multiset<Row>>

  ghost function Times(rows: multiset<Row>): set<int> {
    set r | r in rows :: r.ts
  }

  // ----- Declarative meaning ------------------------------------------------------------

  ghost predicate IsChain(times: set<int>, gap: int, c: seq<int>) {
    && |c| > 0
    && (forall i | 0 <= i < |c| :: c[i] in times)
    && (forall i | 0 < i < |c| :: -gap <= c[i] - c[i - 1] <= gap)
  }

  /** Some chain of events, each within `gap` of the next, leads from `a` to `b`. */
  ghost predicate Connected(times: set<int>, gap: int, a: int, b: int) {
    exists c :: IsChain(times, gap, c) && c[0] == a && c[|c| - 1] == b
  }

  /** `s` is the whole component of its start: its rows with full multiplicity, first event,
      and last event plus gap. */
  ghost predicate IsComponent(s: Session, all: multiset<Row>, gap: int) {
    && s.start in Times(s.held)
    && (forall r :: s.held[r] == if Connected(Times(all), gap, s.start, r.ts) then all[r] else 0)
    && (forall t | t in Times(s.held) :: s.start <= t)
    && s.end == SatAdd(MaxOf(Times(s.held)), gap)
  }

  ghost predicate Holds(sessions: set<Session>, r: Row) {
    exists s :: s in sessions && r in s.held
  }

  ghost predicate AllHeld(sessions: set<Session>, all: multiset<Row>) {
    forall r {:trigger Holds(sessions, r)} | r in all :: Holds(sessions, r)
  }

  /** `sessions` are exactly the components of `all`. */
  ghost predicate AreSessions(sessions: set<Session>, all: multiset<Row>, gap: int) {
    && (forall s | s in sessions :: IsComponent(s, all, gap))
    && AllHeld(sessions, all)
  }

  lemma ConnectedTrans(times: set<int>, gap: int, a: int, b: int, c: int)
    requires Connected(times, gap, a, b) && Connected(times, gap, b, c)
    ensures Connected(times, gap, a, c)
  {
    var p :| IsChain(times, gap, p) && p[0] == a && p[|p| - 1] == b;
    var q :| IsChain(times, gap, q) && q[0] == b && q[|q| - 1] == c;
    assert IsChain(times, gap, p + q[1..]);
  }

  lemma ConnectedSym(times: set<int>, gap: int, a: int, b: int)
    requires Connected(times, gap, a, b)
    ensures Connected(times, gap, b, a)
  {
    var p :| IsChain(times, gap, p) && p[0] == a && p[|p| - 1] == b;
    var q := seq(|p|, i requires 0 <= i < |p| => p[|p| - 1 - i]);
    assert forall i | 0 < i < |q| :: q[i] - q[i - 1] == -(p[|p| - i] - p[|p| - i - 1]);
    assert IsChain(times, gap, q);
  }

  /** The components determine the sessions: one input, one answer. */
  lemma SessionsUnique(a: set<Session>, b: set<Session>, all: multiset<Row>, gap: int)
    requires AreSessions(a, all, gap) && AreSessions(b, all, gap)
    ensures a == b
  {
    forall s | s in a ensures s in b { ComponentShared(s, b, all, gap); }
    forall s | s in b ensures s in a { ComponentShared(s, a, all, gap); }
  }

  lemma ComponentShared(s: Session, b: set<Session>, all: multiset<Row>, gap: int)
    requires IsComponent(s, all, gap) && AreSessions(b, all, gap)
    ensures s in b
  {
    var r :| r in s.held && r.ts == s.start;
    assert Holds(b, r);
    var s2 :| s2 in b && r in s2.held;
    SameComponent(s, s2, all, gap);
  }

  lemma SameComponent(s: Session, s2: Session, all: multiset<Row>, gap: int)
    requires IsComponent(s, all, gap) && IsComponent(s2, all, gap)
    requires Connected(Times(all), gap, s2.start, s.start)
    ensures s == s2
  {
    var times := Times(all);
    ConnectedSym(times, gap, s2.start, s.start);
    forall x: Row ensures s.held[x] == s2.held[x] {
      if Connected(times, gap, s.start, x.ts) {
        ConnectedTrans(times, gap, s2.start, s.start, x.ts);
      } else if Connected(times, gap, s2.start, x.ts) {
        ConnectedTrans(times, gap, s.start, s2.start, x.ts);
      }
    }
    assert s.held == s2.held;
  }

  // ----- Working invariant --------------------------------------------------------------

  ghost predicate HasPrior(times: set<int>, gap: int, t: int) {
    exists p :: p in times && t - gap <= p < t
  }

  /** Times run from `start` to a last event, `end` is that event plus `gap`, and every
      later event has one shortly before it. */
  ghost predicate Solid(s: Session, gap: int) {
    var times := Times(s.held);
    && s.start in times
    && (forall r | r in s.held :: HasTime(r))
    && (forall t | t in times :: s.start <= t)
    && s.end == SatAdd(MaxOf(times), gap)
    && (forall t {:trigger HasPrior(times, gap, t)} | t in times && t != s.start ::
          HasPrior(times, gap, t))
  }

  ghost predicate Apart(a: Session, b: Session) {
    a.end < b.start || b.end < a.start
  }

  ghost predicate AllApart(sessions: set<Session>) {
    forall a, b | a in sessions && b in sessions && a != b :: Apart(a, b)
  }

  ghost predicate AllCounted(sessions: set<Session>, all: multiset<Row>) {
    forall s, r | s in sessions && r in s.held :: s.held[r] == all[r]
  }

  /** The invariant every reachable collection of sessions satisfies. */
  ghost predicate Good(sessions: set<Session>, all: multiset<Row>, gap: int) {
    && gap > 0
    && (forall s | s in sessions :: Solid(s, gap))
    && AllApart(sessions)
    && AllCounted(sessions, all)
    && AllHeld(sessions, all)
  }

  lemma SolidReach(s: Session, times: set<int>, gap: int, t: int)
    requires Solid(s, gap) && gap > 0 && Times(s.held) <= times && t in Times(s.held)
    ensures Connected(times, gap, s.start, t)
    decreases t - s.start
  {
    if t == s.start {
      assert IsChain(times, gap, [t]);
    } else {
      assert HasPrior(Times(s.held), gap, t);
      var p :| p in Times(s.held) && t - gap <= p < t;
      SolidReach(s, times, gap, p);
      assert IsChain(times, gap, [p, t]);
      ConnectedTrans(times, gap, s.start, p, t);
    }
  }

  lemma Within(s: Session, gap: int, r: Row)
    requires Solid(s, gap) && r in s.held
    ensures HasTime(r) && s.start <= r.ts && SatAdd(r.ts, gap) <= s.end
  {
    assert r.ts in Times(s.held);
  }

  /** An event within `gap` of a session's event belongs to that session. */
  lemma StepStays(sessions: set<Session>, all: multiset<Row>, gap: int, s: Session, x: Row, y: Row)
    requires Good(sessions, all, gap) && s in sessions && x in s.held && y in all
    requires -gap <= y.ts - x.ts <= gap
    ensures y in s.held
  {
    assert Holds(sessions, y);
    var s2 :| s2 in sessions && y in s2.held;
    Within(s, gap, x);
    Within(s2, gap, y);
    if s2 != s {
      assert false;
    }
  }

  /** A chain never leaves the session it starts in. */
  lemma ChainStays(sessions: set<Session>, all: multiset<Row>, gap: int, s: Session, x: Row, c: seq<int>, y: Row)
    requires Good(sessions, all, gap) && s in sessions && x in s.held && y in all
    requires IsChain(Times(all), gap, c) && c[0] == x.ts && c[|c| - 1] == y.ts
    ensures y in s.held
    decreases |c|
  {
    if |c| == 1 {
      StepStays(sessions, all, gap, s, x, y);
    } else {
      var next :| next in all && next.ts == c[1];
      StepStays(sessions, all, gap, s, x, next);
      assert forall i | 0 < i < |c[1..]| :: c[1..][i] - c[1..][i - 1] == c[i + 1] - c[i];
      ChainStays(sessions, all, gap, s, next, c[1..], y);
    }
  }

  /** The working invariant characterises the components. */
  lemma GoodAreSessions(sessions: set<Session>, all: multiset<Row>, gap: int)
    requires Good(sessions, all, gap)
    ensures AreSessions(sessions, all, gap)
  {
    forall s | s in sessions ensures IsComponent(s, all, gap) {
      GoodIsComponent(sessions, all, gap, s);
    }
  }

  lemma GoodIsComponent(sessions: set<Session>, all: multiset<Row>, gap: int, s: Session)
    requires Good(sessions, all, gap) && s in sessions
    ensures IsComponent(s, all, gap)
  {
    forall r: Row
      ensures s.held[r] == if Connected(Times(all), gap, s.start, r.ts) then all[r] else 0
    {
      if r in s.held {
        assert Times(s.held) <= Times(all);
        assert r.ts in Times(s.held);
        SolidReach(s, Times(all), gap, r.ts);
      } else if r in all && Connected(Times(all), gap, s.start, r.ts) {
        var first :| first in s.held && first.ts == s.start;
        var c :| IsChain(Times(all), gap, c) && c[0] == s.start && c[|c| - 1] == r.ts;
        ChainStays(sessions, all, gap, s, first, c, r);
        assert false;
      }
    }
  }

  // ----- Absorbing one row --------------------------------------------------------------

  predicate Touches<A>(s: Span<A>, ts: int, gap: int) {
    s.start <= SatAdd(ts, gap) && s.end >= ts
  }

  ghost function Touching(sessions: set<Session>, ts: int, gap: int): set<Session> {
    set s | s in sessions && Touches(s, ts, gap)
  }

  function Fresh(row: Row, gap: int): Session {
    Span(row.ts, SatAdd(row.ts, gap), multiset{row})
  }

  /** Two sessions merged into one: earliest start, latest end, merged accumulators. */
  function Merge(a: Session, b: Session): Session {
    Span(Min(a.start, b.start), Max(a.end, b.end), a.held + b.held)
  }

  lemma SolidEnds(s: Session, gap: int)
    requires Solid(s, gap) && gap > 0
    ensures MIN < s.start <= MAX && s.start <= s.end <= MAX
    ensures s.end >= SatAdd(s.start, gap)
  {
    var r :| r in s.held && r.ts == s.start;
  }

  /** A row can bridge at most two sessions. */
  lemma TouchesAtMostTwo(sessions: set<Session>, all: multiset<Row>, gap: int, ts: int,
                         a: Session, b: Session, c: Session)
    requires Good(sessions, all, gap) && {a, b, c} <= sessions
    requires Touches(a, ts, gap) && Touches(b, ts, gap) && Touches(c, ts, gap)
    ensures a == b || b == c || a == c
  {
    SolidEnds(a, gap);
    SolidEnds(b, gap);
    SolidEnds(c, gap);
  }

  lemma TimesSum(a: multiset<Row>, b: multiset<Row>)
    ensures Times(a + b) == Times(a) + Times(b)
  {
    SameIntSet(Times(a + b), Times(a) + Times(b));
  }

  lemma FreshSolid(row: Row, gap: int)
    requires HasTime(row)
    ensures Solid(Fresh(row, gap), gap)
  {
    SameIntSet(Times(multiset{row}), {row.ts});
  }

  /** An event strictly inside a session's reach has a predecessor there. */
  lemma PriorWithin(s: Session, gap: int, ts: int)
    requires Solid(s, gap) && gap > 0 && s.start < ts <= MAX && s.end >= ts
    ensures ts in Times(s.held) || HasPrior(Times(s.held), gap, ts)
  {
    var times := Times(s.held);
    var above := set t | t in times && t > ts;
    if above == {} {
      var last := MaxOf(times);
      assert last in times && last !in above;
    } else {
      var u := MinOf(above);
      assert HasPrior(times, gap, u);
      var p :| p in times && u - gap <= p < u;
      assert p !in above;
    }
  }

  lemma ExtendTimes(s: Session, row: Row, gap: int)
    requires Times(s.held) != {}
    ensures var times := Times(Merge(s, Fresh(row, gap)).held);
            times == Times(s.held) + {row.ts} && MaxOf(times) == Max(MaxOf(Times(s.held)), row.ts)
  {
    TimesSum(s.held, multiset{row});
    SameIntSet(Times(multiset{row}), {row.ts});
  }

  lemma ExtendPrior(s: Session, row: Row, gap: int, t: int)
    requires Solid(s, gap) && HasTime(row) && gap > 0 && Touches(s, row.ts, gap)
    requires t in Times(s.held) + {row.ts} && t != Min(s.start, row.ts)
    ensures HasPrior(Times(s.held) + {row.ts}, gap, t)
  {
    var times := Times(s.held);
    if t == s.start {
      assert row.ts in times + {row.ts};
    } else {
      if t in times {
        assert HasPrior(times, gap, t);
      } else {
        PriorWithin(s, gap, t);
      }
      var p :| p in times && t - gap <= p < t;
      assert p in times + {row.ts};
    }
  }

  lemma ExtendSolid(s: Session, row: Row, gap: int)
    requires Solid(s, gap) && HasTime(row) && gap > 0 && Touches(s, row.ts, gap)
    ensures Solid(Merge(s, Fresh(row, gap)), gap)
  {
    var m := Merge(s, Fresh(row, gap));
    ExtendTimes(s, row, gap);
    forall t | t in Times(m.held) && t != m.start ensures HasPrior(Times(m.held), gap, t) {
      ExtendPrior(s, row, gap, t);
    }
  }

  lemma JoinSolid(a: Session, b: Session, gap: int)
    requires Solid(a, gap) && Solid(b, gap) && gap > 0
    requires MaxOf(Times(a.held)) < b.start <= MaxOf(Times(a.held)) + gap
    ensures Solid(Merge(a, b), gap)
  {
    var m := Merge(a, b);
    var ta, tb := Times(a.held), Times(b.held);
    TimesSum(a.held, b.held);
    assert MaxOf(Times(m.held)) == MaxOf(tb);
    forall t | t in Times(m.held) && t != m.start
      ensures HasPrior(Times(m.held), gap, t)
    {
      if t in ta {
        assert HasPrior(ta, gap, t);
        var p :| p in ta && t - gap <= p < t;
        assert p in Times(m.held);
      } else if t == b.start {
        assert MaxOf(ta) in Times(m.held);
      } else {
        assert HasPrior(tb, gap, t);
        var p :| p in tb && t - gap <= p < t;
        assert p in Times(m.held);
      }
    }
  }

  /** Two sessions bridged by a row: the row falls strictly between them. */
  lemma BridgeSolid(a: Session, b: Session, row: Row, gap: int)
    requires Solid(a, gap) && Solid(b, gap) && HasTime(row) && gap > 0
    requires Touches(a, row.ts, gap) && Touches(b, row.ts, gap) && a.end < b.start
    ensures Solid(Merge(Merge(a, Fresh(row, gap)), b), gap)
  {
    SolidEnds(a, gap);
    SolidEnds(b, gap);
    var m := Merge(a, Fresh(row, gap));
    ExtendSolid(a, row, gap);
    TimesSum(a.held, multiset{row});
    SameIntSet(Times(multiset{row}), {row.ts});
    assert Times(m.held) == Times(a.held) + {row.ts};
    assert MaxOf(Times(m.held)) == row.ts;
    JoinSolid(m, b, gap);
  }

  /** Start and end come from the row or from a session that goes. */
  ghost predicate TakesBounds(merged: Session, gone: set<Session>, row: Row, gap: int) {
    && (merged.start == row.ts || exists g :: g in gone && g.start == merged.start)
    && (merged.end == SatAdd(row.ts, gap) || exists g :: g in gone && g.end == merged.end)
  }

  /** The rows of the sessions that go, and the row. */
  ghost predicate TakesRows(merged: Session, gone: set<Session>, row: Row) {
    && row in merged.held
    && (forall g, r | g in gone && r in g.held ::
          merged.held[r] == g.held[r] + (if r == row then 1 else 0))
    && (forall r | r in merged.held && !Holds(gone, r) :: r == row && merged.held[r] == 1)
  }

  /** Replacing the touched sessions by one solid session holding them and the row. */
  ghost predicate Replaces(merged: Session, gone: set<Session>, row: Row, gap: int) {
    Solid(merged, gap) && TakesBounds(merged, gone, row, gap) && TakesRows(merged, gone, row)
  }

  lemma FreshReplaces(row: Row, gap: int)
    requires HasTime(row)
    ensures Replaces(Fresh(row, gap), {}, row, gap)
  {
    FreshSolid(row, gap);
  }

  lemma ExtendReplaces(a: Session, row: Row, gap: int)
    requires Solid(a, gap) && HasTime(row) && gap > 0 && Touches(a, row.ts, gap)
    ensures Replaces(Merge(a, Fresh(row, gap)), {a}, row, gap)
  {
    ExtendSolid(a, row, gap);
    assert a in {a};
  }

  lemma BridgeReplaces(a: Session, b: Session, row: Row, gap: int)
    requires Solid(a, gap) && Solid(b, gap) && HasTime(row) && gap > 0
    requires Touches(a, row.ts, gap) && Touches(b, row.ts, gap) && a.end < b.start
    ensures Replaces(Merge(Merge(a, Fresh(row, gap)), b), {a, b}, row, gap)
  {
    BridgeSolid(a, b, row, gap);
    BridgeBounds(a, b, row, gap);
    BridgeDisjoint(a, b, gap);
    BridgeCounts(a, b, row, gap);
  }

  lemma BridgeBounds(a: Session, b: Session, row: Row, gap: int)
    ensures TakesBounds(Merge(Merge(a, Fresh(row, gap)), b), {a, b}, row, gap)
  {
    assert a in {a, b} && b in {a, b};
  }

  lemma BridgeDisjoint(a: Session, b: Session, gap: int)
    requires Solid(a, gap) && Solid(b, gap) && a.end < b.start && gap > 0
    ensures a.held !! b.held
  {
    forall r | r in a.held && r in b.held ensures false {
      Within(a, gap, r);
      Within(b, gap, r);
    }
  }

  lemma BridgeCounts(a: Session, b: Session, row: Row, gap: int)
    requires a.held !! b.held
    ensures TakesRows(Merge(Merge(a, Fresh(row, gap)), b), {a, b}, row)
  {
    forall r: Row | !Holds({a, b}, r) ensures r !in a.held && r !in b.held {
      assert a in {a, b} && b in {a, b};
    }
  }

  lemma ReplaceApart(sessions: set<Session>, all: multiset<Row>, gap: int, row: Row, merged: Session, o: Session)
    requires Good(sessions, all, gap) && HasTime(row)
    requires Replaces(merged, Touching(sessions, row.ts, gap), row, gap)
    requires o in sessions && !Touches(o, row.ts, gap)
    ensures Apart(o, merged) && row !in o.held
  {
    SolidEnds(o, gap);
    forall g | g in sessions && Touches(g, row.ts, gap)
      ensures if o.end < row.ts then o.end < g.start else g.end < o.start
    {
      SolidEnds(g, gap);
      assert Apart(o, g);
    }
    if row in o.held { Within(o, gap, row); }
  }

  lemma ReplaceGood(sessions: set<Session>, all: multiset<Row>, gap: int, row: Row, merged: Session)
    requires Good(sessions, all, gap) && HasTime(row)
    requires Replaces(merged, Touching(sessions, row.ts, gap), row, gap)
    ensures Good(sessions - Touching(sessions, row.ts, gap) + {merged}, all + multiset{row}, gap)
  {
    ReplaceApartAll(sessions, all, gap, row, merged);
    ReplaceCounted(sessions, all, gap, row, merged);
    ReplaceHeld(sessions, all, gap, row, merged);
  }

  lemma ReplaceApartAll(sessions: set<Session>, all: multiset<Row>, gap: int, row: Row, merged: Session)
    requires Good(sessions, all, gap) && HasTime(row)
    requires Replaces(merged, Touching(sessions, row.ts, gap), row, gap)
    ensures AllApart(sessions - Touching(sessions, row.ts, gap) + {merged})
  {
    var gone := Touching(sessions, row.ts, gap);
    forall o | o in sessions && o !in gone ensures Apart(o, merged) {
      ReplaceApart(sessions, all, gap, row, merged, o);
    }
    ApartReplaced(sessions, gone, merged);
  }

  lemma ApartReplaced(sessions: set<Session>, gone: set<Session>, merged: Session)
    requires AllApart(sessions) && forall o | o in sessions && o !in gone :: Apart(o, merged)
    ensures AllApart(sessions - gone + {merged})
  {
  }

  lemma ReplaceCounted(sessions: set<Session>, all: multiset<Row>, gap: int, row: Row, merged: Session)
    requires Good(sessions, all, gap) && HasTime(row)
    requires Replaces(merged, Touching(sessions, row.ts, gap), row, gap)
    ensures AllCounted(sessions - Touching(sessions, row.ts, gap) + {merged}, all + multiset{row})
  {
    var gone := Touching(sessions, row.ts, gap);
    forall o | o in sessions && o !in gone ensures row !in o.held {
      ReplaceApart(sessions, all, gap, row, merged, o);
    }
    forall r | r in merged.held ensures merged.held[r] == (all + multiset{row})[r] {
      MergedCount(sessions, all, gap, row, merged, r);
    }
    CountedReplaced(sessions, gone, merged, all, row);
  }

  lemma CountedReplaced(sessions: set<Session>, gone: set<Session>, merged: Session, all: multiset<Row>, row: Row)
    requires AllCounted(sessions, all)
    requires forall o | o in sessions && o !in gone :: row !in o.held
    requires forall r | r in merged.held :: merged.held[r] == (all + multiset{row})[r]
    ensures AllCounted(sessions - gone + {merged}, all + multiset{row})
  {
  }

  lemma ReplaceHeld(sessions: set<Session>, all: multiset<Row>, gap: int, row: Row, merged: Session)
    requires Good(sessions, all, gap)
    requires Replaces(merged, Touching(sessions, row.ts, gap), row, gap)
    ensures AllHeld(sessions - Touching(sessions, row.ts, gap) + {merged}, all + multiset{row})
  {
    forall r | r in all + multiset{row}
      ensures Holds(sessions - Touching(sessions, row.ts, gap) + {merged}, r)
    {
      ReplaceHolds(sessions, all, gap, row, merged, r);
    }
  }

  lemma ReplaceHolds(sessions: set<Session>, all: multiset<Row>, gap: int, row: Row, merged: Session, r: Row)
    requires Good(sessions, all, gap) && (r == row || r in all)
    requires Replaces(merged, Touching(sessions, row.ts, gap), row, gap)
    ensures Holds(sessions - Touching(sessions, row.ts, gap) + {merged}, r)
  {
    var after := sessions - Touching(sessions, row.ts, gap) + {merged};
    assert merged in after;
    if r != row {
      assert Holds(sessions, r);
      var s :| s in sessions && r in s.held;
      if Touches(s, row.ts, gap) {
        assert r in merged.held;
      } else {
        assert s in after;
      }
    }
  }

  lemma MergedCount(sessions: set<Session>, all: multiset<Row>, gap: int, row: Row, merged: Session, r: Row)
    requires Good(sessions, all, gap) && HasTime(row) && r in merged.held
    requires Replaces(merged, Touching(sessions, row.ts, gap), row, gap)
    ensures merged.held[r] == (all + multiset{row})[r]
  {
    var gone := Touching(sessions, row.ts, gap);
    if Holds(gone, r) {
      var g :| g in gone && r in g.held;
    } else if r in all {
      assert Holds(sessions, r);
      var o :| o in sessions && r in o.held;
      ReplaceApart(sessions, all, gap, row, merged, o);
      assert false;
    }
  }
}
