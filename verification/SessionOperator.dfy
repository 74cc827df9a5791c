/** The session side of the window operator: state updated in place, row by row. */
module SessionOperator {
  import opened Int64
  import opened Collections
  import opened ScalarValues
  import opened ScalarCodec
  import opened Rows
  import opened SessionComponents
  import opened SessionWindows
  import opened SessionRuns
  import opened Accumulators
  import opened Snapshots
  import opened Restarts
  import opened SessionRestarts

  // ----- Ordering of emitted rows -------------------------------------------------------------

  predicate Ordered<A>(rows: seq<Emission<A>>) {
    forall i, j | 0 <= i < j < |rows| :: Earlier(rows[i], rows[j])
  }

  function Insert<A>(e: Emission<A>, rows: seq<Emission<A>>): seq<Emission<A>> {
    if rows == [] then [e]
    else if Earlier(rows[|rows| - 1], e) then rows + [e]
    else Insert(e, rows[..|rows| - 1]) + [rows[|rows| - 1]]
  }

  lemma {:induction false} InsertSame<A(!new)>(e: Emission<A>, rows: seq<Emission<A>>)
    ensures multiset(Insert(e, rows)) == multiset(rows) + multiset{e}
  {
    if rows == [] {
    } else {
      InsertSame(e, rows[..|rows| - 1]);
      assert rows == rows[..|rows| - 1] + [rows[|rows| - 1]];
    }
  }

  lemma {:induction false} InsertOrdered<A(!new)>(e: Emission<A>, rows: seq<Emission<A>>)
    requires Ordered(rows)
    ensures Ordered(Insert(e, rows))
  {
    if rows == [] {
    } else {
      var init, last := rows[..|rows| - 1], rows[|rows| - 1];
      if !Earlier(last, e) {
        InsertOrdered(e, init);
        forall i | 0 <= i < |Insert(e, init)| ensures Earlier(Insert(e, init)[i], last) {
          var x := InsertedFrom(e, init, i);
        }
      }
    }
  }

  /** A row after insertion is the new one or an old one. */
  lemma InsertedFrom<A(!new)>(e: Emission<A>, rows: seq<Emission<A>>, i: nat) returns (j: nat)
    requires i < |Insert(e, rows)|
    ensures Insert(e, rows)[i] == e || (j < |rows| && Insert(e, rows)[i] == rows[j])
  {
    j := 0;
    var q := Insert(e, rows);
    InsertSame(e, rows);
    assert q[i] in multiset(q);
    if q[i] != e {
      assert q[i] in multiset(rows);
      j :| j < |rows| && rows[j] == q[i];
    }
  }

  /** The rows of one window start and end, in order. */
  ghost function AtTime<A>(rows: seq<Emission<A>>, start: int, end: int): seq<Emission<A>> {
    if rows == [] then []
    else
      var last := rows[|rows| - 1];
      AtTime(rows[..|rows| - 1], start, end)
      + if last.session.start == start && last.session.end == end then [last] else []
  }

  ghost predicate SameTies<A(!new)>(rows: seq<Emission<A>>, out: seq<Emission<A>>) {
    forall start, end :: AtTime(out, start, end) == AtTime(rows, start, end)
  }

  lemma {:induction false} InsertTies<A(!new)>(e: Emission<A>, rows: seq<Emission<A>>, start: int, end: int)
    requires Ordered(rows)
    ensures AtTime(Insert(e, rows), start, end) == AtTime(rows + [e], start, end)
  {
    assert (rows + [e])[..|rows|] == rows;
    if rows == [] {
    } else {
      var init, last := rows[..|rows| - 1], rows[|rows| - 1];
      if !Earlier(last, e) {
        InsertTies(e, init, start, end);
        assert (init + [e])[..|init|] == init;
        assert Insert(e, rows)[..|Insert(e, rows)| - 1] == Insert(e, init);
      }
    }
  }

  lemma TiesMore<A(!new)>(rows: seq<Emission<A>>, out: seq<Emission<A>>, e: Emission<A>)
    requires SameTies(rows, out) && Ordered(out)
    ensures SameTies(rows + [e], Insert(e, out))
  {
    forall start, end ensures AtTime(Insert(e, out), start, end) == AtTime(rows + [e], start, end) {
      InsertTies(e, out, start, end);
      assert (rows + [e])[..|rows|] == rows && (out + [e])[..|out|] == out;
    }
  }

  /** Sort by window start and end, keeping the order of ties. */
  method SortByTime<A(!new)>(rows: seq<Emission<A>>) returns (out: seq<Emission<A>>)
    ensures Ordered(out) && multiset(out) == multiset(rows) && SameTies(rows, out)
  {
    out := [];
    for i := 0 to |rows|
      invariant Ordered(out) && multiset(out) == multiset(rows[..i]) && SameTies(rows[..i], out)
    {
      InsertOrdered(rows[i], out);
      InsertSame(rows[i], out);
      TiesMore(rows[..i], out, rows[i]);
      out := Insert(rows[i], out);
      assert rows[..i + 1] == rows[..i] + [rows[i]];
    }
    assert rows[..|rows|] == rows;
  }

  lemma {:induction false} DistinctMultiplicity<A(!new)>(rows: seq<Emission<A>>, e: Emission<A>)
    requires forall i, j | 0 <= i < j < |rows| :: rows[i] != rows[j]
    ensures multiset(rows)[e] <= 1
  {
    if rows == [] {
    } else {
      DistinctMultiplicity(rows[..|rows| - 1], e);
      assert rows == rows[..|rows| - 1] + [rows[|rows| - 1]];
    }
  }

  lemma DistinctFromMultiplicity<A(!new)>(out: seq<Emission<A>>, i: nat, j: nat)
    requires i < j < |out| && multiset(out)[out[i]] <= 1
    ensures out[i] != out[j]
  {
    assert out == out[..j] + [out[j]] + out[j + 1..];
    assert out[i] in out[..j];
  }

  lemma PermutedDistinct<A(!new)>(rows: seq<Emission<A>>, out: seq<Emission<A>>)
    requires multiset(out) == multiset(rows)
    requires forall i, j | 0 <= i < j < |rows| :: rows[i] != rows[j]
    ensures forall i, j | 0 <= i < j < |out| :: out[i] != out[j]
    ensures forall e :: e in out <==> e in rows
  {
    forall i, j | 0 <= i < j < |out| ensures out[i] != out[j] {
      DistinctMultiplicity(rows, out[i]);
      DistinctFromMultiplicity(out, i, j);
    }
    forall e ensures e in out <==> e in rows {
      assert e in out <==> e in multiset(out);
      assert e in rows <==> e in multiset(rows);
    }
  }

  // ----- The operator -----------------------------------------------------------------------------

  type Sessions = seq<SessionCheckpoint>

  datatype StateCheckpoint = StateCheckpoint(fingerprint: int, groups: seq<Entry<Sessions>>)

  function CountSessions(gs: seq<Entry<Sessions>>): nat {
    if gs == [] then 0 else CountSessions(gs[..|gs| - 1]) + |gs[|gs| - 1].value|
  }

  ghost predicate GroupsKeyed<A>(g: map<Key, Spans<A>>) {
    forall key | key in g :: WellKeyed(g[key]) && g[key] != map[]
  }

  class SessionWindowState<A(!new)> {
    const gap: int
    const lateness: int
    const acc: Accumulators<Row, A>
    const fingerprint: int
    var groups: map<Key, Spans<A>>

    ghost predicate Valid()
      reads this
    {
      GroupsKeyed(groups)
    }

    constructor (gap: int, lateness: int, acc: Accumulators<Row, A>, fingerprint: int)
      ensures Valid() && groups == map[]
      ensures this.gap == gap && this.lateness == lateness && this.acc == acc && this.fingerprint == fingerprint
    {
      this.gap, this.lateness, this.acc, this.fingerprint := gap, lateness, acc, fingerprint;
      groups := map[];
    }

    /** Rows are taken one at a time, in batch order. */
    method UpdateBatchSession(rows: seq<Row>)
      requires Valid()
      modifies this
      ensures Valid() && groups == UpdateRowsTo(acc, old(groups), rows, gap)
    {
      for i := 0 to |rows|
        invariant Valid() && groups == UpdateRowsTo(acc, old(groups), rows[..i], gap)
      {
        assert rows[..i + 1][..i] == rows[..i];
        if rows[i].ts != NULL_TIMESTAMP {
          UpdateSessionWindow(rows[i]);
        }
      }
      assert rows[..|rows|] == rows;
    }

    /** Absorb one row: start a session, extend one in place, or merge all it overlaps. */
    method UpdateSessionWindow(row: Row)
      requires Valid()
      modifies this
      ensures Valid()
      ensures groups == old(groups)[row.key := AbsorbTo(acc, SessionsAt(old(groups), row.key), row, gap)]
    {
      var newStart := row.ts;
      var newEnd := SatAdd(row.ts, gap);
      var m := SessionsAt(groups, row.key);
      var overlapping := SortedKeys(TouchedKeys(m, row.ts, gap));
      EnumerationUnique(overlapping, Enumerate(TouchedKeys(m, row.ts, gap)), TouchedKeys(m, row.ts, gap));
      var after: Spans<A>;
      if |overlapping| == 0 {
        after := m[newStart := Span(newStart, newEnd, acc.feed(acc.empty, [row]))];
        AbsorbAlone(acc, m, row, gap);
      } else if |overlapping| == 1 {
        after := ExtendOne(m, overlapping[0], row);
      } else {
        ghost var rest;
        after, rest := MergeMany(m, overlapping, row);
        AbsorbWithout(acc, rest, m, overlapping, row, gap);
      }
      AbsorbKeyed(acc, groups, row, gap);
      groups := groups[row.key := after];
    }

    method ExtendOne(m: Spans<A>, k: int, row: Row) returns (after: Spans<A>)
      requires Enumerate(TouchedKeys(m, row.ts, gap)) == [k]
      ensures after == AbsorbTo(acc, m, row, gap)
    {
      assert k in [k] && k in m;
      var sess := m[k];
      var mergedStart := Min(sess.start, row.ts);
      var mergedEnd := Max(sess.end, SatAdd(row.ts, gap));
      sess := Span(mergedStart, mergedEnd, acc.feed(sess.held, [row]));
      OnlyTouched(acc, m, k, row, gap);
      if mergedStart != k {
        after := (m - {k})[mergedStart := sess];
      } else {
        after := m[k := sess];
        SameIntMap(after, AbsorbTo(acc, m, row, gap));
      }
    }

    /** Remove every overlapped session, folding its accumulators into the first one's, and
        insert the result. */
    method MergeMany(m: Spans<A>, overlapping: seq<int>, row: Row) returns (after: Spans<A>, ghost rest: Spans<A>)
      requires |overlapping| > 1 && Ascending(overlapping)
      requires forall i | 0 <= i < |overlapping| :: overlapping[i] in m
      ensures Without(rest, m, overlapping)
      ensures var merged := Fed(acc, MergeSpans(acc, m, overlapping, row, gap), row);
              after == rest[merged.start := merged]
    {
      var mergedStart, mergedEnd := row.ts, SatAdd(row.ts, gap);
      var survivor: Option<A> := None;
      after := m;
      for i := 0 to |overlapping|
        invariant Merging(acc, m, overlapping, i, row, gap, after, mergedStart, mergedEnd, survivor)
      {
        var k := overlapping[i];
        MergingStep(acc, m, overlapping, i, row, gap, after, mergedStart, mergedEnd, survivor);
        var sess := after[k];
        after := after - {k};
        mergedStart := Min(mergedStart, sess.start);
        mergedEnd := Max(mergedEnd, sess.end);
        if survivor.Some? {
          survivor := Some(acc.combine(survivor.value, sess.held));
        } else {
          survivor := Some(sess.held);
        }
      }
      assert overlapping[..|overlapping|] == overlapping;
      rest := after;
      after := after[mergedStart := Span(mergedStart, mergedEnd, acc.feed(survivor.value, [row]))];
    }

    /** Close every session whose end plus lateness has passed, drop emptied groups, and hand
        out the closed sessions ordered by window start and end. */
    method CloseSessionWindows(watermark: int) returns (out: seq<Emission<A>>)
      requires Valid()
      modifies this
      ensures Valid() && groups == CloseGroups(old(groups), lateness, watermark)
      ensures IsOutput(out, old(groups), lateness, watermark)
      ensures forall log: seq<Emission<A>>, w: int ::
                CloseNext(Config(gap, lateness), Operator(old(groups), log, w), watermark,
                          Operator(groups, log + out, Max(w, watermark)))
      ensures forall key, k :: key in groups && k in groups[key] <==>
                key in old(groups) && k in old(groups)[key] && watermark < SatAdd(old(groups)[key][k].end, lateness)
      ensures forall i, j | 0 <= i < j < |out| ::
                || out[i].session.start < out[j].session.start
                || (out[i].session.start == out[j].session.start && out[i].session.end <= out[j].session.end)
    {
      ghost var before: map<Key, Spans<A>> := groups;
      forall key: Key, k: int
        ensures var after := CloseGroups(before, lateness, watermark);
                key in after && k in after[key] <==>
                key in before && k in before[key] && watermark < SatAdd(before[key][k].end, lateness)
      {
        OpenAfterClose(before, lateness, watermark, key, k);
      }
      if forall key | key in groups ::
           forall k | k in groups[key] :: !Closable(groups[key][k], lateness, watermark)
      {
        NothingExpires(groups, lateness, watermark);
        ClosesAnyway(before, [], watermark);
        return [];
      }
      var rows, emptied := DrainGroups(watermark);
      HalfClosedEnd(groups, emptied, before, lateness, watermark);
      groups := groups - emptied;
      out := SortByTime(rows);
      DrainedOutput(rows, out, before, lateness, watermark);
      ClosesAnyway(before, out, watermark);
    }

    lemma ClosesAnyway(before: map<Key, Spans<A>>, out: seq<Emission<A>>, watermark: int)
      requires IsOutput(out, before, lateness, watermark)
      ensures forall log: seq<Emission<A>>, w: int ::
                CloseNext(Config(gap, lateness), Operator(before, log, w), watermark,
                          Operator(CloseGroups(before, lateness, watermark), log + out, Max(w, watermark)))
    {
      forall log: seq<Emission<A>>, w: int
        ensures CloseNext(Config(gap, lateness), Operator(before, log, w), watermark,
                          Operator(CloseGroups(before, lateness, watermark), log + out, Max(w, watermark)))
      {
        CloseIsNext(Config(gap, lateness), Operator(before, log, w), watermark, out);
      }
    }

    /** Visit the groups in hash order, taking out their expired sessions. */
    method DrainGroups(watermark: int) returns (rows: seq<Emission<A>>, emptied: set<Key>)
      requires Valid()
      modifies this
      ensures HalfClosed(groups, emptied, old(groups), {}, lateness, watermark)
      ensures Drained(rows, old(groups), old(groups).Keys, lateness, watermark)
    {
      ghost var before := groups;
      rows, emptied := [], {};
      var todo := groups.Keys;
      while todo != {}
        invariant todo <= before.Keys
        invariant HalfClosed(groups, emptied, before, todo, lateness, watermark)
        invariant Drained(rows, before, before.Keys - todo, lateness, watermark)
        decreases todo
      {
        var key :| key in todo;
        var kept, closed := DrainExpired(key, groups[key], watermark);
        DrainedMore(rows, closed, before, before.Keys - todo, key, lateness, watermark);
        assert before.Keys - todo + {key} == before.Keys - (todo - {key});
        HalfClosedStep(groups, emptied, before, todo, key, lateness, watermark);
        rows := rows + closed;
        groups := groups[key := kept];
        if |kept| == 0 {
          emptied := emptied + {key};
        }
        todo := todo - {key};
      }
      assert before.Keys - todo == before.Keys;
    }

    /** Remove the expired sessions of one group, in key order. */
    method DrainExpired(key: Key, m: Spans<A>, watermark: int)
      returns (kept: Spans<A>, closed: seq<Emission<A>>)
      requires WellKeyed(m)
      ensures kept == KeepOpen(m, lateness, watermark)
      ensures IsDrain(key, m, lateness, watermark, closed)
    {
      var expired := set k | k in m && Closable(m[k], lateness, watermark);
      var toClose := SortedKeys(expired);
      kept, closed := m, [];
      for i := 0 to |toClose|
        invariant Without(kept, m, toClose[..i])
        invariant |closed| == i
        invariant forall j | 0 <= j < i :: toClose[j] in m && closed[j] == Emission(key, m[toClose[j]])
      {
        TakeOne(toClose, i);
        assert toClose[i] in toClose;
        WithoutStep(kept, m, toClose[..i], toClose[i]);
        var sess := kept[toClose[i]];
        kept := kept - {toClose[i]};
        closed := closed + [Emission(key, sess)];
      }
      assert toClose[..|toClose|] == toClose;
      SameIntMap(kept, KeepOpen(m, lateness, watermark));
      DrainedKeys(key, m, toClose, closed, lateness, watermark);
    }

    /** Serialise all groups, in hash order; sessions within a group in key order. */
    method CheckpointWindows() returns (cp: StateCheckpoint, ghost keys: seq<Key>)
      requires Valid()
      ensures cp.fingerprint == fingerprint
      ensures Lists(SpanSaver(acc), cp.groups, groups, keys)
      ensures forall i | 0 <= i < |cp.groups| :: cp.groups[i].value != []
    {
      var state: seq<Entry<Sessions>> := [];
      keys := [];
      var todo := groups.Keys;
      while todo != {}
        invariant todo <= groups.Keys
        invariant forall k :: k in keys <==> k in groups && k !in todo
        invariant Listed(acc, state, groups, keys)
        decreases todo
      {
        var key :| key in todo;
        var sessions := CheckpointGroup(groups[key]);
        state := state + [Entry(EncodeAll(key), sessions)];
        keys := keys + [key];
        todo := todo - {key};
      }
      cp := StateCheckpoint(fingerprint, state);
    }

    method CheckpointGroup(m: Spans<A>) returns (cs: Sessions)
      requires m != map[]
      ensures cs == SaveSpans(acc, m) && cs != []
    {
      var ks := SortedKeys(m.Keys);
      EnumerationUnique(ks, Enumerate(m.Keys), m.Keys);
      cs := [];
      for i := 0 to |ks|
        invariant |cs| == i
        invariant forall j | 0 <= j < i :: ks[j] in m && cs[j] == SaveSpan(acc, m[ks[j]])
      {
        assert ks[i] in ks;
        cs := cs + [SaveSpan(acc, m[ks[i]])];
      }
      if ks == [] {
        SameIntMap(m, map[]);
      }
    }

    /** A fingerprint mismatch touches nothing; otherwise the groups are rebuilt entry by entry,
        and a key or a state that cannot be read leaves the entries before it in place. The
        operator can go on with any checkpoint it wrote itself. */
    method RestoreWindows(cp: StateCheckpoint) returns (r: Result<nat>)
      requires Valid()
      modifies this
      ensures (forall i | 0 <= i < |cp.groups| :: cp.groups[i].value != []) ==> Valid()
      ensures cp.fingerprint != fingerprint ==> r.Failure? && groups == old(groups)
      ensures cp.fingerprint == fingerprint && Restore(SpanLoader(acc), cp.groups).Success? ==>
                r == Success(CountSessions(cp.groups)) && Restore(SpanLoader(acc), cp.groups) == Success(groups)
      ensures cp.fingerprint == fingerprint && Restore(SpanLoader(acc), cp.groups).Failure? ==>
                r.Failure? && exists n: nat :: StoppedAt(SpanLoader(acc), cp.groups, n, groups)
    {
      if cp.fingerprint != fingerprint {
        return Failure("checkpoint fingerprint mismatch");
      }
      groups := map[];
      var total := 0;
      for i := 0 to |cp.groups|
        invariant Restore(SpanLoader(acc), cp.groups[..i]) == Success(groups)
        invariant (forall j | 0 <= j < i :: cp.groups[j].value != []) ==> Valid()
        invariant total == CountSessions(cp.groups[..i])
      {
        RestoreMore(SpanLoader(acc), cp.groups, i, groups);
        assert cp.groups[..i + 1][..i] == cp.groups[..i];
        var entry := cp.groups[i];
        var key := DecodeAll(entry.key);
        if key.Failure? {
          RestoreFails(SpanLoader(acc), cp.groups, i);
          assert StoppedAt(SpanLoader(acc), cp.groups, i, groups);
          return Failure(key.error);
        }
        var sessions := RestoreGroup(entry.value);
        if sessions.Failure? {
          RestoreFails(SpanLoader(acc), cp.groups, i);
          assert StoppedAt(SpanLoader(acc), cp.groups, i, groups);
          return Failure(sessions.error);
        }
        LoadedKeyed(acc, entry.value);
        groups := groups[key.value := sessions.value];
        total := total + |entry.value|;
      }
      assert cp.groups[..|cp.groups|] == cp.groups;
      r := Success(total);
    }

    method RestoreGroup(cs: Sessions) returns (r: Result<Spans<A>>)
      ensures r.Success? <==> LoadSpans(acc, cs).Success?
      ensures r.Success? ==> r == LoadSpans(acc, cs)
    {
      var sessions: Spans<A> := map[];
      for j := 0 to |cs|
        invariant LoadSpans(acc, cs[..j]) == Success(sessions)
      {
        assert cs[..j + 1][..j] == cs[..j];
        var held := LoadStates(acc, cs[j].states);
        if held.Failure? {
          SpansFail(acc, cs, j);
          return Failure(held.error);
        }
        sessions := sessions[cs[j].start := Span(cs[j].start, cs[j].end, held.value)];
      }
      assert cs[..|cs|] == cs;
      r := Success(sessions);
    }
  }

  /** Bounds and accumulators after the overlapped sessions at `ks`. */
  ghost predicate IsMerge<A(!new)>(acc: Accumulators<Row, A>, m: Spans<A>, ks: seq<int>, row: Row, gap: int,
                                   start: int, end: int, survivor: Option<A>)
    requires forall i | 0 <= i < |ks| :: ks[i] in m
  {
    var merged := MergeSpans(acc, m, ks, row, gap);
    && merged.start == start && merged.end == end
    && (survivor.None? <==> ks == []) && (survivor.Some? ==> merged.held == survivor.value)
  }

  /** The first `i` of the keys are taken out of the map and merged. */
  ghost predicate Merging<A(!new)>(acc: Accumulators<Row, A>, m: Spans<A>, ks: seq<int>, i: nat, row: Row, gap: int,
                                   after: Spans<A>, start: int, end: int, survivor: Option<A>)
    requires i <= |ks| && forall j | 0 <= j < |ks| :: ks[j] in m
  {
    Without(after, m, ks[..i]) && IsMerge(acc, m, ks[..i], row, gap, start, end, survivor)
  }

  lemma MergingStep<A(!new)>(acc: Accumulators<Row, A>, m: Spans<A>, ks: seq<int>, i: nat, row: Row, gap: int,
                             after: Spans<A>, start: int, end: int, survivor: Option<A>)
    requires i < |ks| && Ascending(ks) && forall j | 0 <= j < |ks| :: ks[j] in m
    requires Merging(acc, m, ks, i, row, gap, after, start, end, survivor)
    ensures ks[i] in after && after[ks[i]] == m[ks[i]]
    ensures Merging(acc, m, ks, i + 1, row, gap, after - {ks[i]}, Min(start, m[ks[i]].start), Max(end, m[ks[i]].end),
                    Some(if survivor.Some? then acc.combine(survivor.value, m[ks[i]].held) else m[ks[i]].held))
  {
    TakeOne(ks, i);
    WithoutStep(after, m, ks[..i], ks[i]);
    MergeStep(acc, m, ks[..i], ks[i], row, gap, start, end, survivor);
  }

  lemma MergeStep<A(!new)>(acc: Accumulators<Row, A>, m: Spans<A>, ks: seq<int>, k: int, row: Row, gap: int,
                           start: int, end: int, survivor: Option<A>)
    requires k in m && (forall i | 0 <= i < |ks| :: ks[i] in m) && IsMerge(acc, m, ks, row, gap, start, end, survivor)
    ensures IsMerge(acc, m, ks + [k], row, gap, Min(start, m[k].start), Max(end, m[k].end),
                    Some(if survivor.Some? then acc.combine(survivor.value, m[k].held) else m[k].held))
  {
    assert (ks + [k])[..|ks|] == ks;
  }

  lemma OnlyTouched<A(!new)>(acc: Accumulators<Row, A>, m: Spans<A>, k: int, row: Row, gap: int)
    requires Enumerate(TouchedKeys(m, row.ts, gap)) == [k] && k in m
    ensures TouchedKeys(m, row.ts, gap) == {k}
    ensures MergedSpan(acc, m, row, gap) ==
            Span(Min(m[k].start, row.ts), Max(m[k].end, SatAdd(row.ts, gap)), acc.feed(m[k].held, [row]))
  {
    forall x ensures x in TouchedKeys(m, row.ts, gap) <==> x in {k} {
      assert x in TouchedKeys(m, row.ts, gap) <==> x in [k];
    }
    SameIntSet(TouchedKeys(m, row.ts, gap), {k});
    MergeOneSpan(acc, m, k, row, gap);
  }

  lemma MergeOneSpan<A>(acc: Accumulators<Row, A>, m: Spans<A>, k: int, row: Row, gap: int)
    requires k in m
    ensures MergeSpans(acc, m, [k], row, gap) ==
            Span(Min(m[k].start, row.ts), Max(m[k].end, SatAdd(row.ts, gap)), m[k].held)
  {
    assert [k][..0] == [];
    assert MergeSpans(acc, m, [k][..0], row, gap) == Span(row.ts, SatAdd(row.ts, gap), acc.empty);
  }

  lemma {:induction false} SpansFail<A(!new)>(acc: Accumulators<Row, A>, cs: Sessions, j: nat)
    requires j < |cs| && LoadStates(acc, cs[j].states).Failure?
    ensures LoadSpans(acc, cs).Failure?
    decreases |cs|
  {
    if j == |cs| - 1 {
    } else {
      SpansFail(acc, cs[..|cs| - 1], j);
    }
  }

  ghost predicate Listed<A(!new)>(acc: Accumulators<Row, A>, state: seq<Entry<Sessions>>, g: map<Key, Spans<A>>,
                                  keys: seq<Key>) {
    && |state| == |keys|
    && (forall i, j | 0 <= i < j < |keys| :: keys[i] != keys[j])
    && (forall i | 0 <= i < |keys| ::
          keys[i] in g && state[i] == Entry(EncodeAll(keys[i]), SaveSpans(acc, g[keys[i]])) && state[i].value != [])
  }

  /** The expired sessions of one group, each once. */
  ghost predicate IsDrain<A(!new)>(key: Key, m: Spans<A>, lateness: int, watermark: int, closed: seq<Emission<A>>) {
    && (forall e :: e in closed <==> e.key == key && e.session in m.Values && Closable(e.session, lateness, watermark))
    && (forall i, j | 0 <= i < j < |closed| :: closed[i] != closed[j])
  }

  ghost predicate Drained<A(!new)>(rows: seq<Emission<A>>, g: map<Key, Spans<A>>, done: set<Key>, lateness: int, watermark: int) {
    && (forall e :: e in rows <==> e.key in done && Expires(e, g, lateness, watermark))
    && (forall i, j | 0 <= i < j < |rows| :: rows[i] != rows[j])
  }

  lemma DrainedMore<A(!new)>(rows: seq<Emission<A>>, closed: seq<Emission<A>>, g: map<Key, Spans<A>>, done: set<Key>, key: Key,
                    lateness: int, watermark: int)
    requires Drained(rows, g, done, lateness, watermark) && key in g && key !in done
    requires IsDrain(key, g[key], lateness, watermark, closed)
    ensures Drained(rows + closed, g, done + {key}, lateness, watermark)
  {
    var all := rows + closed;
    forall i, j | 0 <= i < j < |all| ensures all[i] != all[j] {
      if i < |rows| <= j {
        assert rows[i] in rows && closed[j - |rows|] in closed;
      }
    }
  }

  lemma DrainedOutput<A(!new)>(rows: seq<Emission<A>>, out: seq<Emission<A>>, g: map<Key, Spans<A>>, lateness: int, watermark: int)
    requires Drained(rows, g, g.Keys, lateness, watermark)
    requires Ordered(out) && multiset(out) == multiset(rows)
    ensures IsOutput(out, g, lateness, watermark)
  {
    PermutedDistinct(rows, out);
  }

  /** Groups outside `todo` have lost their expired sessions; `emptied` are those left with none. */
  ghost predicate HalfClosed<A(!new)>(g: map<Key, Spans<A>>, emptied: set<Key>, before: map<Key, Spans<A>>, todo: set<Key>,
                             lateness: int, watermark: int) {
    && g.Keys == before.Keys
    && (forall key | key in before ::
          g[key] == if key in todo then before[key] else KeepOpen(before[key], lateness, watermark))
    && emptied == set key | key in before && key !in todo && KeepOpen(before[key], lateness, watermark) == map[]
  }

  lemma HalfClosedStep<A(!new)>(g: map<Key, Spans<A>>, emptied: set<Key>, before: map<Key, Spans<A>>, todo: set<Key>, key: Key,
                       lateness: int, watermark: int)
    requires HalfClosed(g, emptied, before, todo, lateness, watermark) && key in todo && key in before
    ensures var kept := KeepOpen(before[key], lateness, watermark);
            HalfClosed(g[key := kept], if kept == map[] then emptied + {key} else emptied,
                       before, todo - {key}, lateness, watermark)
  {
  }

  lemma HalfClosedEnd<A(!new)>(g: map<Key, Spans<A>>, emptied: set<Key>, before: map<Key, Spans<A>>, lateness: int, watermark: int)
    requires GroupsKeyed(before) && HalfClosed(g, emptied, before, {}, lateness, watermark)
    ensures g - emptied == CloseGroups(before, lateness, watermark)
    ensures GroupsKeyed(CloseGroups(before, lateness, watermark))
  {
  }

  lemma DrainedKeys<A(!new)>(key: Key, m: Spans<A>, ks: seq<int>, closed: seq<Emission<A>>, lateness: int, watermark: int)
    requires WellKeyed(m) && |closed| == |ks|
    requires Enumerates(ks, set k | k in m && Closable(m[k], lateness, watermark))
    requires forall j | 0 <= j < |ks| :: ks[j] in m && closed[j] == Emission(key, m[ks[j]])
    ensures IsDrain(key, m, lateness, watermark, closed)
  {
    forall e: Emission<A> | e.key == key && e.session in m.Values && Closable(e.session, lateness, watermark)
      ensures e in closed
    {
      var k := KeyOf(m, e.session);
      assert k in ks;
      var j :| 0 <= j < |ks| && ks[j] == k;
      assert closed[j] == e;
    }
    forall j | 0 <= j < |ks|
      ensures closed[j].key == key && closed[j].session in m.Values
      ensures Closable(closed[j].session, lateness, watermark)
    {
      assert ks[j] in ks;
    }
  }

  lemma NothingExpires<A(!new)>(g: map<Key, Spans<A>>, lateness: int, watermark: int)
    requires GroupsKeyed(g)
    requires forall key | key in g :: forall k | k in g[key] :: !Closable(g[key][k], lateness, watermark)
    ensures CloseGroups(g, lateness, watermark) == g && IsOutput([], g, lateness, watermark)
  {
    forall key | key in g ensures KeepOpen(g[key], lateness, watermark) == g[key] {
      SameIntMap(KeepOpen(g[key], lateness, watermark), g[key]);
    }
    forall e | Expires(e, g, lateness, watermark) ensures false {
      var k := KeyOf(SessionsAt(g, e.key), e.session);
    }
  }

  ghost predicate Without<A>(after: Spans<A>, m: Spans<A>, gone: seq<int>) {
    && (forall k :: k in after <==> k in m && k !in gone)
    && (forall k | k in after :: after[k] == m[k])
  }

  lemma WithoutStep<A(!new)>(after: Spans<A>, m: Spans<A>, gone: seq<int>, k: int)
    requires Without(after, m, gone) && k in m && k !in gone
    ensures k in after && Without(after - {k}, m, gone + [k])
  {
  }

  lemma AbsorbWithout<A(!new)>(acc: Accumulators<Row, A>, rest: Spans<A>, m: Spans<A>, gone: seq<int>, row: Row, gap: int)
    requires Enumerate(TouchedKeys(m, row.ts, gap)) == gone && Without(rest, m, gone)
    ensures AbsorbTo(acc, m, row, gap) ==
            rest[MergedSpan(acc, m, row, gap).start := MergedSpan(acc, m, row, gap)]
  {
    SameIntMap(rest, m - TouchedKeys(m, row.ts, gap));
  }

  lemma AbsorbAlone<A(!new)>(acc: Accumulators<Row, A>, m: Spans<A>, row: Row, gap: int)
    requires Enumerate(TouchedKeys(m, row.ts, gap)) == []
    ensures AbsorbTo(acc, m, row, gap) ==
            m[row.ts := Span(row.ts, SatAdd(row.ts, gap), acc.feed(acc.empty, [row]))]
  {
    SameIntSet(TouchedKeys(m, row.ts, gap), {});
    assert m - {} == m;
  }

  lemma AbsorbKeyed<A(!new)>(acc: Accumulators<Row, A>, g: map<Key, Spans<A>>, row: Row, gap: int)
    requires GroupsKeyed(g)
    ensures GroupsKeyed(g[row.key := AbsorbTo(acc, SessionsAt(g, row.key), row, gap)])
  {
    var m := SessionsAt(g, row.key);
    assert WellKeyed(m);
    assert MergedSpan(acc, m, row, gap).start in AbsorbTo(acc, m, row, gap);
  }

  lemma LoadedKeyed<A(!new)>(acc: Accumulators<Row, A>, cs: seq<SessionCheckpoint>)
    requires LoadSpans(acc, cs).Success?
    ensures WellKeyed(LoadSpans(acc, cs).value) && (cs != [] ==> LoadSpans(acc, cs).value != map[])
  {
    if cs == [] {
    } else {
      LoadedKeyed(acc, cs[..|cs| - 1]);
      assert cs[|cs| - 1].start in LoadSpans(acc, cs).value;
    }
  }
}
