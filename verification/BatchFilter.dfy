/** The timestamp filter in front of the window operators: rows are compared with a watermark in
    the unit of their column, and the operators later read the column in milliseconds. */
module BatchFilter {
  import opened Int64
  import opened ScalarValues
  import opened Rows
  import opened WindowAssigner
  import FixedWindows
  import SessionRuns

  datatype Unit = Second | Milli | Micro | Nano

  /** A timestamp-typed column, an integer column declared in some unit, or a column the filter
      lets through as it is. */
  datatype Format = Native(unit: Unit) | Epoch(unit: Unit) | Unfiltered

  datatype ThresholdOp = GreaterEq | Less

  /** The watermark in the column's unit: floor division to seconds, saturating otherwise. */
  function Threshold(u: Unit, watermark: int): int {
    match u
    case Milli => watermark
    case Second => watermark / 1000
    case Micro => SatMul(watermark, 1000)
    case Nano => SatMul(watermark, 1_000_000)
  }

  predicate Keeps(op: ThresholdOp, f: Format, watermark: int, v: int) {
    if f.Unfiltered? then true
    else if op.GreaterEq? then v >= Threshold(f.unit, watermark)
    else v < Threshold(f.unit, watermark)
  }

  /** What the window operators take as event time; integer columns are read as they are. */
  function EventTime(f: Format, v: int): int {
    match f
    case Native(Second) => SatMul(v, 1000)
    case Native(Micro) => TruncDiv(v, 1000)
    case Native(Nano) => TruncDiv(v, 1_000_000)
    case _ => v
  }

  // ----- Splitting a batch ------------------------------------------------------------------------------

  /** Positions of the rows that stay; a null timestamp never does, unless nothing is filtered. */
  function Positions(op: ThresholdOp, f: Format, watermark: int, column: seq<Option<int>>): seq<nat> {
    if column == [] then []
    else
      var n := |column| - 1;
      var stays := f.Unfiltered? || (column[n].Some? && Keeps(op, f, watermark, column[n].value));
      Positions(op, f, watermark, column[..n]) + (if stays then [n] else [])
  }

  /** An empty result is reported as no batch. */
  function FilterBatch(op: ThresholdOp, f: Format, watermark: int, column: seq<Option<int>>): Option<seq<nat>> {
    var kept := Positions(op, f, watermark, column);
    if f.Unfiltered? || kept != [] then Some(kept) else None
  }

  ghost predicate Stays(op: ThresholdOp, f: Format, watermark: int, column: seq<Option<int>>, i: nat) {
    exists k :: 0 <= k < |Positions(op, f, watermark, column)| && Positions(op, f, watermark, column)[k] == i
  }

  lemma {:induction false} PositionsMember(op: ThresholdOp, f: Format, watermark: int, column: seq<Option<int>>, i: nat)
    requires !f.Unfiltered?
    ensures Stays(op, f, watermark, column, i) <==>
            i < |column| && column[i].Some? && Keeps(op, f, watermark, column[i].value)
  {
    if column == [] {
    } else {
      var n := |column| - 1;
      PositionsMember(op, f, watermark, column[..n], i);
      var p, rest := Positions(op, f, watermark, column), Positions(op, f, watermark, column[..n]);
      assert forall k | 0 <= k < |rest| :: p[k] == rest[k];
      if Stays(op, f, watermark, column, i) {
        var k :| 0 <= k < |p| && p[k] == i;
        assert k < |rest| ==> rest[k] == i && Stays(op, f, watermark, column[..n], i);
      }
      if Stays(op, f, watermark, column[..n], i) {
        var k :| 0 <= k < |rest| && rest[k] == i;
        assert p[k] == i;
      }
      if i == n && column[n].Some? && Keeps(op, f, watermark, column[n].value) {
        assert p[|rest|] == n;
      }
    }
  }

  /** A column the filter cannot read comes out whole and in order, empty or not, nulls included. */
  lemma UnfilteredWhole(op: ThresholdOp, watermark: int, column: seq<Option<int>>)
    ensures var kept := FilterBatch(op, Unfiltered, watermark, column);
            kept.Some? && |kept.value| == |column| && forall i | 0 <= i < |column| :: kept.value[i] == i
  {
    AllPositions(op, watermark, column);
  }

  lemma {:induction false} AllPositions(op: ThresholdOp, watermark: int, column: seq<Option<int>>)
    ensures var p := Positions(op, Unfiltered, watermark, column);
            |p| == |column| && forall i | 0 <= i < |column| :: p[i] == i
  {
    if column == [] {
    } else {
      AllPositions(op, watermark, column[..|column| - 1]);
    }
  }

  /** No batch comes out exactly when no row stays. */
  lemma NoBatchExact(op: ThresholdOp, f: Format, watermark: int, column: seq<Option<int>>)
    requires !f.Unfiltered?
    ensures FilterBatch(op, f, watermark, column).None? <==>
            forall i: nat | i < |column| && column[i].Some? :: !Keeps(op, f, watermark, column[i].value)
  {
    var p := Positions(op, f, watermark, column);
    if p != [] {
      PositionsMember(op, f, watermark, column, p[0]);
      assert Stays(op, f, watermark, column, p[0]);
    }
    forall i: nat | i < |column| && column[i].Some? && Keeps(op, f, watermark, column[i].value) ensures p != [] {
      PositionsMember(op, f, watermark, column, i);
    }
  }

  /** Rows that stay keep their order. */
  lemma {:induction false} PositionsOrdered(op: ThresholdOp, f: Format, watermark: int, column: seq<Option<int>>)
    ensures InOrder(Positions(op, f, watermark, column), |column|)
  {
    if column == [] {
    } else {
      PositionsOrdered(op, f, watermark, column[..|column| - 1]);
    }
  }

  ghost predicate InOrder(p: seq<nat>, n: nat) {
    (forall k | 0 <= k < |p| :: p[k] < n) && (forall k, m | 0 <= k < m < |p| :: p[k] < p[m])
  }

  /** At one cut the two comparisons share out the rows: every row with a timestamp is on exactly
      one side, whatever the unit and even when the threshold saturates. */
  lemma FilterPartitions(f: Format, cut: int, column: seq<Option<int>>, i: nat)
    requires !f.Unfiltered? && i < |column|
    ensures column[i].Some? ==> (Stays(GreaterEq, f, cut, column, i) <==> !Stays(Less, f, cut, column, i))
    ensures column[i].None? ==> !Stays(GreaterEq, f, cut, column, i) && !Stays(Less, f, cut, column, i)
  {
    PositionsMember(GreaterEq, f, cut, column, i);
    PositionsMember(Less, f, cut, column, i);
  }

  // ----- Kept rows are on time -------------------------------------------------------------------------

  /** Watermarks at which a kept row is never behind the watermark. */
  predicate Guaranteed(f: Format, watermark: int) {
    match f
    case Native(Milli) => true
    case Native(Second) => watermark % 1000 == 0 || watermark == MIN
    case Native(Micro) => watermark <= MAX / 1000
    case Native(Nano) => watermark <= MAX / 1_000_000
    case Epoch(Milli) => true
    case Epoch(Second) => watermark <= 0
    case Epoch(_) => watermark >= 0 || watermark == MIN
    case Unfiltered => watermark <= MIN
  }

  /** A kept value whose event time is behind the watermark. */
  ghost predicate Late(f: Format, watermark: int, v: int) {
    Is(v) && Keeps(GreaterEq, f, watermark, v) && EventTime(f, v) < watermark
  }

  /** The filter keeps no late row exactly at the guaranteed watermarks. */
  lemma KeptOnTimeExact(f: Format, watermark: int)
    requires Is(watermark)
    ensures Guaranteed(f, watermark) <==> forall v :: !Late(f, watermark, v)
  {
    if Guaranteed(f, watermark) {
      forall v ensures !Late(f, watermark, v) {
        KeptOnTime(f, watermark, v);
      }
    } else {
      var v := LateValue(f, watermark);
      LateIsLate(f, watermark);
      assert Late(f, watermark, v);
    }
  }

  lemma KeptOnTime(f: Format, watermark: int, v: int)
    requires Is(watermark) && Guaranteed(f, watermark)
    ensures !Late(f, watermark, v)
  {
  }

  /** A value that slips through below a watermark that is not guaranteed. */
  function LateValue(f: Format, watermark: int): int {
    match f
    case Native(Second) => watermark / 1000
    case Epoch(Second) => watermark / 1000
    case Epoch(u) => Threshold(u, watermark)
    case Unfiltered => MIN
    case _ => MAX
  }

  lemma LateIsLate(f: Format, watermark: int)
    requires Is(watermark) && !Guaranteed(f, watermark)
    ensures Late(f, watermark, LateValue(f, watermark))
  {
  }

  // ----- With fixed windows ------------------------------------------------------------------------------

  /** A kept row never lands in a window already expired at the watermark. */
  lemma KeptRowOpen(c: FixedWindows.Config, f: Format, watermark: int, v: int, r: Row, ws: int)
    requires c.Valid() && Is(watermark) && watermark < MAX && Guaranteed(f, watermark)
    requires Is(v) && Keeps(GreaterEq, f, watermark, v)
    requires r.ts == EventTime(f, v) && HasTime(r) && InWindow(c.assigner, ws, r.ts)
    ensures !FixedWindows.Expired(c, ws, watermark)
  {
    KeptOnTime(f, watermark, v);
    FixedWindows.OnTimeOpen(c, watermark, r, ws);
  }

  /** For second columns the floor can let a late row through: some watermark keeps the row and
      has its window expired, exactly when the window ends, lateness included, less than a
      second after the row. */
  lemma SecondRowExact(c: FixedWindows.Config, v: int, ws: int)
    requires c.Valid() && Is(v * 1000) && Is(v) && InWindow(c.assigner, ws, v * 1000)
    requires Is(ws) && Is(ws + c.assigner.size + c.lateness) && Is(ws + c.assigner.size)
    ensures (exists w :: Is(w) && Keeps(GreaterEq, Native(Second), w, v) && FixedWindows.Expired(c, ws, w)) <==>
            ws + c.assigner.size + c.lateness < v * 1000 + 1000
  {
    var end := ws + c.assigner.size + c.lateness;
    if end < v * 1000 + 1000 {
      assert Keeps(GreaterEq, Native(Second), end, v) && FixedWindows.Expired(c, ws, end);
    }
  }

  /** Windows that end on a second keep the promise for second columns as well. */
  lemma SecondAlignedOpen(c: FixedWindows.Config, watermark: int, v: int, ws: int)
    requires c.Valid() && Is(watermark) && Is(v * 1000) && Is(v) && InWindow(c.assigner, ws, v * 1000)
    requires Is(ws) && Is(ws + c.assigner.size + c.lateness) && Is(ws + c.assigner.size)
    requires (ws + c.assigner.size) % 1000 == 0
    requires Keeps(GreaterEq, Native(Second), watermark, v)
    ensures !FixedWindows.Expired(c, ws, watermark)
  {
    SecondGap(ws + c.assigner.size, v);
    SecondRowExact(c, v, ws);
  }

  lemma SecondGap(end: int, v: int)
    requires end % 1000 == 0 && v * 1000 < end
    ensures v * 1000 + 1000 <= end
  {
    assert v < end / 1000;
  }

  // ----- With sessions -------------------------------------------------------------------------------------

  /** The earliest event time of a row the filter keeps; a time that reads as null is none. */
  function Earliest(f: Format, watermark: int): int {
    match f
    case Native(Second) =>
      if watermark - watermark % 1000 < MIN then watermark - watermark % 1000 + 1000 else watermark - watermark % 1000
    case Native(Micro) => Max(TruncDiv(MIN, 1000), Min(watermark, MAX / 1000))
    case Native(Nano) => Max(TruncDiv(MIN, 1_000_000), Min(watermark, MAX / 1_000_000))
    case Unfiltered => MIN + 1
    case _ => Max(MIN + 1, Threshold(f.unit, watermark))
  }

  /** A kept value that has the earliest event time. */
  function EarliestValue(f: Format, watermark: int): int {
    match f
    case Native(Second) => Earliest(f, watermark) / 1000
    case Native(Micro) => Threshold(Micro, watermark)
    case Native(Nano) => Threshold(Nano, watermark)
    case _ => Earliest(f, watermark)
  }

  /** The value is kept, and its event time is the earliest. */
  ghost predicate IsEarliest(f: Format, watermark: int, v: int) {
    Is(v) && Keeps(GreaterEq, f, watermark, v) && EventTime(f, v) == Earliest(f, watermark) > NULL_TIMESTAMP
  }

  lemma EarliestSecond(watermark: int)
    requires Is(watermark)
    ensures IsEarliest(Native(Second), watermark, EarliestValue(Native(Second), watermark))
  {
  }

  lemma EarliestMicro(watermark: int)
    requires Is(watermark)
    ensures IsEarliest(Native(Micro), watermark, EarliestValue(Native(Micro), watermark))
  {
  }

  lemma EarliestNano(watermark: int)
    requires Is(watermark)
    ensures IsEarliest(Native(Nano), watermark, EarliestValue(Native(Nano), watermark))
  {
  }

  lemma EarliestKept(f: Format, watermark: int)
    requires Is(watermark)
    ensures IsEarliest(f, watermark, EarliestValue(f, watermark))
  {
    match f
    case Native(Second) => EarliestSecond(watermark);
    case Native(Micro) => EarliestMicro(watermark);
    case Native(Nano) => EarliestNano(watermark);
    case _ =>
  }

  lemma EarliestLeast(f: Format, watermark: int, v: int)
    requires Is(watermark) && Is(v) && Keeps(GreaterEq, f, watermark, v) && EventTime(f, v) != NULL_TIMESTAMP
    ensures Is(EventTime(f, v)) && Earliest(f, watermark) <= EventTime(f, v)
  {
  }

  /** Session merging needs rows strictly above the watermark less the lateness. For every format
      the filter delivers that exactly when the earliest time it keeps is. */
  lemma SessionEdgeExact(f: Format, c: SessionRuns.Config, watermark: int, key: Key)
    requires Is(watermark) && c.lateness >= 0
    ensures (forall v | Is(v) && Keeps(GreaterEq, f, watermark, v) ::
               SessionRuns.OnTime(c, watermark, Row(key, EventTime(f, v), []))) <==>
            watermark < MAX && watermark - c.lateness < Earliest(f, watermark)
  {
    var first := EarliestValue(f, watermark);
    EarliestKept(f, watermark);
    if watermark < MAX && watermark - c.lateness < Earliest(f, watermark) {
      forall v | Is(v) && Keeps(GreaterEq, f, watermark, v)
        ensures SessionRuns.OnTime(c, watermark, Row(key, EventTime(f, v), []))
      {
        if EventTime(f, v) != NULL_TIMESTAMP {
          EarliestLeast(f, watermark, v);
        }
      }
    } else {
      assert !SessionRuns.OnTime(c, watermark, Row(key, EventTime(f, first), []));
    }
  }

  /** In millisecond columns, and finer ones whose threshold does not saturate, some lateness is
      enough and needed; in second columns it takes more than the watermark's part of a second. */
  lemma SessionEdgeByFormat(watermark: int, lateness: nat)
    requires NULL_TIMESTAMP < watermark <= MAX
    ensures watermark - lateness < Earliest(Native(Milli), watermark) <==> lateness > 0
    ensures watermark - lateness < Earliest(Epoch(Milli), watermark) <==> lateness > 0
    ensures MIN / 1000 < watermark <= MAX / 1000 ==>
              (watermark - lateness < Earliest(Native(Micro), watermark) <==> lateness > 0)
    ensures MIN / 1_000_000 < watermark <= MAX / 1_000_000 ==>
              (watermark - lateness < Earliest(Native(Nano), watermark) <==> lateness > 0)
    ensures MIN <= watermark - watermark % 1000 ==>
              (watermark - lateness < Earliest(Native(Second), watermark) <==> lateness > watermark % 1000)
  {
  }

  /** A second column keeps a row exactly at the watermark less a positive lateness. */
  lemma SecondEdgeKept(key: Key)
    ensures var c := SessionRuns.Config(1, 999);
            Keeps(GreaterEq, Native(Second), 1999, 1) && EventTime(Native(Second), 1) == 1999 - c.lateness
            && !SessionRuns.OnTime(c, 1999, Row(key, EventTime(Native(Second), 1), []))
  {
  }
}
