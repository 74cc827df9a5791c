/** Tumbling and hopping window assignment. */
module WindowAssigner {
  import opened Arithmetic
  import opened Int64
  import opened Collections

  datatype Assigner =
    | Tumbling(size: int, offset: int)
    | Hopping(size: int, slide: int, offset: int)
  {
    predicate Valid() {
      size > 0 && (Hopping? ==> 0 < slide <= size)
    }

    function Step(): int {
      if Tumbling? then size else slide
    }

    /** No unchecked step of the assignment of `ts` leaves the i64 range. */
    predicate Safe(ts: int)
      requires Valid()
    {
      var start := LastStart(Step(), offset, ts);
      && Is(ts - offset) && (Tumbling? && ts < offset ==> MIN <= ts - offset - size)
      && MIN <= start && start + size <= MAX
    }

    /** The last start computed for `ts` is not after it, and a hopping walk does not run into the
        lower limit, unless windows are aligned there. */
    predicate Exact(ts: int)
      requires Valid()
    {
      && Safe(ts) && LastStart(Step(), offset, ts) <= ts
      && (Tumbling? || MIN + size <= ts || (MIN - offset) % slide == 0)
    }
  }

  /** The half-open window `[ws, ws + size)` is aligned and contains `ts`. */
  predicate InWindow(a: Assigner, ws: int, ts: int)
    requires a.Valid()
  {
    ws <= ts < ws + a.size && (ws - a.offset) % a.Step() == 0
  }

  /** Largest aligned start not after `ts`, by truncating division. */
  function LastStart(step: int, offset: int, ts: int): int
    requires step > 0
  {
    var adjusted := ts - offset;
    var base := if adjusted >= 0 then TruncDiv(adjusted, step) * step
                else TruncDiv(SatAdd(SatSub(adjusted, step), 1), step) * step;
    base + offset
  }

  /** Truncating division of a shifted negative number is floor division. */
  lemma TruncIsFloor(a: int, d: int)
    requires d > 0 && a < 0
    ensures TruncDiv(a - d + 1, d) == a / d
  {
    var n := d - 1 - a;
    var q, r := n / d, n % d;
    assert n == q * d + r;
    assert a == (-q) * d + (d - 1 - r);
    DivUnique(a, d, -q, d - 1 - r);
  }

  lemma LastStartAligned(step: int, offset: int, ts: int)
    requires step > 0
    ensures (LastStart(step, offset, ts) - offset) % step == 0
  {
    var adjusted := ts - offset;
    var q := if adjusted >= 0 then TruncDiv(adjusted, step) else TruncDiv(SatAdd(SatSub(adjusted, step), 1), step);
    DivUnique(q * step, step, q, 0);
  }

  lemma LastStartFloor(step: int, offset: int, ts: int)
    requires step > 0 && (ts < offset ==> MIN <= ts - offset - step)
    ensures LastStart(step, offset, ts) == (ts - offset) / step * step + offset
    ensures LastStart(step, offset, ts) <= ts < LastStart(step, offset, ts) + step
    ensures (LastStart(step, offset, ts) - offset) % step == 0
  {
    var adjusted := ts - offset;
    if adjusted < 0 { TruncIsFloor(adjusted, step); }
    var q := adjusted / step;
    assert adjusted == q * step + adjusted % step;
    DivUnique(q * step, step, q, 0);
  }

  /** Two aligned starts less than one step apart are the same. */
  lemma AlignedGap(step: int, x: int, y: int)
    requires step > 0 && x % step == 0 && y % step == 0 && -step < x - y < step
    ensures x == y
  {
    if x <= y {
      SameResidue(step, x, y);
    } else {
      SameResidue(step, y, x);
    }
  }

  lemma AlignedShift(step: int, x: int)
    requires step > 0 && x % step == 0
    ensures (x - step) % step == 0
  {
    assert x == x / step * step;
    DivUnique(x - step, step, x / step - 1, 0);
  }

  /** A tumbling assigner picks the one aligned window that contains the timestamp. */
  lemma TumblingExact(a: Assigner, ts: int, ws: int)
    requires a.Valid() && a.Tumbling? && a.Safe(ts)
    ensures InWindow(a, ws, ts) <==> ws == LastStart(a.size, a.offset, ts)
  {
    LastStartFloor(a.size, a.offset, ts);
    if InWindow(a, ws, ts) {
      AlignedGap(a.size, ws - a.offset, LastStart(a.size, a.offset, ts) - a.offset);
    }
  }

  /** An aligned window that ends after `ts` and starts no later than `last`. */
  predicate Reaches(a: Assigner, last: int, ws: int, ts: int)
    requires a.Valid()
  {
    ws <= last && ts < ws + a.size && (ws - a.offset) % a.Step() == 0
  }

  /** The windows given to `ts`: those in range that reach it, up to the last start computed for
      it, and one that starts at the lower limit, aligned or not, if the walk runs into that. */
  predicate Assigned(a: Assigner, ws: int, ts: int)
    requires a.Valid()
  {
    || (MIN <= ws && Reaches(a, LastStart(a.Step(), a.offset, ts), ws, ts))
    || (a.Hopping? && ts < MIN + a.size && ws == MIN)
  }

  lemma ReachesExact(a: Assigner, last: int, ws: int, ts: int)
    requires a.Valid() && last <= ts < last + a.Step() && (last - a.offset) % a.Step() == 0
    ensures Reaches(a, last, ws, ts) <==> InWindow(a, ws, ts)
  {
    if InWindow(a, ws, ts) && last < ws {
      AlignedGap(a.Step(), ws - a.offset, last - a.offset);
    }
  }

  lemma TumblingAssigned(a: Assigner, ts: int, ws: int)
    requires a.Valid() && a.Tumbling? && a.Safe(ts)
    ensures Assigned(a, ws, ts) <==> ws == LastStart(a.size, a.offset, ts)
  {
    LastStartFloor(a.size, a.offset, ts);
    ReachesExact(a, LastStart(a.size, a.offset, ts), ws, ts);
    TumblingExact(a, ts, ws);
  }

  /** A last start that is not after `ts` is the largest aligned one, saturated or not. */
  lemma LastStartLargest(a: Assigner, ts: int)
    requires a.Valid() && a.Safe(ts) && LastStart(a.Step(), a.offset, ts) <= ts
    ensures var last := LastStart(a.Step(), a.offset, ts);
            ts < last + a.Step() && (last - a.offset) % a.Step() == 0
  {
    LastStartAligned(a.Step(), a.offset, ts);
    if ts >= a.offset || MIN <= ts - a.offset - a.Step() {
      LastStartFloor(a.Step(), a.offset, ts);
    } else {
      SaturatedStart(a.Step(), a.offset, ts);
    }
  }

  /** With the subtraction saturated, the start is the first multiple above the limit. */
  lemma SaturatedStart(step: int, offset: int, ts: int)
    requires step > 0 && MIN <= ts - offset < MIN + step && ts < offset
    ensures LastStart(step, offset, ts) == offset - MAX / step * step
    ensures offset + MIN < LastStart(step, offset, ts)
  {
    assert SatAdd(SatSub(ts - offset, step), 1) == -MAX;
    assert MAX / step * step <= MAX;
  }

  /** The in-range windows that contain `ts` are exactly the windows assigned to it, if and only
      if the last start is not after it and the walk stays clear of the lower limit or meets it
      aligned. */
  lemma AssignedExact(a: Assigner, ts: int)
    requires a.Valid() && a.Safe(ts)
    ensures a.Exact(ts) <==> forall ws :: Assigned(a, ws, ts) <==> MIN <= ws && InWindow(a, ws, ts)
  {
    var last := LastStart(a.Step(), a.offset, ts);
    if last > ts {
      LastStartSaturates(a, ts);
    } else {
      LastStartLargest(a, ts);
      forall ws ensures Reaches(a, last, ws, ts) <==> InWindow(a, ws, ts) {
        ReachesExact(a, last, ws, ts);
      }
      if !a.Exact(ts) {
        WalkSaturates(a, ts);
      }
    }
  }

  /** A last start after `ts` is assigned although its window does not contain `ts`. */
  lemma LastStartSaturates(a: Assigner, ts: int)
    requires a.Valid() && a.Safe(ts) && LastStart(a.Step(), a.offset, ts) > ts
    ensures var last := LastStart(a.Step(), a.offset, ts); Assigned(a, last, ts) && !InWindow(a, last, ts)
  {
    LastStartAligned(a.Step(), a.offset, ts);
  }

  /** That happens, more than a window above the lower limit. */
  lemma StartAfterTimestamp()
    ensures var a, ts := Hopping(1000, 1000, 1_000_000), MIN + 1_000_000;
            a.Valid() && a.Safe(ts) && MIN + a.size <= ts && LastStart(a.slide, a.offset, ts) == ts + 808
  {
  }

  /** At the lower limit the walk gives a start that is no window of the assigner, whenever
      windows are not aligned there. */
  lemma WalkSaturates(a: Assigner, ts: int)
    requires a.Valid() && a.Hopping? && a.Safe(ts) && ts < MIN + a.size && (MIN - a.offset) % a.slide != 0
    ensures Assigned(a, MIN, ts) && !InWindow(a, MIN, ts)
  {
  }

  /** All windows assigned to `ts`, earliest first. */
  method AssignWindows(a: Assigner, ts: int) returns (starts: seq<int>)
    requires a.Valid() && a.Safe(ts)
    ensures Ascending(starts)
    ensures forall ws :: ws in starts <==> Assigned(a, ws, ts)
  {
    if a.Tumbling? {
      starts := [LastStart(a.size, a.offset, ts)];
      forall ws ensures ws in starts <==> Assigned(a, ws, ts) {
        TumblingAssigned(a, ts, ws);
      }
    } else {
      starts := WalkBack(a, ts);
    }
  }

  /** Walk back one slide at a time from the last start while the window still reaches `ts`, or
      until subtracting saturates. */
  method WalkBack(a: Assigner, ts: int) returns (starts: seq<int>)
    requires a.Valid() && a.Hopping? && a.Safe(ts)
    ensures Ascending(starts)
    ensures forall ws :: ws in starts <==> Assigned(a, ws, ts)
  {
    LastStartAligned(a.slide, a.offset, ts);
    starts := [];
    var last := LastStart(a.slide, a.offset, ts);
    var ws := last;
    while ws + a.size > ts
      invariant Walked(a, ts, last, ws, starts)
      decreases ws + a.size - ts
    {
      WalkStep(a, ts, last, ws, starts);
      starts := [ws] + starts;
      var prev := ws;
      ws := SatSub(ws, a.slide);
      if ws == prev {
        return;
      }
    }
  }

  /** `starts` holds exactly the windows that reach `ts` above `ws`, which is aligned or the lower
      limit. */
  ghost predicate Walked(a: Assigner, ts: int, last: int, ws: int, starts: seq<int>)
    requires a.Valid() && a.Hopping?
  {
    && MIN <= ws <= last && ((ws - a.offset) % a.slide == 0 || ws == MIN)
    && Ascending(starts)
    && (forall x :: x in starts <==> ws < x && Reaches(a, last, x, ts))
  }

  lemma WalkStep(a: Assigner, ts: int, last: int, ws: int, starts: seq<int>)
    requires a.Valid() && a.Hopping? && last <= MAX && Walked(a, ts, last, ws, starts) && ws + a.size > ts
    ensures var next := SatSub(ws, a.slide);
            && Ascending([ws] + starts)
            && (next != ws ==> next < ws && Walked(a, ts, last, next, [ws] + starts))
            && (next == ws ==>
                  && ts < MIN + a.size
                  && forall x :: x in [ws] + starts <==> (MIN <= x && Reaches(a, last, x, ts)) || x == MIN)
  {
    PrependAscending(ws, starts);
    var next := SatSub(ws, a.slide);
    forall x ensures x in [ws] + starts <==> x == ws || x in starts {
    }
    if next != ws {
      AlignedShift(a.slide, ws - a.offset);
      forall x ensures x in [ws] + starts <==> next < x && Reaches(a, last, x, ts) {
        if Reaches(a, last, x, ts) && next < x <= ws {
          AlignedGap(a.slide, x - a.offset, ws - a.offset);
        }
      }
    }
  }

  lemma PrependAscending(x: int, q: seq<int>)
    requires Ascending(q) && forall y | y in q :: x < y
    ensures Ascending([x] + q)
  {
    forall i, j | 0 <= i < j < |[x] + q| ensures ([x] + q)[i] < ([x] + q)[j] {
      if i == 0 { assert q[j - 1] in q; }
    }
  }
}
