/** The snapshot ring: a push takes a ticket and later writes its slot, and other pushes may
    come in between. Every interleaving is a sequence of reserve and write steps. */
module SnapshotRing {
  import opened Arithmetic
  import opened ScalarValues

  /** `issued` are the batches by ticket, `pending` the tickets not written yet, and a slot
      holds the ticket last written to it. */
  datatype State<T> = State(slots: seq<Option<nat>>, issued: seq<T>, pending: set<nat>) {
    function Tail(): nat {
      |issued|
    }

    function Capacity(): nat {
      |slots|
    }
  }

  datatype Action<T> = Reserve(batch: T) | Write(ticket: nat)

  /** A ring of capacity zero is given one slot. */
  function Slots(capacity: nat): nat {
    if capacity == 0 then 1 else capacity
  }

  function Initial<T>(capacity: nat): State<T> {
    State(seq(Slots(capacity), _ => None), [], {})
  }

  predicate Enabled<T>(s: State<T>, a: Action<T>) {
    s.Capacity() > 0 && (a.Write? ==> a.ticket in s.pending)
  }

  function Step<T>(s: State<T>, a: Action<T>): State<T>
    requires Enabled(s, a)
  {
    match a
    case Reserve(b) => s.(issued := s.issued + [b], pending := s.pending + {s.Tail()})
    case Write(t) => s.(slots := s.slots[t % s.Capacity() := Some(t)], pending := s.pending - {t})
  }

  /** A write is in turn when its slot holds nothing newer. */
  predicate InTurn<T>(s: State<T>, a: Action<T>)
    requires Enabled(s, a)
  {
    a.Write? ==> var held := s.slots[a.ticket % s.Capacity()]; held.Some? ==> held.value < a.ticket
  }

  /** The discipline of one lap: a ticket is taken only after the ticket one lap earlier was
      written. */
  predicate LapDone<T>(s: State<T>, a: Action<T>) {
    a.Reserve? ==> s.Tail() >= s.Capacity() ==> s.Tail() - s.Capacity() !in s.pending
  }

  /** What every run keeps: a slot holds one of its own tickets, already written. */
  ghost predicate Formed<T>(s: State<T>) {
    && s.Capacity() > 0
    && (forall t | t in s.pending :: t < s.Tail())
    && (forall i | 0 <= i < s.Capacity() && s.slots[i].Some? ::
          s.slots[i].value < s.Tail() && s.slots[i].value % s.Capacity() == i && s.slots[i].value !in s.pending)
  }

  /** With writes in turn, a slot is also no older than any ticket written to it. */
  ghost predicate Inv<T>(s: State<T>) {
    Formed(s) && forall t: nat | t < s.Tail() && t !in s.pending :: Covered(s, t)
  }

  ghost predicate Covered<T>(s: State<T>, t: nat)
    requires s.Capacity() > 0
  {
    var held := s.slots[t % s.Capacity()];
    held.Some? && t <= held.value
  }

  lemma FormedStep<T>(s: State<T>, a: Action<T>)
    requires Formed(s) && Enabled(s, a)
    ensures Formed(Step(s, a))
  {
  }

  lemma InvStep<T>(s: State<T>, a: Action<T>)
    requires Inv(s) && Enabled(s, a) && InTurn(s, a)
    ensures Inv(Step(s, a))
  {
    var r := Step(s, a);
    forall t: nat | t < r.Tail() && t !in r.pending ensures Covered(r, t) {
      if t < s.Tail() && t !in s.pending {
        assert Covered(s, t);
      }
    }
  }

  /** No pending ticket is a lap behind. */
  ghost predicate Close<T>(s: State<T>) {
    forall t | t in s.pending :: t >= s.Tail() - s.Capacity()
  }

  /** Under the one-lap discipline every write is in turn. */
  lemma LapInTurn<T>(s: State<T>, a: Action<T>)
    requires Inv(s) && Close(s) && Enabled(s, a) && LapDone(s, a)
    ensures InTurn(s, a) && Close(Step(s, a))
  {
    if a.Write? {
      var held := s.slots[a.ticket % s.Capacity()];
      if held.Some? && held.value >= a.ticket {
        SameResidue(s.Capacity(), a.ticket, held.value);
      }
    }
  }

  function Exec<T>(capacity: nat, acts: seq<Action<T>>): Option<State<T>> {
    if acts == [] then Some(Initial(capacity))
    else
      var n := |acts| - 1;
      var before := Exec(capacity, acts[..n]);
      if before.Some? && Enabled(before.value, acts[n]) then Some(Step(before.value, acts[n])) else None
  }

  ghost predicate AllInTurn<T>(capacity: nat, acts: seq<Action<T>>)
    requires Exec(capacity, acts).Some?
  {
    acts == [] ||
    var n := |acts| - 1;
    AllInTurn(capacity, acts[..n]) && InTurn(Exec(capacity, acts[..n]).value, acts[n])
  }

  ghost predicate AllLapDone<T>(capacity: nat, acts: seq<Action<T>>)
    requires Exec(capacity, acts).Some?
  {
    acts == [] ||
    var n := |acts| - 1;
    AllLapDone(capacity, acts[..n]) && LapDone(Exec(capacity, acts[..n]).value, acts[n])
  }

  /** Every run keeps the ring formed, whatever the schedule. */
  lemma {:induction false} RunFormed<T>(capacity: nat, acts: seq<Action<T>>)
    requires Exec(capacity, acts).Some?
    ensures Formed(Exec(capacity, acts).value) && Exec(capacity, acts).value.Capacity() == Slots(capacity)
  {
    if acts == [] {
    } else {
      var n := |acts| - 1;
      RunFormed(capacity, acts[..n]);
      FormedStep(Exec(capacity, acts[..n]).value, acts[n]);
    }
  }

  lemma {:induction false} RunInv<T>(capacity: nat, acts: seq<Action<T>>)
    requires Exec(capacity, acts).Some? && AllInTurn(capacity, acts)
    ensures Inv(Exec(capacity, acts).value)
  {
    if acts == [] {
    } else {
      var n := |acts| - 1;
      RunInv(capacity, acts[..n]);
      InvStep(Exec(capacity, acts[..n]).value, acts[n]);
    }
  }

  lemma {:induction false} LapRun<T>(capacity: nat, acts: seq<Action<T>>)
    requires Exec(capacity, acts).Some? && AllLapDone(capacity, acts)
    ensures AllInTurn(capacity, acts) && Close(Exec(capacity, acts).value)
  {
    if acts == [] {
    } else {
      var n := |acts| - 1;
      LapRun(capacity, acts[..n]);
      RunInv(capacity, acts[..n]);
      LapInTurn(Exec(capacity, acts[..n]).value, acts[n]);
    }
  }

  /** The ticket of the last write to slot `j`, read off the schedule alone. */
  function LastWrite<T>(c: nat, acts: seq<Action<T>>, j: nat): Option<nat>
    requires c > 0
  {
    if acts == [] then None
    else
      var n := |acts| - 1;
      if acts[n].Write? && acts[n].ticket % c == j then Some(acts[n].ticket) else LastWrite(c, acts[..n], j)
  }

  /** In every run a slot holds the last ticket written to it. */
  lemma {:induction false} SlotsAreLastWrites<T>(capacity: nat, acts: seq<Action<T>>, j: nat)
    requires Exec(capacity, acts).Some? && j < Slots(capacity)
    ensures var s := Exec(capacity, acts).value;
            s.Capacity() == Slots(capacity) && s.slots[j] == LastWrite(Slots(capacity), acts, j)
  {
    if acts == [] {
    } else {
      SlotsAreLastWrites(capacity, acts[..|acts| - 1], j);
    }
  }

  /** How many of the most recent tickets fit the ring. */
  function Recent<T>(s: State<T>): nat {
    if s.Tail() <= s.Capacity() then s.Tail() else s.Capacity()
  }

  /** The tickets a snapshot is to hold: the last ones, oldest first. */
  function LastTickets<T>(s: State<T>): seq<nat> {
    seq(Recent(s), i requires 0 <= i => s.Tail() - Recent(s) + i)
  }

  /** The slot read in place `i`. */
  function Place<T>(s: State<T>, i: nat): (p: nat)
    requires s.Capacity() > 0
    ensures p < s.Capacity()
  {
    ((if s.Tail() <= s.Capacity() then 0 else s.Tail() % s.Capacity()) + i) % s.Capacity()
  }

  /** The tickets found in the first `n` places, passing over empty slots. */
  function ReadTo<T>(s: State<T>, n: nat): (ts: seq<nat>)
    requires s.Capacity() > 0
    ensures |ts| <= n
  {
    if n == 0 then []
    else
      var held := s.slots[Place(s, n - 1)];
      ReadTo(s, n - 1) + if held.Some? then [held.value] else []
  }

  /** The tickets a snapshot reads. */
  function Read<T>(s: State<T>): seq<nat>
    requires s.Capacity() > 0
  {
    ReadTo(s, Recent(s))
  }

  /** The places are read in ticket order. */
  lemma PlaceOfTicket<T>(s: State<T>, i: nat)
    requires s.Capacity() > 0 && i < Recent(s)
    ensures Place(s, i) == (s.Tail() - Recent(s) + i) % s.Capacity()
  {
    if s.Tail() > s.Capacity() {
      LapShift(s.Capacity(), s.Tail(), i);
    }
  }

  lemma LapShift(c: nat, tail: nat, i: nat)
    requires 0 < c < tail && i < c
    ensures (tail % c + i) % c == (tail - c + i) % c
  {
    var q, r := tail / c, tail % c;
    if r + i < c {
      DivUnique(tail - c + i, c, q - 1, r + i);
      DivUnique(r + i, c, 0, r + i);
    } else {
      DivUnique(tail - c + i, c, q, r + i - c);
      DivUnique(r + i, c, 1, r + i - c);
    }
  }

  /** The ticket due in place `i` is in its slot. */
  predicate InPlace<T>(s: State<T>, i: nat)
    requires s.Capacity() > 0 && i < Recent(s)
  {
    s.slots[Place(s, i)] == Some(s.Tail() - Recent(s) + i)
  }

  /** A read gives the last tickets exactly when each of them is in its slot. */
  lemma {:induction false} ReadExact<T>(s: State<T>, n: nat)
    requires s.Capacity() > 0 && n <= Recent(s)
    ensures ReadTo(s, n) == LastTickets(s)[..n] <==> forall i: nat | i < n :: InPlace(s, i)
  {
    if n == 0 {
    } else {
      ReadExact(s, n - 1);
      var m := n - 1;
      var due := LastTickets(s);
      assert due[..n] == due[..m] + [due[m]];
      assert (forall i: nat | i < n :: InPlace(s, i)) <==> (forall i: nat | i < m :: InPlace(s, i)) && InPlace(s, m);
      if ReadTo(s, n) == due[..n] {
        assert |ReadTo(s, n)| == n && s.slots[Place(s, m)].Some?;
        assert ReadTo(s, m) == ReadTo(s, n)[..m] == due[..m];
        assert ReadTo(s, n)[m] == due[m];
      }
    }
  }

  /** The last write to the slot of ticket `t` is its own. */
  predicate WrittenLast<T>(c: nat, acts: seq<Action<T>>, t: nat)
    requires c > 0
  {
    LastWrite(c, acts, t % c) == Some(t)
  }

  lemma InPlaceExact<T>(capacity: nat, acts: seq<Action<T>>, i: nat)
    requires Exec(capacity, acts).Some? && i < Recent(Exec(capacity, acts).value)
    ensures var s := Exec(capacity, acts).value;
            && s.Capacity() == Slots(capacity)
            && (InPlace(s, i) <==> WrittenLast(Slots(capacity), acts, s.Tail() - Recent(s) + i))
  {
    var s := Exec(capacity, acts).value;
    RunFormed(capacity, acts);
    SlotsAreLastWrites(capacity, acts, (s.Tail() - Recent(s) + i) % Slots(capacity));
    PlaceOfTicket(s, i);
  }

  /** The last tickets issued, oldest first, as many as there are or as fit the slots. */
  ghost predicate AreLast<T>(s: State<T>, tickets: seq<nat>) {
    && |tickets| <= |s.issued| && |tickets| <= |s.slots| && (|tickets| == |s.issued| || |tickets| == |s.slots|)
    && forall i | 0 <= i < |tickets| :: tickets[i] == |s.issued| - |tickets| + i
  }

  lemma LastTicketsAre<T>(s: State<T>, tickets: seq<nat>)
    ensures AreLast(s, tickets) <==> tickets == LastTickets(s)
  {
    if AreLast(s, tickets) {
      assert forall i | 0 <= i < |tickets| :: tickets[i] == LastTickets(s)[i];
    }
  }

  /** In every run, a snapshot reads exactly the last tickets, oldest first, if and only if the
      last write to the slot of each ticket of the last lap is that ticket's own. */
  lemma RingExact<T>(capacity: nat, acts: seq<Action<T>>)
    requires Exec(capacity, acts).Some?
    ensures var s, c := Exec(capacity, acts).value, Slots(capacity);
            && s.Capacity() == c
            && (AreLast(s, Read(s)) <==>
                forall t: nat | |s.issued| - c <= t < |s.issued| :: WrittenLast(c, acts, t))
  {
    var s, c := Exec(capacity, acts).value, Slots(capacity);
    RunFormed(capacity, acts);
    LastTicketsAre(s, Read(s));
    ReadExact(s, Recent(s));
    assert LastTickets(s)[..Recent(s)] == LastTickets(s);
    var first := s.Tail() - Recent(s);
    forall i: nat | i < Recent(s) ensures InPlace(s, i) <==> WrittenLast(c, acts, first + i) {
      InPlaceExact(capacity, acts, i);
    }
    if forall i: nat | i < Recent(s) :: InPlace(s, i) {
      forall t: nat | first <= t < s.Tail() ensures WrittenLast(c, acts, t) {
        assert InPlace(s, t - first);
      }
    }
  }

  /** Writing in turn is enough: once no write is outstanding, the ring is right. */
  lemma InTurnIsRight<T>(capacity: nat, acts: seq<Action<T>>)
    requires Exec(capacity, acts).Some? && AllInTurn(capacity, acts) && Exec(capacity, acts).value.pending == {}
    ensures var s := Exec(capacity, acts).value; s.Capacity() > 0 && AreLast(s, Read(s))
  {
    var s, c := Exec(capacity, acts).value, Slots(capacity);
    RunInv(capacity, acts);
    RunFormed(capacity, acts);
    RingExact(capacity, acts);
    forall t: nat | |s.issued| - c <= t < |s.issued| ensures WrittenLast(c, acts, t) {
      assert t !in s.pending;
      assert Covered(s, t);
      SlotsAreLastWrites(capacity, acts, t % c);
      SameResidue(c, t, s.slots[t % c].value);
    }
  }

  /** The batches of tickets already taken. */
  ghost predicate AreBatches<T>(s: State<T>, tickets: seq<nat>, batches: seq<T>) {
    && |batches| == |tickets|
    && forall i | 0 <= i < |tickets| :: tickets[i] < s.Tail() && batches[i] == s.issued[tickets[i]]
  }

  /** In every run under the one-lap discipline the ring, once quiet, gives exactly the last
      tickets that fit, and so a snapshot is the last batches issued, all of them or as many as
      there are slots. */
  lemma QuietRing<T>(capacity: nat, acts: seq<Action<T>>, snapshot: seq<T>)
    requires Exec(capacity, acts).Some? && AllLapDone(capacity, acts) && Exec(capacity, acts).value.pending == {}
    requires var s := Exec(capacity, acts).value; s.Capacity() > 0 && AreBatches(s, Read(s), snapshot)
    ensures var s := Exec(capacity, acts).value;
            var n := if capacity == 0 then 1 else capacity;
            AreLast(s, Read(s)) && snapshot == if |s.issued| <= n then s.issued else s.issued[|s.issued| - n..]
  {
    LapRun(capacity, acts);
    InTurnIsRight(capacity, acts);
    RunFormed(capacity, acts);
  }

  /** Read the ring, oldest first: the batches of the tickets read, and so the last batches
      issued when those are the last tickets. */
  method Snapshot<T>(s: State<T>) returns (result: seq<T>)
    requires Formed(s)
    ensures AreBatches(s, Read(s), result)
    ensures AreLast(s, Read(s)) ==>
              result == if |s.issued| <= |s.slots| then s.issued else s.issued[|s.issued| - |s.slots|..]
  {
    var count := Recent(s);
    var start := if s.Tail() <= s.Capacity() then 0 else s.Tail() % s.Capacity();
    result := [];
    for i := 0 to count
      invariant AreBatches(s, ReadTo(s, i), result)
    {
      var held := s.slots[(start + i) % s.Capacity()];
      assert (start + i) % s.Capacity() == Place(s, i);
      if held.Some? {
        result := result + [s.issued[held.value]];
      }
    }
  }

  lemma ExecMore<T>(capacity: nat, acts: seq<Action<T>>, s: State<T>, a: Action<T>)
    requires Exec(capacity, acts) == Some(s) && Enabled(s, a)
    ensures Exec(capacity, acts + [a]) == Some(Step(s, a))
  {
    assert (acts + [a])[..|acts|] == acts;
  }

  function Reserves<T>(batches: seq<T>): (acts: seq<Action<T>>) {
    if batches == [] then []
    else Reserves(batches[..|batches| - 1]) + [Reserve(batches[|batches| - 1])]
  }

  lemma {:induction false} AllReserved<T>(capacity: nat, batches: seq<T>)
    ensures var run := Exec(capacity, Reserves(batches));
            && run.Some? && run.value.issued == batches && run.value.Capacity() == Slots(capacity)
            && forall t: nat :: t in run.value.pending <==> t < |batches|
  {
    if batches == [] {
    } else {
      var n := |batches| - 1;
      AllReserved(capacity, batches[..n]);
      ExecMore(capacity, Reserves(batches[..n]), Exec(capacity, Reserves(batches[..n])).value, Reserve(batches[n]));
    }
  }

  /** Reserve them all, then write the tickets from 1 on. */
  function Skipping<T>(batches: seq<T>, n: nat): (acts: seq<Action<T>>) {
    if n == 0 then Reserves(batches) else Skipping(batches, n - 1) + [Write(n)]
  }

  lemma {:induction false} AllSkipping<T>(capacity: nat, batches: seq<T>, n: nat)
    requires n < |batches|
    ensures var run := Exec(capacity, Skipping(batches, n));
            && run.Some? && run.value.issued == batches && run.value.Capacity() == Slots(capacity)
            && forall t: nat :: t in run.value.pending <==> t < |batches| && (t == 0 || n < t)
  {
    if n == 0 {
      AllReserved(capacity, batches);
    } else {
      AllSkipping(capacity, batches, n - 1);
      ExecMore(capacity, Skipping(batches, n - 1), Exec(capacity, Skipping(batches, n - 1)).value, Write(n));
    }
  }

  /** Without the discipline a slow writer loses a batch, at every capacity: the first ticket
      written after the one a lap later leaves a quiet ring with an old batch over a new one. */
  lemma SlowWriterLoses<T>(capacity: nat, batches: seq<T>)
    requires |batches| == Slots(capacity) + 1
    ensures var acts := Skipping(batches, Slots(capacity)) + [Write(0)];
            && Exec(capacity, acts).Some?
            && var s := Exec(capacity, acts).value;
               && s.issued == batches && (forall t: nat :: t !in s.pending)
               && s.Capacity() > 0 && !AreLast(s, Read(s))
  {
    var c := Slots(capacity);
    var before := Skipping(batches, c);
    AllSkipping(capacity, batches, c);
    ExecMore(capacity, before, Exec(capacity, before).value, Write(0));
    var acts := before + [Write(0)];
    RingExact(capacity, acts);
    DivUnique(c, c, 1, 0);
    assert LastWrite(c, acts, 0) == Some(0);
    var s := Exec(capacity, acts).value;
    assert |s.issued| - c <= c < |s.issued| && !WrittenLast(c, acts, c);
  }
}
