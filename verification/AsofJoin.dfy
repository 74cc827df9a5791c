/** ASOF join: each left row is paired with the closest right row of the same key. The join
    looks rows up in a hash map of ordered maps; the meaning is a nested loop. */
module AsofJoin {
  import opened Collections
  import opened ScalarValues
  import opened ScalarCodec

  datatype KeyValue = Utf8(text: string) | Int64(value: int)

  /** A row of either side: a nullable key and a timestamp in milliseconds. */
  datatype Record = Record(key: Option<KeyValue>, ts: int)

  datatype Direction = Backward | Forward | Nearest

  datatype JoinType = InnerJoin | LeftJoin

  datatype Config = Config(direction: Direction, tolerance: Option<int>, joinType: JoinType)

  // ----- Timestamps ---------------------------------------------------------------------------------

  function Distance(l: int, r: int): nat {
    if l <= r then r - l else l - r
  }

  /** `a` is the better match for `l`: nearer, or as near and on the earlier side. */
  predicate Closer(l: int, a: int, b: int) {
    Distance(l, a) < Distance(l, b) || (Distance(l, a) == Distance(l, b) && a < b)
  }

  predicate Eligible(d: Direction, l: int, r: int) {
    match d
    case Backward => r <= l
    case Forward => l <= r
    case Nearest => true
  }

  predicate Within(tolerance: Option<int>, l: int, r: int) {
    tolerance.Some? ==> Distance(l, r) <= tolerance.value
  }

  predicate IsLatest(times: set<int>, l: int, t: int) {
    t in times && t <= l && forall u | u in times && u <= l :: u <= t
  }

  predicate IsEarliest(times: set<int>, l: int, t: int) {
    t in times && l <= t && forall u | u in times && l <= u :: t <= u
  }

  /** Last entry of an ordered map at or below `l`. */
  function Latest(times: set<int>, l: int): (r: Option<int>)
    ensures r.Some? ==> IsLatest(times, l, r.value)
    ensures r.None? ==> forall t | t in times :: l < t
  {
    if forall t | t in times :: l < t then None
    else
      LatestExists(times, l);
      var t: int :| t in times && IsLatest(times, l, t);
      Some(t)
  }

  /** First entry of an ordered map at or above `l`. */
  function Earliest(times: set<int>, l: int): (r: Option<int>)
    ensures r.Some? ==> IsEarliest(times, l, r.value)
    ensures r.None? ==> forall t | t in times :: t < l
  {
    if forall t | t in times :: t < l then None
    else
      EarliestExists(times, l);
      var t: int :| t in times && IsEarliest(times, l, t);
      Some(t)
  }

  lemma LatestExists(times: set<int>, l: int)
    requires !forall t | t in times :: l < t
    ensures exists t: int :: t in times && IsLatest(times, l, t)
  {
    var low := set t | t in times && t <= l;
    if low == {} {
      forall t | t in times ensures l < t {
        assert t !in low;
      }
      assert false;
    }
    var m := MaxOf(low);
    assert IsLatest(times, l, m) by {
      forall u | u in times && u <= l ensures u <= m { assert u in low; }
    }
  }

  lemma EarliestExists(times: set<int>, l: int)
    requires !forall t | t in times :: t < l
    ensures exists t: int :: t in times && IsEarliest(times, l, t)
  {
    var high := set t | t in times && l <= t;
    if high == {} {
      forall t | t in times ensures t < l {
        assert t !in high;
      }
      assert false;
    }
    var m := MinOf(high);
    assert IsEarliest(times, l, m) by {
      forall u | u in times && l <= u ensures m <= u { assert u in high; }
    }
  }

  /** The timestamp `find_match` settles on before looking at the tolerance. */
  function BestTime(times: set<int>, l: int, d: Direction): Option<int> {
    match d
    case Backward => Latest(times, l)
    case Forward => Earliest(times, l)
    case Nearest =>
      match (Latest(times, l), Earliest(times, l))
      case (Some(b), Some(f)) => if Distance(l, b) <= Distance(l, f) then Some(b) else Some(f)
      case (Some(b), None) => Some(b)
      case (None, f) => f
  }

  function FindTime(times: set<int>, l: int, d: Direction, tolerance: Option<int>): Option<int> {
    var best := BestTime(times, l, d);
    if best.Some? && Within(tolerance, l, best.value) then best else None
  }

  ghost predicate IsClosest(times: set<int>, l: int, d: Direction, t: int) {
    && t in times && Eligible(d, l, t)
    && forall u | u in times && Eligible(d, l, u) :: !Closer(l, u, t)
  }

  /** The lookup finds the closest eligible timestamp, backward winning ties, and misses only
      when there is none. */
  lemma BestTimeClosest(times: set<int>, l: int, d: Direction)
    ensures BestTime(times, l, d).Some? ==> IsClosest(times, l, d, BestTime(times, l, d).value)
    ensures BestTime(times, l, d).None? ==> forall t | t in times :: !Eligible(d, l, t)
    ensures forall t | IsClosest(times, l, d, t) :: BestTime(times, l, d) == Some(t)
  {
    forall t | IsClosest(times, l, d, t) ensures BestTime(times, l, d) == Some(t) {
      if BestTime(times, l, d).Some? {
        var u := BestTime(times, l, d).value;
        assert !Closer(l, u, t) && !Closer(l, t, u);
      }
    }
  }

  function WithinSet(times: set<int>, l: int, tolerance: Option<int>): set<int> {
    set t | t in times && Within(tolerance, l, t)
  }

  /** Testing the tolerance after the lookup is the same as looking up among the timestamps
      within tolerance. */
  lemma ToleranceCommutes(times: set<int>, l: int, d: Direction, tolerance: Option<int>)
    ensures FindTime(times, l, d, tolerance) == BestTime(WithinSet(times, l, tolerance), l, d)
  {
    var near := WithinSet(times, l, tolerance);
    BestTimeClosest(times, l, d);
    BestTimeClosest(near, l, d);
    var found := BestTime(times, l, d);
    if found.Some? && Within(tolerance, l, found.value) {
      assert IsClosest(near, l, d, found.value);
    }
  }

  // ----- Rows ------------------------------------------------------------------------------------------

  predicate KeysEqual(a: Record, b: Record) {
    a.key.Some? && b.key.Some? && a.key.value == b.key.value
  }

  predicate Candidate(c: Config, l: Record, r: Record) {
    KeysEqual(l, r) && Eligible(c.direction, l.ts, r.ts) && Within(c.tolerance, l.ts, r.ts)
  }

  /** Right row `j` is the match of `l`: a candidate no other candidate beats, and the first one
      at its timestamp. */
  ghost predicate IsMatch(c: Config, l: Record, right: seq<Record>, j: nat) {
    && j < |right| && Candidate(c, l, right[j])
    && (forall i | 0 <= i < |right| && Candidate(c, l, right[i]) ::
          !Closer(l.ts, right[i].ts, right[j].ts) && (right[i].ts == right[j].ts ==> j <= i))
  }

  ghost predicate NoMatch(c: Config, l: Record, right: seq<Record>) {
    forall i | 0 <= i < |right| :: !Candidate(c, l, right[i])
  }

  /** The nested-loop join's inner loop: keep the best candidate seen so far. */
  function Scan(c: Config, l: Record, right: seq<Record>): (m: Option<nat>)
    ensures m.Some? ==> IsMatch(c, l, right, m.value)
    ensures m.None? ==> NoMatch(c, l, right)
  {
    if right == [] then None
    else
      var n := |right| - 1;
      var m := Scan(c, l, right[..n]);
      if Candidate(c, l, right[n]) && (m.None? || Closer(l.ts, right[n].ts, right[m.value].ts)) then Some(n) else m
  }

  lemma ScanUnique(c: Config, l: Record, right: seq<Record>, j: nat)
    requires IsMatch(c, l, right, j)
    ensures Scan(c, l, right) == Some(j)
  {
    assert !Closer(l.ts, right[j].ts, right[Scan(c, l, right).value].ts);
  }

  // ----- The index ----------------------------------------------------------------------------------------

  type Tree = map<int, seq<nat>>

  type Index = map<nat, Tree>

  type Hash = KeyValue -> nat

  predicate Hashes(hash: Hash, r: Record, h: nat) {
    r.key.Some? && hash(r.key.value) == h
  }

  /** Indices of the right rows with the given key hash and timestamp, ascending. */
  function RowsAt(hash: Hash, right: seq<Record>, h: nat, t: int): seq<nat> {
    if right == [] then []
    else
      var n := |right| - 1;
      RowsAt(hash, right[..n], h, t) + (if Hashes(hash, right[n], h) && right[n].ts == t then [n] else [])
  }

  /** Ascending row numbers of a table. */
  ghost predicate RowNumbers(rows: seq<nat>, right: seq<Record>) {
    && (forall k | 0 <= k < |rows| :: rows[k] < |right|)
    && (forall k, m | 0 <= k < m < |rows| :: rows[k] < rows[m])
  }

  ghost predicate AllAt(hash: Hash, right: seq<Record>, rows: seq<nat>, h: nat, t: int)
    requires RowNumbers(rows, right)
  {
    forall k | 0 <= k < |rows| :: Hashes(hash, right[rows[k]], h) && right[rows[k]].ts == t
  }

  lemma {:induction false} RowsAtNumbers(hash: Hash, right: seq<Record>, h: nat, t: int)
    ensures RowNumbers(RowsAt(hash, right, h, t), right)
    ensures AllAt(hash, right, RowsAt(hash, right, h, t), h, t)
  {
    if right == [] {
    } else {
      var n := |right| - 1;
      RowsAtNumbers(hash, right[..n], h, t);
      var init, rows := RowsAt(hash, right[..n], h, t), RowsAt(hash, right, h, t);
      forall k | 0 <= k < |rows| ensures Hashes(hash, right[rows[k]], h) && right[rows[k]].ts == t {
        if k < |init| {
          assert rows[k] == init[k] && right[..n][init[k]] == right[rows[k]];
        }
      }
    }
  }

  lemma {:induction false} RowsAtFind(hash: Hash, right: seq<Record>, h: nat, t: int, i: nat) returns (k: nat)
    requires i < |right| && Hashes(hash, right[i], h) && right[i].ts == t
    ensures k < |RowsAt(hash, right, h, t)| && RowsAt(hash, right, h, t)[k] == i
  {
    var n := |right| - 1;
    if i == n {
      k := |RowsAt(hash, right[..n], h, t)|;
    } else {
      k := RowsAtFind(hash, right[..n], h, t, i);
    }
  }

  function Entry(index: Index, h: nat, t: int): seq<nat> {
    if h in index && t in index[h] then index[h][t] else []
  }

  /** The index holds exactly the rows of `right`, in row order, and no empty entry. */
  ghost predicate IsIndex(hash: Hash, right: seq<Record>, index: Index) {
    && (forall h: nat, t: int :: Entry(index, h, t) == RowsAt(hash, right, h, t))
    && (forall h: nat, t: int | h in index && t in index[h] :: Entry(index, h, t) != [])
  }

  function Insert(index: Index, h: nat, t: int, i: nat): Index {
    var tree := if h in index then index[h] else map[];
    var entry := if t in tree then tree[t] else [];
    index[h := tree[t := entry + [i]]]
  }

  method BuildIndex(hash: Hash, right: seq<Record>) returns (index: Index)
    ensures IsIndex(hash, right, index)
  {
    index := map[];
    for i := 0 to |right|
      invariant IsIndex(hash, right[..i], index)
    {
      IndexStep(hash, right, i, index);
      if right[i].key.Some? {
        index := Insert(index, hash(right[i].key.value), right[i].ts, i);
      }
    }
    assert right[..|right|] == right;
  }

  lemma IndexStep(hash: Hash, right: seq<Record>, i: nat, before: Index)
    requires i < |right| && IsIndex(hash, right[..i], before)
    ensures IsIndex(hash, right[..i + 1],
                    if right[i].key.Some? then Insert(before, hash(right[i].key.value), right[i].ts, i) else before)
  {
    var prefix := right[..i + 1];
    assert prefix[..i] == right[..i];
    var after := if right[i].key.Some? then Insert(before, hash(right[i].key.value), right[i].ts, i) else before;
    forall h: nat, t: int ensures Entry(after, h, t) == RowsAt(hash, prefix, h, t) {
      assert Entry(before, h, t) == RowsAt(hash, right[..i], h, t);
    }
    forall h: nat, t: int | h in after && t in after[h] ensures Entry(after, h, t) != [] {
      assert Entry(before, h, t) <= Entry(after, h, t);
    }
  }

  // ----- One left row --------------------------------------------------------------------------------------

  /** First candidate whose key really is the left key. */
  function FirstEqual(l: Record, right: seq<Record>, rows: seq<nat>): Option<nat>
    requires forall k | 0 <= k < |rows| :: rows[k] < |right|
  {
    if rows == [] then None
    else if KeysEqual(l, right[rows[0]]) then Some(rows[0])
    else FirstEqual(l, right, rows[1..])
  }

  ghost function Times(hash: Hash, right: seq<Record>, h: nat): set<int> {
    set i | 0 <= i < |right| && Hashes(hash, right[i], h) :: right[i].ts
  }

  /** What the index lookup answers for one left row. */
  ghost function Lookup(hash: Hash, c: Config, l: Record, right: seq<Record>): Option<nat> {
    if l.key.None? then None
    else
      var h := hash(l.key.value);
      var t := FindTime(Times(hash, right, h), l.ts, c.direction, c.tolerance);
      if t.None? then None
      else
        RowsAtNumbers(hash, right, h, t.value);
        FirstEqual(l, right, RowsAt(hash, right, h, t.value))
  }

  lemma {:induction false} FirstEqualFirst(l: Record, right: seq<Record>, rows: seq<nat>)
    requires RowNumbers(rows, right)
    ensures var m := FirstEqual(l, right, rows);
            && (m.None? ==> forall k | 0 <= k < |rows| :: !KeysEqual(l, right[rows[k]]))
            && (m.Some? ==> m.value < |right| && KeysEqual(l, right[m.value])
                            && (exists k :: 0 <= k < |rows| && rows[k] == m.value)
                            && forall k | 0 <= k < |rows| && KeysEqual(l, right[rows[k]]) :: m.value <= rows[k])
    decreases rows
  {
    if rows == [] {
    } else {
      var rest := rows[1..];
      FirstEqualFirst(l, right, rest);
      assert forall k | 1 <= k < |rows| :: rows[k] == rest[k - 1];
    }
  }

  /** Every answer is correct in key, direction and tolerance, whatever the hash. */
  lemma LookupSound(hash: Hash, c: Config, l: Record, right: seq<Record>)
    ensures var m := Lookup(hash, c, l, right);
            m.Some? ==> m.value < |right| && Candidate(c, l, right[m.value])
  {
    if Lookup(hash, c, l, right).Some? {
      var h := hash(l.key.value);
      var times := Times(hash, right, h);
      BestTimeClosest(times, l.ts, c.direction);
      var t := BestTime(times, l.ts, c.direction).value;
      RowsAtNumbers(hash, right, h, t);
      var rows := RowsAt(hash, right, h, t);
      FirstEqualFirst(l, right, rows);
      var k :| 0 <= k < |rows| && rows[k] == FirstEqual(l, right, rows).value;
      assert right[rows[k]].ts == t;
    }
  }

  /** A different key with the same hash. */
  predicate Collides(hash: Hash, l: Record, r: Record) {
    l.key.Some? && r.key.Some? && l.key.value != r.key.value && hash(l.key.value) == hash(r.key.value)
  }

  /** The left row has candidates, and an eligible row of a colliding key beats them all. */
  ghost predicate Shadowed(hash: Hash, c: Config, l: Record, right: seq<Record>) {
    && !NoMatch(c, l, right)
    && exists i | 0 <= i < |right| ::
         && Collides(hash, l, right[i]) && Eligible(c.direction, l.ts, right[i].ts)
         && forall j | 0 <= j < |right| && Candidate(c, l, right[j]) :: Closer(l.ts, right[i].ts, right[j].ts)
  }

  /** The index answers as the nested loop does exactly when the row is not shadowed by a hash
      collision; a shadowed row loses its match. */
  lemma LookupExact(hash: Hash, c: Config, l: Record, right: seq<Record>)
    ensures Lookup(hash, c, l, right) == Scan(c, l, right) <==> !Shadowed(hash, c, l, right)
    ensures Shadowed(hash, c, l, right) ==> Lookup(hash, c, l, right).None?
  {
    LookupSound(hash, c, l, right);
    var m := Scan(c, l, right);
    if m.Some? {
      LookupAt(hash, c, l, right, m.value);
    }
  }

  lemma LookupAt(hash: Hash, c: Config, l: Record, right: seq<Record>, j: nat)
    requires IsMatch(c, l, right, j)
    ensures if Shadowed(hash, c, l, right) then Lookup(hash, c, l, right).None?
            else Lookup(hash, c, l, right) == Some(j)
  {
    var h := hash(l.key.value);
    var times := Times(hash, right, h);
    assert right[j].ts in times;
    BestTimeClosest(times, l.ts, c.direction);
    var t := BestTime(times, l.ts, c.direction).value;
    assert !Closer(l.ts, right[j].ts, t);
    if t == right[j].ts {
      FirstAtMatch(hash, c, l, right, j);
    } else {
      assert Closer(l.ts, t, right[j].ts);
      ShadowedAt(hash, c, l, right, j, t);
    }
  }

  /** At the match's own timestamp the first row with the key is the match. */
  lemma FirstAtMatch(hash: Hash, c: Config, l: Record, right: seq<Record>, j: nat)
    requires IsMatch(c, l, right, j)
    ensures var rows := RowsAt(hash, right, hash(l.key.value), right[j].ts);
            RowNumbers(rows, right) && FirstEqual(l, right, rows) == Some(j)
  {
    var h := hash(l.key.value);
    var rows := RowsAt(hash, right, h, right[j].ts);
    RowsAtNumbers(hash, right, h, right[j].ts);
    FirstEqualFirst(l, right, rows);
    var k := RowsAtFind(hash, right, h, right[j].ts, j);
    assert KeysEqual(l, right[rows[k]]);
    var m := FirstEqual(l, right, rows).value;
    assert right[m].ts == right[j].ts && Candidate(c, l, right[m]);
  }

  /** A timestamp of the bucket closer than the match belongs to colliding keys only. */
  lemma ShadowedAt(hash: Hash, c: Config, l: Record, right: seq<Record>, j: nat, t: int)
    requires IsMatch(c, l, right, j)
    requires t in Times(hash, right, hash(l.key.value)) && Eligible(c.direction, l.ts, t)
    requires Closer(l.ts, t, right[j].ts)
    ensures Shadowed(hash, c, l, right)
    ensures var rows := RowsAt(hash, right, hash(l.key.value), t);
            RowNumbers(rows, right) && FirstEqual(l, right, rows).None?
  {
    var h := hash(l.key.value);
    var rows := RowsAt(hash, right, h, t);
    RowsAtNumbers(hash, right, h, t);
    FirstEqualFirst(l, right, rows);
    var i :| 0 <= i < |right| && Hashes(hash, right[i], h) && right[i].ts == t;
    assert !Candidate(c, l, right[i]);
    assert Collides(hash, l, right[i]);
  }

  // ----- The join --------------------------------------------------------------------------------------------

  /** One output row: a left row and the right row it is padded with, if any. */
  datatype Pair = Pair(left: nat, right: Option<nat>)

  /** Output rows for the answers found per left row. */
  function Emit(joinType: JoinType, found: seq<Option<nat>>): seq<Pair> {
    if found == [] then []
    else
      var n := |found| - 1;
      Emit(joinType, found[..n]) + (if found[n].Some? || joinType.LeftJoin? then [Pair(n, found[n])] else [])
  }

  ghost function Lookups(hash: Hash, c: Config, left: seq<Record>, right: seq<Record>): seq<Option<nat>> {
    seq(|left|, i requires 0 <= i < |left| => Lookup(hash, c, left[i], right))
  }

  ghost function Scans(c: Config, left: seq<Record>, right: seq<Record>): seq<Option<nat>> {
    seq(|left|, i requires 0 <= i < |left| => Scan(c, left[i], right))
  }

  /** The reference meaning of the join. */
  ghost function NestedLoop(c: Config, left: seq<Record>, right: seq<Record>): seq<Pair> {
    Emit(c.joinType, Scans(c, left, right))
  }

  function Zip(lefts: seq<nat>, rights: seq<Option<nat>>): seq<Pair>
    requires |lefts| == |rights|
  {
    seq(|lefts|, i requires 0 <= i < |lefts| => Pair(lefts[i], rights[i]))
  }

  lemma TreeTimes(hash: Hash, right: seq<Record>, index: Index, h: nat)
    requires IsIndex(hash, right, index)
    ensures Times(hash, right, h) == if h in index then index[h].Keys else {}
  {
    var keys := if h in index then index[h].Keys else {};
    forall t ensures t in keys <==> t in Times(hash, right, h) {
      RowsAtNumbers(hash, right, h, t);
      var rows := RowsAt(hash, right, h, t);
      assert Entry(index, h, t) == rows;
      if t in keys {
        assert Hashes(hash, right[rows[0]], h) && right[rows[0]].ts == t;
      }
      if t in Times(hash, right, h) {
        var i :| 0 <= i < |right| && Hashes(hash, right[i], h) && right[i].ts == t;
        var k := RowsAtFind(hash, right, h, t, i);
      }
    }
    SameIntSet(Times(hash, right, h), keys);
  }

  /** The rows at the best timestamp of one ordered map, if within tolerance. */
  function FindMatch(tree: Tree, l: int, d: Direction, tolerance: Option<int>): Option<seq<nat>> {
    BestTimeClosest(tree.Keys, l, d);
    var candidate := BestTime(tree.Keys, l, d);
    if candidate.Some? && Within(tolerance, l, candidate.value) then Some(tree[candidate.value]) else None
  }

  lemma LookupByIndex(hash: Hash, c: Config, l: Record, right: seq<Record>, index: Index)
    requires IsIndex(hash, right, index) && l.key.Some?
    ensures var h := hash(l.key.value);
            if h !in index || FindMatch(index[h], l.ts, c.direction, c.tolerance).None? then
              Lookup(hash, c, l, right).None?
            else
              var rows := FindMatch(index[h], l.ts, c.direction, c.tolerance).value;
              RowNumbers(rows, right) && Lookup(hash, c, l, right) == FirstEqual(l, right, rows)
  {
    var h := hash(l.key.value);
    TreeTimes(hash, right, index, h);
    BestTimeClosest(Times(hash, right, h), l.ts, c.direction);
    if h in index && FindMatch(index[h], l.ts, c.direction, c.tolerance).Some? {
      var t := BestTime(index[h].Keys, l.ts, c.direction).value;
      RowsAtNumbers(hash, right, h, t);
      assert index[h][t] == Entry(index, h, t);
    }
  }

  method MatchRow(hash: Hash, c: Config, l: Record, right: seq<Record>, index: Index) returns (m: Option<nat>)
    requires IsIndex(hash, right, index) && l.key.Some?
    ensures m == Lookup(hash, c, l, right)
  {
    var h := hash(l.key.value);
    LookupByIndex(hash, c, l, right, index);
    if h !in index {
      return None;
    }
    var found := FindMatch(index[h], l.ts, c.direction, c.tolerance);
    if found.None? {
      return None;
    }
    m := VerifyKeys(l, right, found.value);
  }

  /** Take the first candidate with the left key; the others share only its hash. */
  method VerifyKeys(l: Record, right: seq<Record>, candidates: seq<nat>) returns (m: Option<nat>)
    requires RowNumbers(candidates, right)
    ensures m == FirstEqual(l, right, candidates)
  {
    for k := 0 to |candidates|
      invariant FirstEqual(l, right, candidates) == FirstEqual(l, right, candidates[k..])
    {
      assert candidates[k..][1..] == candidates[k + 1..];
      if KeysEqual(l, right[candidates[k]]) {
        return Some(candidates[k]);
      }
    }
    return None;
  }

  /** The join on rows: index the right side, look every left row up. */
  method JoinRows(hash: Hash, c: Config, left: seq<Record>, right: seq<Record>)
    returns (lefts: seq<nat>, rights: seq<Option<nat>>)
    ensures |lefts| == |rights|
    ensures Zip(lefts, rights) == Emit(c.joinType, Lookups(hash, c, left, right))
  {
    var index := BuildIndex(hash, right);
    lefts, rights := [], [];
    ghost var all := Lookups(hash, c, left, right);
    for i := 0 to |left|
      invariant |lefts| == |rights|
      invariant Zip(lefts, rights) == Emit(c.joinType, all[..i])
    {
      assert all[..i + 1][..i] == all[..i];
      if left[i].key.None? {
        if c.joinType == LeftJoin {
          lefts, rights := lefts + [i], rights + [None];
        }
        continue;
      }
      var found := MatchRow(hash, c, left[i], right, index);
      match (c.joinType, found) {
        case (_, Some(_)) => lefts, rights := lefts + [i], rights + [found];
        case (LeftJoin, None) => lefts, rights := lefts + [i], rights + [None];
        case (InnerJoin, None) =>
      }
    }
    assert all[..|left|] == all;
  }

  // ----- Columns ---------------------------------------------------------------------------------------------

  /** An integer cell; a null one still has a number stored beneath. */
  datatype Cell = Cell(isNull: bool, stored: int)

  /** Columns by type. Floats are as the cast to 64-bit integers gives them. */
  datatype Column =
    | Utf8Column(texts: seq<Option<string>>)
    | Int64Column(cells: seq<Cell>)
    | MillisColumn(cells: seq<Cell>)
    | Float64Column(casts: seq<int>)
    | OtherColumn(length: nat)
  {
    function Length(): nat {
      match this
      case Utf8Column(texts) => |texts|
      case Int64Column(cells) => |cells|
      case MillisColumn(cells) => |cells|
      case Float64Column(casts) => |casts|
      case OtherColumn(length) => length
    }
  }

  datatype Batch = Batch(rows: nat, columns: map<string, Column>) {
    predicate Valid() {
      forall name | name in columns :: columns[name].Length() == rows
    }
  }

  datatype Names = Names(key: string, leftTime: string, rightTime: string)

  predicate IsKeyColumn(b: Batch, name: string) {
    name in b.columns && (b.columns[name].Utf8Column? || b.columns[name].Int64Column?)
  }

  predicate IsTimeColumn(b: Batch, name: string) {
    name in b.columns && !b.columns[name].Utf8Column? && !b.columns[name].OtherColumn?
  }

  function KeyAt(b: Batch, name: string, i: nat): Option<KeyValue>
    requires b.Valid() && IsKeyColumn(b, name) && i < b.rows
  {
    match b.columns[name]
    case Utf8Column(texts) => if texts[i].None? then None else Some(KeyValue.Utf8(texts[i].value))
    case Int64Column(cells) => if cells[i].isNull then None else Some(KeyValue.Int64(cells[i].stored))
  }

  /** Timestamps are read without regard to nulls. */
  function TimeAt(b: Batch, name: string, i: nat): int
    requires b.Valid() && IsTimeColumn(b, name) && i < b.rows
  {
    match b.columns[name]
    case Int64Column(cells) => cells[i].stored
    case MillisColumn(cells) => cells[i].stored
    case Float64Column(casts) => casts[i]
  }

  predicate Readable(b: Batch, key: string, time: string) {
    IsKeyColumn(b, key) && IsTimeColumn(b, time)
  }

  function RecordsOf(b: Batch, key: string, time: string): seq<Record>
    requires b.Valid() && Readable(b, key, time)
  {
    seq(b.rows, i requires 0 <= i < b.rows => Record(KeyAt(b, key, i), TimeAt(b, time, i)))
  }

  method Extract(b: Batch, key: string, time: string) returns (r: Result<seq<Record>>)
    requires b.Valid()
    ensures r.Success? <==> Readable(b, key, time)
    ensures r.Success? ==> r.value == RecordsOf(b, key, time)
  {
    if !IsKeyColumn(b, key) {
      return Failure("no usable key column");
    }
    if !IsTimeColumn(b, time) {
      return Failure("no usable timestamp column");
    }
    return Success(RecordsOf(b, key, time));
  }

  // ----- What the join means -----------------------------------------------------------------------------

  /** Left rows in order, at most once, each with the answer found for it, and none missing that
      the join type keeps. */
  ghost predicate IsEmission(joinType: JoinType, found: seq<Option<nat>>, out: seq<Pair>) {
    && (forall k | 0 <= k < |out| :: out[k].left < |found| && out[k].right == found[out[k].left])
    && (forall k, m | 0 <= k < m < |out| :: out[k].left < out[m].left)
    && (forall i: nat | i < |found| && (found[i].Some? || joinType.LeftJoin?) :: Pair(i, found[i]) in out)
    && (joinType.InnerJoin? ==> forall k | 0 <= k < |out| :: out[k].right.Some?)
  }

  lemma {:induction false} EmitOrdered(joinType: JoinType, found: seq<Option<nat>>)
    ensures IsEmission(joinType, found, Emit(joinType, found))
  {
    if found == [] {
    } else {
      var n := |found| - 1;
      EmitOrdered(joinType, found[..n]);
      EmissionMore(joinType, found, Emit(joinType, found[..n]));
    }
  }

  lemma EmissionMore(joinType: JoinType, found: seq<Option<nat>>, init: seq<Pair>)
    requires found != [] && IsEmission(joinType, found[..|found| - 1], init)
    ensures var last := found[|found| - 1];
            IsEmission(joinType, found,
                       init + if last.Some? || joinType.LeftJoin? then [Pair(|found| - 1, last)] else [])
  {
    var n := |found| - 1;
    var out := init + if found[n].Some? || joinType.LeftJoin? then [Pair(n, found[n])] else [];
    forall i: nat | i < |found| && (found[i].Some? || joinType.LeftJoin?) ensures Pair(i, found[i]) in out {
      assert i < n ==> Pair(i, found[..n][i]) in init;
    }
  }

  /** A Left join keeps every left row. */
  lemma {:induction false} EmitLeft(found: seq<Option<nat>>)
    ensures |Emit(LeftJoin, found)| == |found|
    ensures forall i | 0 <= i < |found| :: Emit(LeftJoin, found)[i].left == i
  {
    if found == [] {
    } else {
      EmitLeft(found[..|found| - 1]);
    }
  }

  lemma EmitInjective(joinType: JoinType, p: seq<Option<nat>>, q: seq<Option<nat>>)
    requires |p| == |q| && Emit(joinType, p) == Emit(joinType, q)
    ensures p == q
  {
    forall i | 0 <= i < |p| ensures p[i] == q[i] {
      EmitAnswer(joinType, p, q, i);
      EmitAnswer(joinType, q, p, i);
    }
  }

  lemma EmitAnswer(joinType: JoinType, p: seq<Option<nat>>, q: seq<Option<nat>>, i: nat)
    requires |p| == |q| && Emit(joinType, p) == Emit(joinType, q) && i < |p|
    ensures p[i].Some? ==> q[i] == p[i]
  {
    EmitOrdered(joinType, p);
    EmitOrdered(joinType, q);
    if p[i].Some? {
      assert Pair(i, p[i]) in Emit(joinType, q);
    }
  }

  /** The join equals the nested loop exactly when no left row is shadowed by a collision. */
  lemma JoinExact(hash: Hash, c: Config, left: seq<Record>, right: seq<Record>)
    ensures Emit(c.joinType, Lookups(hash, c, left, right)) == NestedLoop(c, left, right) <==>
            forall l | l in left :: !Shadowed(hash, c, l, right)
  {
    var found, wanted := Lookups(hash, c, left, right), Scans(c, left, right);
    forall i | 0 <= i < |left| ensures found[i] == wanted[i] <==> !Shadowed(hash, c, left[i], right) {
      LookupExact(hash, c, left[i], right);
    }
    if Emit(c.joinType, found) == Emit(c.joinType, wanted) {
      EmitInjective(c.joinType, found, wanted);
    }
    if forall l | l in left :: !Shadowed(hash, c, l, right) {
      assert found == wanted;
    }
  }

  ghost predicate NoCollisions(hash: Hash, left: seq<Record>, right: seq<Record>) {
    forall l, r | l in left && r in right :: !Collides(hash, l, r)
  }

  /** With a hash that separates the keys present, the join is the nested loop. */
  lemma JoinCorrect(hash: Hash, c: Config, left: seq<Record>, right: seq<Record>)
    requires NoCollisions(hash, left, right)
    ensures Emit(c.joinType, Lookups(hash, c, left, right)) == NestedLoop(c, left, right)
  {
    JoinExact(hash, c, left, right);
  }

  /** Whatever the hash: every output pair is a candidate, left rows keep their order, and a
      Left join has each left row once. */
  lemma JoinSound(hash: Hash, c: Config, left: seq<Record>, right: seq<Record>)
    ensures var out := Emit(c.joinType, Lookups(hash, c, left, right));
            && (forall k | 0 <= k < |out| ::
                  && out[k].left < |left|
                  && (out[k].right.Some? ==>
                        out[k].right.value < |right| && Candidate(c, left[out[k].left], right[out[k].right.value])))
            && (forall k, m | 0 <= k < m < |out| :: out[k].left < out[m].left)
            && (c.joinType.LeftJoin? ==> |out| == |left| && forall i | 0 <= i < |left| :: out[i].left == i)
  {
    var found := Lookups(hash, c, left, right);
    var out := Emit(c.joinType, found);
    EmitOrdered(c.joinType, found);
    EmitLeft(found);
    forall k | 0 <= k < |out| && out[k].right.Some?
      ensures out[k].right.value < |right| && Candidate(c, left[out[k].left], right[out[k].right.value])
    {
      LookupSound(hash, c, left[out[k].left], right);
    }
  }

  /** Any two keys with one hash lose a match: the nearer row of the other key hides it. */
  lemma CollisionLosesMatch(hash: Hash, a: KeyValue, b: KeyValue, l: int, near: int, far: int)
    requires a != b && hash(a) == hash(b) && far < near <= l
    ensures var c := Config(Backward, None, LeftJoin);
            var right := [Record(Some(a), far), Record(Some(b), near)];
            Scan(c, Record(Some(a), l), right) == Some(0) && Lookup(hash, c, Record(Some(a), l), right).None?
  {
    var c := Config(Backward, None, LeftJoin);
    var row, right := Record(Some(a), l), [Record(Some(a), far), Record(Some(b), near)];
    assert IsMatch(c, row, right, 0);
    ScanUnique(c, row, right, 0);
    assert Collides(hash, row, right[1]);
    LookupExact(hash, c, row, right);
  }

  // ----- The join on cells -----------------------------------------------------------------------------------

  predicate HasRows(b: Option<Batch>) {
    b.Some? && b.value.rows > 0
  }

  /** Both key cells are set, in columns of one type, and hold the same. */
  predicate SameKeyCells(a: Column, i: nat, b: Column, j: nat) {
    match (a, b)
    case (Utf8Column(s), Utf8Column(t)) => i < |s| && j < |t| && s[i].Some? && s[i] == t[j]
    case (Int64Column(s), Int64Column(t)) =>
      i < |s| && j < |t| && !s[i].isNull && !t[j].isNull && s[i].stored == t[j].stored
    case _ => false
  }

  predicate NullKeyCell(a: Column, i: nat) {
    match a
    case Utf8Column(s) => i < |s| && s[i].None?
    case Int64Column(s) => i < |s| && s[i].isNull
    case _ => false
  }

  /** The number stored in a timestamp cell, null or not. */
  predicate HoldsTime(a: Column, i: nat, t: int) {
    match a
    case Int64Column(s) => i < |s| && s[i].stored == t
    case MillisColumn(s) => i < |s| && s[i].stored == t
    case Float64Column(s) => i < |s| && s[i] == t
    case _ => false
  }

  predicate HasColumns(b: Batch, key: string, time: string) {
    key in b.columns && time in b.columns
  }

  /** Left row `i` at time `l` may be paired with right row `j` at time `r`. */
  predicate CellsMatch(c: Config, names: Names, left: Batch, i: nat, l: int, right: Batch, j: nat, r: int) {
    && HasColumns(left, names.key, names.leftTime) && HasColumns(right, names.key, names.rightTime)
    && SameKeyCells(left.columns[names.key], i, right.columns[names.key], j)
    && HoldsTime(left.columns[names.leftTime], i, l) && HoldsTime(right.columns[names.rightTime], j, r)
    && (c.direction.Backward? ==> r <= l) && (c.direction.Forward? ==> l <= r)
    && (c.tolerance.Some? ==> -c.tolerance.value <= l - r <= c.tolerance.value)
  }

  /** Every pair matches on its cells; a left row without a key is kept unmatched by a Left join
      and left out by an Inner join. */
  ghost predicate CellsJoin(c: Config, names: Names, left: Batch, right: Option<Batch>, lefts: seq<nat>,
                            rights: seq<Option<nat>>) {
    && |lefts| == |rights|
    && (forall k | 0 <= k < |lefts| && rights[k].Some? ::
          right.Some? && exists l, r :: CellsMatch(c, names, left, lefts[k], l, right.value, rights[k].value, r))
    && (names.key in left.columns ==>
          forall i: nat | NullKeyCell(left.columns[names.key], i) ::
            && (i in lefts <==> c.joinType.LeftJoin?)
            && (forall k | 0 <= k < |lefts| && lefts[k] == i :: rights[k].None?))
  }

  /** A left row is paired whenever it matches on its cells with any right row, and then with the
      closest one, the earlier side winning ties and the lower row at one time. */
  ghost predicate CellsClosest(c: Config, names: Names, left: Batch, right: Option<Batch>, lefts: seq<nat>,
                               rights: seq<Option<nat>>)
    requires |lefts| == |rights|
  {
    right.Some? ==>
      forall i: nat, l: int, j: nat, r: int | CellsMatch(c, names, left, i, l, right.value, j, r) ::
        exists k, m: nat, q: int ::
          && 0 <= k < |lefts| && lefts[k] == i && rights[k] == Some(m)
          && CellsMatch(c, names, left, i, l, right.value, m, q) && NotFarther(l, q, m, r, j)
  }

  /** Row `m` at time `q` is no worse a match for `l` than row `j` at time `r`. */
  predicate NotFarther(l: int, q: int, m: nat, r: int, j: nat) {
    && Distance(l, q) <= Distance(l, r)
    && (Distance(l, q) == Distance(l, r) ==> q <= r && (q == r ==> m <= j))
  }

  /** The hash tells all keys apart. */
  ghost predicate Separates(hash: Hash) {
    forall a, b | hash(a) == hash(b) :: a == b
  }

  /** What the rows read from the columns say is what the cells say. */
  lemma CandidateCells(c: Config, names: Names, left: Batch, i: nat, right: Batch, j: nat)
    requires left.Valid() && Readable(left, names.key, names.leftTime) && i < left.rows
    requires right.Valid() && Readable(right, names.key, names.rightTime) && j < right.rows
    ensures var a, b := RecordsOf(left, names.key, names.leftTime)[i], RecordsOf(right, names.key, names.rightTime)[j];
            && (Candidate(c, a, b) <==> CellsMatch(c, names, left, i, a.ts, right, j, b.ts))
            && HoldsTime(left.columns[names.leftTime], i, a.ts) && HoldsTime(right.columns[names.rightTime], j, b.ts)
  {
  }

  /** The row has a key cell, null or not, and a timestamp cell. */
  ghost predicate RowReads(keys: Column, times: Column, i: nat) {
    && (NullKeyCell(keys, i) || SameKeyCells(keys, i, keys, i))
    && exists t :: HoldsTime(times, i, t)
  }

  /** A batch with rows can be read exactly when every row has a key cell and a timestamp cell. */
  lemma ReadableExact(b: Batch, key: string, time: string)
    requires b.Valid() && b.rows > 0
    ensures Readable(b, key, time) <==>
            HasColumns(b, key, time) && forall i: nat | i < b.rows :: RowReads(b.columns[key], b.columns[time], i)
  {
    if Readable(b, key, time) {
      forall i: nat | i < b.rows ensures RowReads(b.columns[key], b.columns[time], i) {
        assert HoldsTime(b.columns[time], i, TimeAt(b, time, i));
      }
    } else if HasColumns(b, key, time) {
      assert !RowReads(b.columns[key], b.columns[time], 0);
    }
  }

  lemma NullCells(left: Batch, key: string, time: string, i: nat)
    requires left.Valid() && Readable(left, key, time)
    ensures NullKeyCell(left.columns[key], i) <==> i < left.rows && RecordsOf(left, key, time)[i].key.None?
  {
  }

  /** Rows of the right side; none are read if there are none. */
  function RightRows(names: Names, right: Option<Batch>): seq<Record>
    requires HasRows(right) ==> right.value.Valid() && Readable(right.value, names.key, names.rightTime)
  {
    if HasRows(right) then RecordsOf(right.value, names.key, names.rightTime) else []
  }

  lemma JoinOnCells(hash: Hash, c: Config, names: Names, left: Batch, right: Option<Batch>, lefts: seq<nat>,
                    rights: seq<Option<nat>>)
    requires left.Valid() && Readable(left, names.key, names.leftTime)
    requires HasRows(right) ==> right.value.Valid() && Readable(right.value, names.key, names.rightTime)
    requires |lefts| == |rights|
    requires Zip(lefts, rights) ==
             Emit(c.joinType, Lookups(hash, c, RecordsOf(left, names.key, names.leftTime), RightRows(names, right)))
    ensures CellsJoin(c, names, left, right, lefts, rights)
  {
    var ls, rs := RecordsOf(left, names.key, names.leftTime), RightRows(names, right);
    var found := Lookups(hash, c, ls, rs);
    var out := Zip(lefts, rights);
    JoinSound(hash, c, ls, rs);
    EmitOrdered(c.joinType, found);
    forall k | 0 <= k < |lefts| && rights[k].Some?
      ensures right.Some? && exists l, r :: CellsMatch(c, names, left, lefts[k], l, right.value, rights[k].value, r)
    {
      assert out[k] == Pair(lefts[k], rights[k]);
      CandidateCells(c, names, left, lefts[k], right.value, rights[k].value);
    }
    forall i: nat | NullKeyCell(left.columns[names.key], i)
      ensures i in lefts <==> c.joinType.LeftJoin?
      ensures forall k | 0 <= k < |lefts| && lefts[k] == i :: rights[k].None?
    {
      NullCells(left, names.key, names.leftTime, i);
      NullUnmatched(hash, c, ls, rs, lefts, rights, i);
    }
  }

  lemma NullUnmatched(hash: Hash, c: Config, ls: seq<Record>, rs: seq<Record>, lefts: seq<nat>,
                      rights: seq<Option<nat>>, i: nat)
    requires i < |ls| && ls[i].key.None? && |lefts| == |rights|
    requires Zip(lefts, rights) == Emit(c.joinType, Lookups(hash, c, ls, rs))
    ensures i in lefts <==> c.joinType.LeftJoin?
    ensures forall k | 0 <= k < |lefts| && lefts[k] == i :: rights[k].None?
  {
    var found := Lookups(hash, c, ls, rs);
    var out := Zip(lefts, rights);
    EmitOrdered(c.joinType, found);
    assert found[i].None?;
    forall k | 0 <= k < |lefts| && lefts[k] == i ensures rights[k].None? && c.joinType.LeftJoin? {
      assert out[k] == Pair(lefts[k], rights[k]);
    }
    if c.joinType.LeftJoin? {
      assert Pair(i, found[i]) in out;
      var k :| 0 <= k < |out| && out[k] == Pair(i, found[i]);
      assert lefts[k] == i;
    }
  }

  lemma ClosestOnCells(hash: Hash, c: Config, names: Names, left: Batch, right: Option<Batch>, lefts: seq<nat>,
                       rights: seq<Option<nat>>)
    requires left.Valid() && Readable(left, names.key, names.leftTime)
    requires HasRows(right) ==> right.value.Valid() && Readable(right.value, names.key, names.rightTime)
    requires right.Some? ==> right.value.Valid()
    requires |lefts| == |rights| && Separates(hash)
    requires Zip(lefts, rights) ==
             Emit(c.joinType, Lookups(hash, c, RecordsOf(left, names.key, names.leftTime), RightRows(names, right)))
    ensures CellsClosest(c, names, left, right, lefts, rights)
  {
    var ls, rs := RecordsOf(left, names.key, names.leftTime), RightRows(names, right);
    if right.Some? {
      forall i: nat, l: int, j: nat, r: int | CellsMatch(c, names, left, i, l, right.value, j, r)
        ensures exists k, m: nat, q: int ::
                  && 0 <= k < |lefts| && lefts[k] == i && rights[k] == Some(m)
                  && CellsMatch(c, names, left, i, l, right.value, m, q) && NotFarther(l, q, m, r, j)
      {
        InRange(c, names, left, i, l, right.value, j, r);
        CandidateCells(c, names, left, i, right.value, j);
        var k, m := Paired(hash, c, ls, rs, lefts, rights, i, j);
        CandidateCells(c, names, left, i, right.value, m);
        assert CellsMatch(c, names, left, i, l, right.value, m, rs[m].ts) && NotFarther(l, rs[m].ts, m, r, j);
      }
    }
  }

  lemma InRange(c: Config, names: Names, left: Batch, i: nat, l: int, right: Batch, j: nat, r: int)
    requires left.Valid() && right.Valid() && CellsMatch(c, names, left, i, l, right, j, r)
    ensures i < left.rows && j < right.rows
  {
  }

  /** Where the hash separates the keys, a row with a candidate is paired with its match. */
  lemma Paired(hash: Hash, c: Config, ls: seq<Record>, rs: seq<Record>, lefts: seq<nat>, rights: seq<Option<nat>>,
               i: nat, j: nat) returns (k: nat, m: nat)
    requires i < |ls| && j < |rs| && Candidate(c, ls[i], rs[j]) && |lefts| == |rights| && Separates(hash)
    requires Zip(lefts, rights) == Emit(c.joinType, Lookups(hash, c, ls, rs))
    ensures k < |lefts| && lefts[k] == i && rights[k] == Some(m) && m < |rs| && Candidate(c, ls[i], rs[m])
    ensures NotFarther(ls[i].ts, rs[m].ts, m, rs[j].ts, j)
  {
    var found := Lookups(hash, c, ls, rs);
    var out := Zip(lefts, rights);
    EmitOrdered(c.joinType, found);
    LookupExact(hash, c, ls[i], rs);
    var best := Scan(c, ls[i], rs);
    assert found[i] == best;
    m := best.value;
    assert Pair(i, found[i]) in out;
    k :| 0 <= k < |out| && out[k] == Pair(i, found[i]);
  }

  /** The join on batches. Without a left batch there is nothing to join. Columns are looked at
      only then, and those of the right side only if it has rows; a missing one or one of a type
      that cannot be read is an error. */
  method Execute(hash: Hash, c: Config, names: Names, left: Option<Batch>, right: Option<Batch>)
    returns (r: Result<(seq<nat>, seq<Option<nat>>)>)
    requires (left.Some? ==> left.value.Valid()) && (right.Some? ==> right.value.Valid())
    ensures left.None? ==> r == Success(([], []))
    ensures r.Failure? <==>
            && left.Some?
            && (!Readable(left.value, names.key, names.leftTime)
                || (right.Some? && right.value.rows > 0 && !Readable(right.value, names.key, names.rightTime)))
    ensures r.Success? && left.Some? ==>
              && |r.value.0| == |r.value.1|
              && Zip(r.value.0, r.value.1) ==
                 Emit(c.joinType,
                      Lookups(hash, c, RecordsOf(left.value, names.key, names.leftTime), RightRows(names, right)))
    ensures r.Success? && left.Some? ==> CellsJoin(c, names, left.value, right, r.value.0, r.value.1)
    ensures r.Success? && left.Some? && Separates(hash) ==>
              CellsClosest(c, names, left.value, right, r.value.0, r.value.1)
  {
    if left.None? {
      return Success(([], []));
    }
    var rights := [];
    if HasRows(right) {
      var extracted := Extract(right.value, names.key, names.rightTime);
      if extracted.Failure? {
        return Failure(extracted.error);
      }
      rights := extracted.value;
    }
    var lefts := Extract(left.value, names.key, names.leftTime);
    if lefts.Failure? {
      return Failure(lefts.error);
    }
    var leftIndices, rightIndices := JoinRows(hash, c, lefts.value, rights);
    JoinOnCells(hash, c, names, left.value, right, leftIndices, rightIndices);
    if Separates(hash) {
      ClosestOnCells(hash, c, names, left.value, right, leftIndices, rightIndices);
    }
    return Success((leftIndices, rightIndices));
  }
}
