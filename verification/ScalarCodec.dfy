/** The checkpoint's JSON encoding of scalar values. */
module ScalarCodec {
  import Int64
  import opened ScalarValues

  const MAX_U64: int := 0xFFFF_FFFF_FFFF_FFFF

  /** JSON numbers as the JSON library keeps them: non-negative integer, negative integer, float. */
  datatype Number = PosInt(u: nat) | NegInt(i: int) | FloatNum(value: real)

  datatype Json =
    | JNull
    | JBool(b: bool)
    | JNum(n: Number)
    | JStr(s: string)
    | JArr(items: seq<Json>)
    | JObj(members: seq<Member>)

  datatype Member = Member(name: string, value: Json)

  datatype Result<+T> = Success(value: T) | Failure(error: string)

  function IntNumber(i: int): Number {
    if i >= 0 then PosInt(i) else NegInt(i)
  }

  function AsI64(n: Number): Option<int> {
    match n
    case PosInt(u) => if u <= Int64.MAX then Some(u) else None
    case NegInt(i) => Some(i)
    case FloatNum(_) => None
  }

  function AsU64(n: Number): Option<nat> {
    if n.PosInt? then Some(n.u) else None
  }

  function AsF64(n: Number): Float {
    match n
    case PosInt(u) => Finite(u as real)
    case NegInt(i) => Finite(i as real)
    case FloatNum(x) => Finite(x)
  }

  function Tagged(t: string, v: Json): Json {
    JObj([Member("t", JStr(t)), Member("v", v)])
  }

  /** Index of the first member called `name`, or the length when there is none. */
  function Find(members: seq<Member>, name: string): (i: nat)
    ensures i <= |members|
    ensures i < |members| ==> members[i].name == name
    ensures forall k | 0 <= k < i :: members[k].name != name
  {
    if members == [] || members[0].name == name then 0 else 1 + Find(members[1..], name)
  }

  /** Encode: integers and floats are widened, strings lose their representation, non-finite
      floats become null, and everything unforeseen becomes its printed form under `STR`. */
  function Encode(v: Scalar): Json {
    match v
    case Null => JObj([Member("t", JStr("N"))])
    case Boolean(b) => Tagged("B", if b.None? then JNull else JBool(b.value))
    case Int(_, i) => Tagged("I64", if i.None? then JNull else JNum(IntNumber(i.value)))
    case UInt(_, u) => Tagged("U64", if u.None? then JNull else JNum(PosInt(u.value)))
    case Floating(_, f) =>
      Tagged("F64", if f.Some? && f.value.Finite? then JNum(FloatNum(f.value.value)) else JNull)
    case Text(_, s) => Tagged("S", if s.None? then JNull else JStr(s.value))
    case List(_, _, items) =>
      Tagged("L", JArr(seq(|items|, i requires 0 <= i < |items| => Encode(items[i]))))
    case Other(_, shown) => Tagged("STR", JStr(shown))
  }

  function Decode(j: Json): Result<Scalar> {
    var t := if j.JObj? then Find(j.members, "t") else 0;
    if !j.JObj? || t == |j.members| || !j.members[t].value.JStr? then
      Failure("missing type tag in scalar JSON")
    else
      var v := Find(j.members, "v");
      var value := if v < |j.members| then j.members[v].value else JNull;
      var t := j.members[t].value.s;
      if t == "N" then Success(Null)
      else if t == "B" then
        Success(Boolean(if value.JBool? then Some(value.b) else None))
      else if t == "I64" then
        Success(Int(W64, if value.JNum? then AsI64(value.n) else None))
      else if t == "U64" then
        Success(UInt(W64, if value.JNum? then AsU64(value.n) else None))
      else if t == "F64" then
        Success(Floating(F64, if value.JNum? then Some(AsF64(value.n)) else None))
      else if t == "S" then
        Success(Text(Utf8, if value.JStr? then Some(value.s) else None))
      else if t == "L" then
        if v < |j.members| && j.members[v].value.JArr? then DecodeList(j.members[v].value.items)
        else Failure("expected array for List scalar")
      else Failure("unsupported scalar type tag in checkpoint")
  }

  /** An empty array decodes to a null list; otherwise the first item fixes the item type. */
  function DecodeList(items: seq<Json>): Result<Scalar>
    decreases items, 1
  {
    var decoded := DecodeAll(items);
    if decoded.Failure? then Failure(decoded.error)
    else if decoded.value == [] then Success(List(NullType, true, []))
    else
      var item := TypeOf(decoded.value[0]);
      if forall i | 0 <= i < |decoded.value| :: TypeOf(decoded.value[i]) == item
      then Success(List(item, false, decoded.value))
      else Failure("list of mixed types")
  }

  function DecodeAll(items: seq<Json>): (r: Result<seq<Scalar>>)
    ensures r.Success? ==> |r.value| == |items|
    decreases items, 0
  {
    if items == [] then Success([])
    else
      var head := Decode(items[0]);
      var tail := DecodeAll(items[1..]);
      if head.Failure? then Failure(head.error)
      else if tail.Failure? then Failure(tail.error)
      else Success([head.value] + tail.value)
  }

  // ----- What the codec promises ---------------------------------------------------------

  /** Values within the range of their type; a list holds its item type, to any depth. */
  predicate Valid(v: Scalar) {
    match v
    case Int(_, Some(i)) => Int64.Is(i)
    case UInt(_, Some(u)) => u <= MAX_U64
    case List(item, isNull, xs) =>
      (isNull ==> xs == []) && forall i | 0 <= i < |xs| :: TypeOf(xs[i]) == item && Valid(xs[i])
    case _ => true
  }

  /** What a value comes back as: integers and floats wide, text plain, floats without a JSON
      number null, empty lists null, and lists typed by their first item. */
  function Widen(v: Scalar): Scalar {
    match v
    case Int(_, i) => Int(W64, i)
    case UInt(_, u) => UInt(W64, u)
    case Floating(_, f) => Floating(F64, if f.Some? && f.value.Finite? then f else None)
    case Text(_, s) => Text(Utf8, s)
    case List(_, _, items) =>
      if items == [] then List(NullType, true, [])
      else
        List(TypeOf(Widen(items[0])), false, seq(|items|, i requires 0 <= i < |items| => Widen(items[i])))
    case _ => v
  }

  /** Some part of the value is encoded under the `STR` fallback tag, or a list in it has items
      that widen to different types. */
  predicate Unreadable(v: Scalar) {
    v.Other? || (v.List? && exists i :: 0 <= i < |v.items| && (Unreadable(v.items[i]) || Misfit(v, i)))
  }

  /** Item `i` does not widen to the type of the first one. */
  predicate Misfit(v: Scalar, i: nat)
    requires v.List? && i < |v.items|
  {
    TypeOf(Widen(v.items[i])) != TypeOf(Widen(v.items[0]))
  }

  predicate AnyUnreadable(xs: seq<Scalar>) {
    exists i :: 0 <= i < |xs| && Unreadable(xs[i])
  }

  lemma UnreadableHead(xs: seq<Scalar>)
    requires xs != []
    ensures AnyUnreadable(xs) <==> Unreadable(xs[0]) || AnyUnreadable(xs[1..])
  {
    if i :| 0 <= i < |xs| && Unreadable(xs[i]) {
      assert i > 0 ==> xs[1..][i - 1] == xs[i];
    }
    if i :| 0 <= i < |xs[1..]| && Unreadable(xs[1..][i]) {
      assert xs[i + 1] == xs[1..][i];
    }
  }

  lemma TaggedMembers(t: string, v: Json)
    ensures Find(Tagged(t, v).members, "t") == 0 && Find(Tagged(t, v).members, "v") == 1
  {
    assert Tagged(t, v).members[0].name != "v" by { assert "t"[0] != "v"[0]; }
  }

  lemma AtomRoundTrip(v: Scalar)
    requires Valid(v) && !v.List?
    ensures if v.Other? then Decode(Encode(v)).Failure? else Decode(Encode(v)) == Success(Widen(v))
  {
    if !v.Null? {
      TaggedMembers(Encode(v).members[0].value.s, Encode(v).members[1].value);
    }
  }

  /** The JSON decodes to the widened value, or fails if that cannot be read. */
  ghost predicate ReadsBack(v: Scalar, j: Json) {
    (Decode(j).Failure? <==> Unreadable(v)) && (Decode(j).Success? ==> Decode(j) == Success(Widen(v)))
  }

  function EncodedItems(v: Scalar): (js: seq<Json>)
    requires v.List?
    ensures |js| == |v.items| && forall i | 0 <= i < |js| :: js[i] == Encode(v.items[i])
  {
    Encode(v).members[1].value.items
  }

  lemma ListTagged(v: Scalar)
    requires v.List?
    ensures Decode(Encode(v)) == DecodeList(EncodedItems(v))
  {
    TaggedMembers("L", JArr(EncodedItems(v)));
  }

  /** Decoding an encoded value gives its widened form, and fails exactly on a fallback tag or on
      a list whose items widen to different types. */
  lemma {:induction false} RoundTrip(v: Scalar)
    requires Valid(v)
    ensures Decode(Encode(v)).Failure? <==> Unreadable(v)
    ensures !Unreadable(v) ==> Decode(Encode(v)) == Success(Widen(v))
  {
    if v.List? {
      var js := EncodedItems(v);
      forall i | 0 <= i < |js| ensures ReadsBack(v.items[i], js[i]) {
        RoundTrip(v.items[i]);
      }
      ItemsDecoded(v.items, js);
      ListTagged(v);
      ListDecoded(v, js);
    } else {
      AtomRoundTrip(v);
    }
  }

  lemma {:induction false} ItemsDecoded(xs: seq<Scalar>, js: seq<Json>)
    requires |js| == |xs| && forall i | 0 <= i < |js| :: ReadsBack(xs[i], js[i])
    ensures DecodeAll(js).Failure? <==> AnyUnreadable(xs)
    ensures DecodeAll(js).Success? ==> forall i | 0 <= i < |js| :: DecodeAll(js).value[i] == Widen(xs[i])
  {
    if xs == [] {
    } else {
      assert ReadsBack(xs[0], js[0]);
      ItemsDecoded(xs[1..], js[1..]);
      UnreadableHead(xs);
    }
  }

  lemma ListDecoded(v: Scalar, js: seq<Json>)
    requires v.List? && |js| == |v.items|
    requires DecodeAll(js).Failure? <==> AnyUnreadable(v.items)
    requires DecodeAll(js).Success? ==> forall i | 0 <= i < |js| :: DecodeAll(js).value[i] == Widen(v.items[i])
    ensures DecodeList(js).Failure? <==> Unreadable(v)
    ensures !Unreadable(v) ==> DecodeList(js) == Success(Widen(v))
  {
    var decoded := DecodeAll(js);
    if decoded.Success? && v.items != [] {
      assert decoded.value == Widen(v).items;
      assert forall i: nat | i < |v.items| :: Misfit(v, i) <==> TypeOf(decoded.value[i]) != TypeOf(decoded.value[0]);
    }
  }

  /** Widening is invisible to the encoder, and done once is done for good. */
  lemma {:induction false} EncodeWiden(v: Scalar)
    requires Valid(v)
    ensures Encode(Widen(v)) == Encode(v) && Widen(Widen(v)) == Widen(v)
    ensures Unreadable(Widen(v)) <==> Unreadable(v)
    ensures !Unreadable(v) ==> Valid(Widen(v))
  {
    if v.List? {
      var xs, ws := v.items, Widen(v).items;
      forall i | 0 <= i < |xs|
        ensures Encode(ws[i]) == Encode(xs[i]) && Widen(ws[i]) == ws[i] && (Unreadable(ws[i]) <==> Unreadable(xs[i]))
        ensures !Unreadable(xs[i]) ==> Valid(ws[i])
      {
        EncodeWiden(xs[i]);
      }
      assert Encode(Widen(v)).members[1].value.items == Encode(v).members[1].value.items;
      assert Widen(Widen(v)).items == ws;
      forall i: nat | i < |xs| ensures Misfit(Widen(v), i) <==> Misfit(v, i) {
      }
    }
  }

  /** A nested list with an empty list beside a full one cannot be read back. */
  lemma EmptyBesideFull(i: int)
    requires Int64.Is(i)
    ensures var full, empty := List(IntType(W64), false, [Int(W64, Some(i))]), List(IntType(W64), false, []);
            var v := List(ListType(IntType(W64)), false, [full, empty]);
            Valid(v) && Decode(Encode(v)).Failure?
  {
    var full, empty := List(IntType(W64), false, [Int(W64, Some(i))]), List(IntType(W64), false, []);
    var v := List(ListType(IntType(W64)), false, [full, empty]);
    assert Widen(full.items[0]) == Int(W64, Some(i));
    assert Widen(full).item == IntType(W64) && Widen(empty).item == NullType;
    assert TypeOf(Widen(v.items[0])) == ListType(IntType(W64)) && TypeOf(Widen(v.items[1])) == ListType(NullType);
    assert Misfit(v, 1);
    RoundTrip(v);
  }

  /** Two values are encoded alike exactly when they widen alike. */
  lemma EncodeIdentifies(a: Scalar, b: Scalar)
    requires Valid(a) && Valid(b) && !Unreadable(a) && !Unreadable(b)
    ensures Encode(a) == Encode(b) <==> Widen(a) == Widen(b)
  {
    RoundTrip(a);
    RoundTrip(b);
    EncodeWiden(a);
    EncodeWiden(b);
  }

  // ----- Group keys ------------------------------------------------------------------------

  function EncodeAll(xs: seq<Scalar>): (js: seq<Json>)
  {
    if xs == [] then [] else [Encode(xs[0])] + EncodeAll(xs[1..])
  }

  /** Every scalar is in the range of its type. */
  predicate Typed(xs: seq<Scalar>) {
    forall i | 0 <= i < |xs| :: Valid(xs[i])
  }

  function WidenAll(xs: seq<Scalar>): (ws: seq<Scalar>)
    ensures |ws| == |xs|
  {
    if xs == [] then [] else [Widen(xs[0])] + WidenAll(xs[1..])
  }

  /** A row of scalars decodes to its widened form, and fails exactly when one of them cannot be
      read back. */
  lemma {:induction false} KeyRoundTrip(xs: seq<Scalar>)
    requires Typed(xs)
    ensures DecodeAll(EncodeAll(xs)).Failure? <==> AnyUnreadable(xs)
    ensures !AnyUnreadable(xs) ==> DecodeAll(EncodeAll(xs)) == Success(WidenAll(xs))
  {
    if xs == [] {
    } else {
      RoundTrip(xs[0]);
      KeyRoundTrip(xs[1..]);
      UnreadableHead(xs);
      assert EncodeAll(xs)[1..] == EncodeAll(xs[1..]);
    }
  }

  lemma {:induction false} WidenTwice(xs: seq<Scalar>)
    requires Typed(xs)
    ensures WidenAll(WidenAll(xs)) == WidenAll(xs)
  {
    if xs == [] {
    } else {
      EncodeWiden(xs[0]);
      WidenTwice(xs[1..]);
      assert WidenAll(xs)[1..] == WidenAll(xs[1..]);
    }
  }
}
