/** The accumulators of one group, as the operators use them: opaque values that are fed rows,
    combined, and saved as scalars. */
module Accumulators {
  import Int64
  import opened ScalarValues
  import opened ScalarCodec

  /** `feed` takes rows in order, `combine` merges the state of another group's accumulators in
      memory, `states` are the scalars a checkpoint writes, one row of them per accumulator, and
      `load` merges such scalars into fresh accumulators, which may refuse them. */
  datatype Accumulators<!R, !A> = Accumulators(
    empty: A, feed: (A, seq<R>) -> A, combine: (A, A) -> A,
    states: A -> seq<seq<Scalar>>, load: seq<seq<Scalar>> -> Option<A>)

  /** Feeding rows in one go or in two makes no difference. */
  ghost predicate Sequential<R(!new), A(!new)>(acc: Accumulators<R, A>) {
    forall a: A, p: seq<R>, q: seq<R> :: acc.feed(acc.feed(a, p), q) == acc.feed(a, p + q)
  }

  /** What the accumulators hold after some rows. */
  ghost function Of<R, A>(acc: Accumulators<R, A>, rows: seq<R>): A {
    acc.feed(acc.empty, rows)
  }

  /** Merging a state into fresh accumulators reproduces it. */
  ghost predicate Reloads<R(!new), A>(acc: Accumulators<R, A>) {
    forall rows: seq<R> :: acc.load(acc.states(Of(acc, rows))) == Some(Of(acc, rows))
  }

  // ----- Through the checkpoint codec -----------------------------------------------------------------

  function EncodeStates(ss: seq<seq<Scalar>>): seq<seq<Json>> {
    seq(|ss|, i requires 0 <= i < |ss| => EncodeAll(ss[i]))
  }

  function WidenStates(ss: seq<seq<Scalar>>): seq<seq<Scalar>> {
    seq(|ss|, i requires 0 <= i < |ss| => WidenAll(ss[i]))
  }

  /** States are decoded one by one; the first undecodable one aborts. */
  function DecodeStates(js: seq<seq<Json>>): (r: Result<seq<seq<Scalar>>>)
    ensures r.Success? ==> |r.value| == |js|
  {
    if js == [] then Success([])
    else
      var n := |js| - 1;
      var init := DecodeStates(js[..n]);
      if init.Failure? then init
      else
        var last := DecodeAll(js[n]);
        if last.Failure? then Failure(last.error) else Success(init.value + [last.value])
  }

  ghost predicate StatesTyped(ss: seq<seq<Scalar>>) {
    forall i | 0 <= i < |ss| :: Typed(ss[i])
  }

  ghost predicate StatesUnreadable(ss: seq<seq<Scalar>>) {
    exists i :: 0 <= i < |ss| && AnyUnreadable(ss[i])
  }

  lemma {:induction false} StatesRoundTrip(ss: seq<seq<Scalar>>)
    requires StatesTyped(ss)
    ensures DecodeStates(EncodeStates(ss)).Failure? <==> StatesUnreadable(ss)
    ensures !StatesUnreadable(ss) ==> DecodeStates(EncodeStates(ss)) == Success(WidenStates(ss))
  {
    if ss == [] {
      assert EncodeStates(ss) == [] && WidenStates(ss) == [];
    } else {
      TypedInit(ss);
      StatesRoundTrip(ss[..|ss| - 1]);
      KeyRoundTrip(ss[|ss| - 1]);
      DecodeLast(ss);
      UnreadableLast(ss);
      WidenLast(ss);
    }
  }

  lemma TypedInit(ss: seq<seq<Scalar>>)
    requires ss != [] && StatesTyped(ss)
    ensures StatesTyped(ss[..|ss| - 1]) && Typed(ss[|ss| - 1])
  {
  }

  lemma WidenLast(ss: seq<seq<Scalar>>)
    requires ss != []
    ensures WidenStates(ss) == WidenStates(ss[..|ss| - 1]) + [WidenAll(ss[|ss| - 1])]
  {
  }

  lemma DecodeLast(ss: seq<seq<Scalar>>)
    requires ss != []
    ensures var init := DecodeStates(EncodeStates(ss[..|ss| - 1]));
            var last := DecodeAll(EncodeAll(ss[|ss| - 1]));
            var all := DecodeStates(EncodeStates(ss));
            && (all.Failure? <==> init.Failure? || last.Failure?)
            && (all.Success? ==> all.value == init.value + [last.value])
  {
    assert EncodeStates(ss)[..|ss| - 1] == EncodeStates(ss[..|ss| - 1]);
  }

  lemma UnreadableLast(ss: seq<seq<Scalar>>)
    requires ss != []
    ensures StatesUnreadable(ss) <==> StatesUnreadable(ss[..|ss| - 1]) || AnyUnreadable(ss[|ss| - 1])
  {
    var init := ss[..|ss| - 1];
    if i :| 0 <= i < |ss| && AnyUnreadable(ss[i]) {
      assert i < |init| ==> init[i] == ss[i];
    }
    if i :| 0 <= i < |init| && AnyUnreadable(init[i]) {
      assert ss[i] == init[i];
    }
  }

  function SaveStates<R, A>(acc: Accumulators<R, A>, a: A): seq<seq<Json>> {
    EncodeStates(acc.states(a))
  }

  /** Decode the states, then merge them into fresh accumulators. */
  function LoadStates<R, A>(acc: Accumulators<R, A>, js: seq<seq<Json>>): Result<A> {
    var ss := DecodeStates(js);
    if ss.Failure? then Failure(ss.error)
    else
      var a := acc.load(ss.value);
      if a.None? then Failure("accumulator merge") else Success(a.value)
  }

  /** The saved state can be read back, and fresh accumulators take its widened
      form. */
  ghost predicate Loadable<R, A>(acc: Accumulators<R, A>, a: A) {
    !StatesUnreadable(acc.states(a)) && acc.load(WidenStates(acc.states(a))).Some?
  }

  /** The saved state can be read back, and its widened form still stands for the
      same accumulators. */
  ghost predicate Kept<R, A(!new)>(acc: Accumulators<R, A>, a: A) {
    !StatesUnreadable(acc.states(a)) && acc.load(WidenStates(acc.states(a))) == Some(a)
  }

  /** Accumulators come back from a checkpoint unchanged exactly when they are kept, and come
      back at all exactly when they are loadable. */
  lemma LoadSaved<R, A(!new)>(acc: Accumulators<R, A>, a: A)
    requires StatesTyped(acc.states(a))
    ensures LoadStates(acc, SaveStates(acc, a)).Success? <==> Loadable(acc, a)
    ensures LoadStates(acc, SaveStates(acc, a)) == Success(a) <==> Kept(acc, a)
  {
    StatesRoundTrip(acc.states(a));
  }

  /** States that are wide already are kept. */
  lemma WideStatesKept<R(!new), A(!new)>(acc: Accumulators<R, A>, rows: seq<R>)
    requires Reloads(acc) && !StatesUnreadable(acc.states(Of(acc, rows)))
    requires WidenStates(acc.states(Of(acc, rows))) == acc.states(Of(acc, rows))
    ensures Kept(acc, Of(acc, rows))
  {
  }

  /** States a restart does not survive, wide keys or not: a type the codec lacks is refused, a
      float without a JSON number comes back null, a narrow integer comes back wide. */
  lemma StatesLost(name: string, shown: string, float: string, i: int)
    requires Int64.Is(i)
    ensures DecodeStates(EncodeStates([[Other(name, shown)]])).Failure?
    ensures DecodeStates(EncodeStates([[Floating(F64, Some(NotFinite(float)))]]))
         == Success([[Floating(F64, None)]])
    ensures DecodeStates(EncodeStates([[Int(W32, Some(i))]])) == Success([[Int(W64, Some(i))]])
  {
    OneState(Other(name, shown));
    OneState(Floating(F64, Some(NotFinite(float))));
    OneState(Int(W32, Some(i)));
  }

  lemma OneState(v: Scalar)
    requires Valid(v)
    ensures DecodeStates(EncodeStates([[v]])).Failure? <==> Unreadable(v)
    ensures !Unreadable(v) ==> DecodeStates(EncodeStates([[v]])) == Success([[Widen(v)]])
  {
    var ss := [[v]];
    StatesRoundTrip(ss);
    UnreadableHead(ss[0]);
    UnreadableLast(ss);
    assert ss[0][1..] == [] && ss[..0] == [];
    assert WidenAll([]) == [];
    assert WidenAll(ss[0]) == [Widen(v)];
    assert WidenStates(ss) == [[Widen(v)]];
  }
}
