/** Extensionality, extrema and ascending enumeration of finite collections. */
module Collections {
  ghost function Pick<T>(s: set<T>): (x: T)
    requires s != {}
    ensures x in s
  {
    var x :| x in s;
    x
  }

  ghost function KeyOf<K, V>(m: map<K, V>, v: V): (k: K)
    requires v in m.Values
    ensures k in m && m[k] == v
  {
    var k :| k in m && m[k] == v;
    k
  }

  /** The elements at these positions. */
  function Take<T>(q: seq<T>, indices: seq<nat>): seq<T>
    requires forall i | 0 <= i < |indices| :: indices[i] < |q|
  {
    seq(|indices|, i requires 0 <= i < |indices| => q[indices[i]])
  }

  /** `order` lists once what is not still to do. */
  ghost predicate VisitedOnce<K(!new)>(order: seq<K>, all: set<K>, todo: set<K>) {
    && (forall i, j | 0 <= i < j < |order| :: order[i] != order[j])
    && (forall k :: k in order <==> k in all && k !in todo)
  }

  lemma TakeOne<T>(q: seq<T>, i: nat)
    requires i < |q|
    ensures q[..i + 1] == q[..i] + [q[i]]
  {
  }

  lemma SplitLast<T>(q: seq<T>)
    requires q != []
    ensures q == q[..|q| - 1] + [q[|q| - 1]]
  {
  }

  lemma SameIntSet(a: set<int>, b: set<int>)
    requires forall x :: x in a <==> x in b
    ensures a == b
  {
    if a - b != {} {
      var x := Pick(a - b);
      assert false;
    }
    if b - a != {} {
      var x := Pick(b - a);
      assert false;
    }
  }

  lemma SameIntMap<V>(a: map<int, V>, b: map<int, V>)
    requires forall k :: k in a <==> k in b
    requires forall k | k in a && k in b :: a[k] == b[k]
    ensures a == b
  {
    SameIntSet(a.Keys, b.Keys);
    if a != b {
      var k := Differing(a, b);
      assert false;
    }
  }

  lemma Differing<K, V>(a: map<K, V>, b: map<K, V>) returns (k: K)
    requires a != b && a.Keys == b.Keys
    ensures k in a && k in b && a[k] != b[k]
  {
    k :| k in a && k in b && a[k] != b[k];
  }

  ghost function MaxOf(s: set<int>): (m: int)
    requires s != {}
    ensures m in s
    ensures forall x | x in s :: x <= m
  {
    var x := Pick(s);
    if s == {x} then x
    else
      var y := MaxOf(s - {x});
      assert forall z | z in s :: z == x || z in s - {x};
      if x >= y then x else y
  }

  ghost function MinOf(s: set<int>): (m: int)
    requires s != {}
    ensures m in s
    ensures forall x | x in s :: m <= x
  {
    var x := Pick(s);
    if s == {x} then x
    else
      var y := MinOf(s - {x});
      assert forall z | z in s :: z == x || z in s - {x};
      if x <= y then x else y
  }

  ghost predicate Ascending(q: seq<int>) {
    forall i, j | 0 <= i < j < |q| :: q[i] < q[j]
  }

  /** `q` is the keys of an ordered map with key set `s`, in iteration order. */
  ghost predicate Enumerates(q: seq<int>, s: set<int>) {
    Ascending(q) && forall x :: x in q <==> x in s
  }

  lemma AscendingPush(q: seq<int>, m: int)
    requires Ascending(q)
    requires forall x | x in q :: x < m
    ensures Ascending(q + [m])
  {
    forall i, j | 0 <= i < j < |q + [m]|
      ensures (q + [m])[i] < (q + [m])[j]
    {
      if j == |q| { assert q[i] in q; }
    }
  }

  ghost function Enumerate(s: set<int>): (q: seq<int>)
    ensures Enumerates(q, s)
    ensures forall i | 0 <= i < |q| :: q[i] in s
  {
    if s == {} then []
    else
      var m := MaxOf(s);
      AscendingPush(Enumerate(s - {m}), m);
      Enumerate(s - {m}) + [m]
  }

  lemma {:induction false} EnumerationUnique(p: seq<int>, q: seq<int>, s: set<int>)
    requires Enumerates(p, s) && Enumerates(q, s)
    ensures p == q
    decreases |p|
  {
    if p == [] {
      if q != [] {
        FirstEnumerated(q, s);
      }
    } else {
      var m := p[|p| - 1];
      assert m in p;
      assert q != [];
      LastIsGreatest(p, s);
      LastIsGreatest(q, s);
      EnumerationUnique(p[..|p| - 1], q[..|q| - 1], s - {m});
    }
  }

  lemma FirstEnumerated(q: seq<int>, s: set<int>)
    requires Enumerates(q, s) && q != []
    ensures q[0] in s
  {
    assert q[0] in q;
  }

  lemma LastIsGreatest(q: seq<int>, s: set<int>)
    requires Enumerates(q, s) && q != []
    ensures q[|q| - 1] in s && forall x | x in s :: x <= q[|q| - 1]
    ensures Enumerates(q[..|q| - 1], s - {q[|q| - 1]})
  {
    var m := q[|q| - 1];
    assert m in q;
    assert q == q[..|q| - 1] + [m];
  }

  method Least(s: set<int>) returns (m: int)
    requires s != {}
    ensures m in s && forall x | x in s :: m <= x
  {
    ghost var seed := Pick(s);
    m :| m in s;
    var rest := s - {m};
    while rest != {}
      invariant rest < s && m in s
      invariant forall x | x in s && x !in rest :: m <= x
      decreases |rest|
    {
      ghost var some := Pick(rest);
      var x :| x in rest;
      if x < m { m := x; }
      rest := rest - {x};
    }
  }

  /** Keys of an ordered map in iteration order. */
  method SortedKeys(s: set<int>) returns (q: seq<int>)
    ensures Enumerates(q, s)
  {
    q := [];
    var rest := s;
    while rest != {}
      invariant rest <= s
      invariant forall x :: x in q <==> x in s && x !in rest
      invariant forall x, y | x in q && y in rest :: x < y
      invariant Ascending(q)
      decreases |rest|
    {
      var m := Least(rest);
      AscendingPush(q, m);
      q := q + [m];
      rest := rest - {m};
    }
  }
}
