/** A table of groups under a cardinality cap: existing groups always take their rows, new
    groups are only admitted below the cap. */
module GroupCap {
  import opened ScalarValues
  import opened Accumulators

  /** No group is ever partial: a group present holds everything `known` about it, the cap is
      respected, and a group with rows is absent only when the table is full. */
  ghost predicate NoPartial<K(!new), R(!new)>(groups: map<K, seq<R>>, known: K -> seq<R>, cap: Option<nat>) {
    && (forall k | k in groups :: groups[k] == known(k) && known(k) != [])
    && (cap.Some? ==> |groups| <= cap.value)
    && (forall k | k !in groups && known(k) != [] :: cap.Some? && |groups| == cap.value)
  }

  function Admit<K, R>(groups: map<K, seq<R>>, k: K, rows: seq<R>, cap: Option<nat>): map<K, seq<R>> {
    if k in groups then groups[k := groups[k] + rows]
    else if cap.Some? && |groups| >= cap.value then groups
    else groups[k := rows]
  }

  lemma AdmitKeeps<K(!new), R(!new)>(groups: map<K, seq<R>>, known: K -> seq<R>, known': K -> seq<R>,
                                     k: K, rows: seq<R>, cap: Option<nat>)
    requires NoPartial(groups, known, cap) && rows != []
    requires known'(k) == known(k) + rows && forall j | j != k :: known'(j) == known(j)
    ensures NoPartial(Admit(groups, k, rows, cap), known', cap)
  {
    if k in groups {
      AdmitExisting(groups, known, known', k, rows, cap);
    } else if cap.Some? && |groups| >= cap.value {
    } else {
      AdmitNew(groups, known, known', k, rows, cap);
    }
  }

  lemma AdmitNew<K(!new), R(!new)>(groups: map<K, seq<R>>, known: K -> seq<R>, known': K -> seq<R>,
                                   k: K, rows: seq<R>, cap: Option<nat>)
    requires NoPartial(groups, known, cap) && rows != []
    requires k !in groups && (cap.Some? ==> |groups| < cap.value)
    requires known'(k) == known(k) + rows && forall j | j != k :: known'(j) == known(j)
    ensures NoPartial(groups[k := rows], known', cap)
  {
    assert known(k) == [];
    assert groups[k := rows].Keys == groups.Keys + {k};
    assert |groups[k := rows]| == |groups| + 1;
  }

  lemma AdmitExisting<K(!new), R(!new)>(groups: map<K, seq<R>>, known: K -> seq<R>, known': K -> seq<R>,
                                        k: K, rows: seq<R>, cap: Option<nat>)
    requires NoPartial(groups, known, cap) && k in groups
    requires known'(k) == known(k) + rows && forall j | j != k :: known'(j) == known(j)
    ensures NoPartial(groups[k := groups[k] + rows], known', cap)
  {
    assert groups[k := groups[k] + rows].Keys == groups.Keys;
  }

  lemma NoPartialSame<K(!new), R(!new)>(groups: map<K, seq<R>>, known: K -> seq<R>, known': K -> seq<R>, cap: Option<nat>)
    requires NoPartial(groups, known, cap) && forall k :: known'(k) == known(k)
    ensures NoPartial(groups, known', cap)
  {
  }

  /** When no more distinct groups have rows than the cap allows, none is missing. */
  lemma NothingDropped<K(!new), R(!new)>(groups: map<K, seq<R>>, known: K -> seq<R>, cap: Option<nat>, keys: set<K>)
    requires NoPartial(groups, known, cap)
    requires forall k | known(k) != [] :: k in keys
    requires cap.Some? ==> |keys| <= cap.value
    ensures forall k :: k in groups <==> known(k) != []
  {
    forall k | known(k) != [] ensures k in groups {
      if k !in groups {
        assert groups.Keys <= keys - {k};
        Smaller(groups.Keys, keys - {k});
      }
    }
  }

  lemma Smaller<T>(a: set<T>, b: set<T>)
    requires a <= b
    ensures |a| <= |b|
  {
    if a == {} {
    } else {
      var x :| x in a;
      Smaller(a - {x}, b - {x});
    }
  }

  // ----- With accumulators ----------------------------------------------------------------------------

  /** The same admission where a group is its accumulators. */
  function AdmitTo<K, R, A>(acc: Accumulators<R, A>, table: map<K, A>, k: K, rows: seq<R>, cap: Option<nat>): map<K, A> {
    if k in table then table[k := acc.feed(table[k], rows)]
    else if cap.Some? && |table| >= cap.value then table
    else table[k := acc.feed(acc.empty, rows)]
  }

  /** The accumulators behind which these rows stand. */
  ghost function Image<K, R, A>(acc: Accumulators<R, A>, groups: map<K, seq<R>>): map<K, A> {
    map k | k in groups :: Of(acc, groups[k])
  }

  lemma AdmitImage<K(!new), R(!new), A(!new)>(acc: Accumulators<R, A>, groups: map<K, seq<R>>, k: K, rows: seq<R>,
                                              cap: Option<nat>)
    requires Sequential(acc)
    ensures AdmitTo(acc, Image(acc, groups), k, rows, cap) == Image(acc, Admit(groups, k, rows, cap))
  {
    ImageSize(acc, groups);
  }

  lemma ImageSize<K, R, A>(acc: Accumulators<R, A>, groups: map<K, seq<R>>)
    ensures Image(acc, groups).Keys == groups.Keys && |Image(acc, groups)| == |groups|
  {
    assert |Image(acc, groups)| == |Image(acc, groups).Keys| && |groups| == |groups.Keys|;
  }
}
