/** Checkpointing a map of groups: encode every key, write the entries in whatever order the
    hash map yields them, and rebuild the map from the entries. What an entry holds for its
    group is written by `save` and read back by `load`. */
module Snapshots {
  import opened Collections
  import opened ScalarValues
  import opened ScalarCodec
  import opened Rows

  datatype Entry<+W> = Entry(key: seq<Json>, value: W)

  /** One entry: the key first, then the group. */
  function LoadEntry<V, W>(load: W -> Result<V>, e: Entry<W>): Result<(Key, V)> {
    var key := DecodeAll(e.key);
    if key.Failure? then Failure(key.error)
    else
      var v := load(e.value);
      if v.Failure? then Failure(v.error) else Success((key.value, v.value))
  }

  /** Entries are inserted one by one; the first one that cannot be read aborts. */
  function Restore<V, W>(load: W -> Result<V>, entries: seq<Entry<W>>): Result<map<Key, V>> {
    if entries == [] then Success(map[])
    else
      var n := |entries| - 1;
      var init := Restore(load, entries[..n]);
      if init.Failure? then init
      else
        var last := LoadEntry(load, entries[n]);
        if last.Failure? then Failure(last.error) else Success(init.value[last.value.0 := last.value.1])
  }

  lemma {:induction false} RestoreFails<V, W>(load: W -> Result<V>, entries: seq<Entry<W>>, n: nat)
    requires n < |entries| && LoadEntry(load, entries[n]).Failure?
    ensures Restore(load, entries).Failure?
    decreases |entries|
  {
    if n == |entries| - 1 {
    } else {
      RestoreFails(load, entries[..|entries| - 1], n);
    }
  }

  lemma RestoreMore<V, W>(load: W -> Result<V>, entries: seq<Entry<W>>, n: nat, before: map<Key, V>)
    requires n < |entries| && Restore(load, entries[..n]) == Success(before)
    ensures var e := LoadEntry(load, entries[n]);
            if e.Failure? then Restore(load, entries[..n + 1]).Failure?
            else Restore(load, entries[..n + 1]) == Success(before[e.value.0 := e.value.1])
  {
    assert entries[..n + 1][..n] == entries[..n];
  }

  /** `entries` lists every group of `g` once, in the order `keys`. */
  ghost predicate Lists<V(!new), W(!new)>(save: V -> W, entries: seq<Entry<W>>, g: map<Key, V>, keys: seq<Key>) {
    && |entries| == |keys|
    && (forall i, j | 0 <= i < j < |keys| :: keys[i] != keys[j])
    && (forall k :: k in keys <==> k in g)
    && (forall i | 0 <= i < |keys| :: keys[i] in g && entries[i] == Entry(EncodeAll(keys[i]), save(g[keys[i]])))
  }

  ghost predicate KeysTyped<V>(g: map<Key, V>) {
    forall k | k in g :: Typed(k)
  }

  /** A key that can be read back, already of the types the codec widens to. */
  ghost predicate Wide(k: Key) {
    !AnyUnreadable(k) && WidenAll(k) == k
  }

  ghost predicate Readable<V, W>(load: W -> Result<V>, save: V -> W, g: map<Key, V>, k: Key)
    requires k in g
  {
    !AnyUnreadable(k) && load(save(g[k])).Success?
  }

  ghost predicate Intact<V(!new), W>(load: W -> Result<V>, save: V -> W, g: map<Key, V>, k: Key)
    requires k in g
  {
    Wide(k) && load(save(g[k])) == Success(g[k])
  }

  lemma EntryRoundTrip<V(!new), W(!new)>(load: W -> Result<V>, save: V -> W, g: map<Key, V>, k: Key)
    requires k in g && Typed(k)
    ensures var e := LoadEntry(load, Entry(EncodeAll(k), save(g[k])));
            && (e.Success? <==> Readable(load, save, g, k))
            && (e.Success? ==> e.value.0 == WidenAll(k) && load(save(g[k])) == Success(e.value.1))
  {
    KeyRoundTrip(k);
  }

  lemma {:induction false} RestoreReads<V(!new), W(!new)>(load: W -> Result<V>, save: V -> W, entries: seq<Entry<W>>,
                                                          g: map<Key, V>, keys: seq<Key>, n: nat)
    requires Lists(save, entries, g, keys) && KeysTyped(g) && n <= |keys|
    ensures Restore(load, entries[..n]).Success? <==> ReadableUpTo(load, save, g, keys, n)
  {
    if n == 0 {
    } else {
      RestoreReads(load, save, entries, g, keys, n - 1);
      EntryRoundTrip(load, save, g, keys[n - 1]);
      assert entries[..n][..n - 1] == entries[..n - 1];
      RestoreLast(load, entries[..n]);
    }
  }

  lemma RestoreLast<V, W>(load: W -> Result<V>, entries: seq<Entry<W>>)
    requires entries != []
    ensures Restore(load, entries).Success? <==>
            Restore(load, entries[..|entries| - 1]).Success? && LoadEntry(load, entries[|entries| - 1]).Success?
  {
  }

  ghost predicate ReadableUpTo<V, W>(load: W -> Result<V>, save: V -> W, g: map<Key, V>, keys: seq<Key>, n: nat)
    requires n <= |keys| && forall i | 0 <= i < |keys| :: keys[i] in g
  {
    forall i | 0 <= i < n :: Readable(load, save, g, keys[i])
  }

  /** Restored keys are widened. */
  lemma {:induction false} RestoreWidens<V(!new), W(!new)>(load: W -> Result<V>, save: V -> W, entries: seq<Entry<W>>,
                                                           g: map<Key, V>, keys: seq<Key>, n: nat)
    requires Lists(save, entries, g, keys) && KeysTyped(g) && n <= |keys| && Restore(load, entries[..n]).Success?
    ensures forall k | k in Restore(load, entries[..n]).value :: WidenAll(k) == k
  {
    if n == 0 {
    } else {
      assert entries[..n][..n - 1] == entries[..n - 1];
      RestoreWidens(load, save, entries, g, keys, n - 1);
      EntryRoundTrip(load, save, g, keys[n - 1]);
      RestoreMore(load, entries, n - 1, Restore(load, entries[..n - 1]).value);
      WidenTwice(keys[n - 1]);
    }
  }

  /** Under wide keys every group comes back as its own entry reads. */
  lemma {:induction false} RestoreAt<V(!new), W(!new)>(load: W -> Result<V>, save: V -> W, entries: seq<Entry<W>>,
                                                       g: map<Key, V>, keys: seq<Key>, n: nat)
    requires Lists(save, entries, g, keys) && KeysTyped(g) && n <= |keys| && Restore(load, entries[..n]).Success?
    requires forall k | k in g :: WidenAll(k) == k
    ensures ReadBack(load, save, g, keys[..n], Restore(load, entries[..n]).value)
  {
    if n == 0 {
    } else {
      RestoreInit(load, entries, n - 1);
      RestoreAt(load, save, entries, g, keys, n - 1);
      RestoreAtNext(load, save, entries, g, keys, n - 1);
    }
  }

  lemma RestoreInit<V, W>(load: W -> Result<V>, entries: seq<Entry<W>>, n: nat)
    requires n < |entries| && Restore(load, entries[..n + 1]).Success?
    ensures Restore(load, entries[..n]).Success?
  {
    assert entries[..n + 1][..n] == entries[..n];
  }

  lemma RestoreAtNext<V(!new), W(!new)>(load: W -> Result<V>, save: V -> W, entries: seq<Entry<W>>, g: map<Key, V>,
                                        keys: seq<Key>, n: nat)
    requires Lists(save, entries, g, keys) && KeysTyped(g) && n < |keys| && WidenAll(keys[n]) == keys[n]
    requires Restore(load, entries[..n]).Success? && Restore(load, entries[..n + 1]).Success?
    requires ReadBack(load, save, g, keys[..n], Restore(load, entries[..n]).value)
    ensures ReadBack(load, save, g, keys[..n + 1], Restore(load, entries[..n + 1]).value)
  {
    var r := Restore(load, entries[..n]).value;
    EntryRoundTrip(load, save, g, keys[n]);
    RestoreMore(load, entries, n, r);
    TakeOne(keys, n);
    ReadBackMore(load, save, g, keys[..n], r, keys[n], load(save(g[keys[n]])).value);
  }

  lemma ReadBackMore<V(!new), W(!new)>(load: W -> Result<V>, save: V -> W, g: map<Key, V>, keys: seq<Key>,
                                       r: map<Key, V>, k: Key, v: V)
    requires ReadBack(load, save, g, keys, r) && k in g && load(save(g[k])) == Success(v)
    ensures ReadBack(load, save, g, keys + [k], r[k := v])
  {
  }

  ghost predicate ReadBack<V(!new), W(!new)>(load: W -> Result<V>, save: V -> W, g: map<Key, V>, keys: seq<Key>,
                                             r: map<Key, V>) {
    && (forall k :: k in r <==> k in keys)
    && (forall k | k in r :: k in g && load(save(g[k])) == Success(r[k]))
  }

  lemma RestoresReadable<V(!new), W(!new)>(load: W -> Result<V>, save: V -> W, entries: seq<Entry<W>>,
                                           g: map<Key, V>, keys: seq<Key>)
    requires Lists(save, entries, g, keys) && KeysTyped(g)
    ensures Restore(load, entries).Success? <==> forall k | k in g :: Readable(load, save, g, k)
  {
    assert entries[..|keys|] == entries;
    RestoreReads(load, save, entries, g, keys, |keys|);
    forall k | k in g ensures exists i :: 0 <= i < |keys| && keys[i] == k {
      assert k in keys;
    }
  }

  lemma RestoresIntact<V(!new), W(!new)>(load: W -> Result<V>, save: V -> W, entries: seq<Entry<W>>,
                                         g: map<Key, V>, keys: seq<Key>)
    requires Lists(save, entries, g, keys) && KeysTyped(g) && Restore(load, entries).Success?
    requires forall k | k in g :: WidenAll(k) == k
    ensures Restore(load, entries).value == g <==> forall k | k in g :: load(save(g[k])) == Success(g[k])
  {
    assert entries[..|keys|] == entries && keys[..|keys|] == keys;
    RestoreAt(load, save, entries, g, keys, |keys|);
    var r := Restore(load, entries).value;
    assert r.Keys == g.Keys;
    assert forall k | k in g :: load(save(g[k])) == Success(r[k]);
  }

  /** A snapshot restores exactly when every key and every group in it can be read, and restores
      to the groups saved exactly when every key was wide and every group survives its own save
      and load. */
  lemma RestoreExact<V(!new), W(!new)>(load: W -> Result<V>, save: V -> W, entries: seq<Entry<W>>,
                                       g: map<Key, V>, keys: seq<Key>)
    requires Lists(save, entries, g, keys) && KeysTyped(g)
    ensures Restore(load, entries).Success? <==> forall k | k in g :: Readable(load, save, g, k)
    ensures Restore(load, entries) == Success(g) <==> forall k | k in g :: Intact(load, save, g, k)
  {
    RestoresReadable(load, save, entries, g, keys);
    if Restore(load, entries).Success? {
      assert entries[..|keys|] == entries;
      RestoreWidens(load, save, entries, g, keys, |keys|);
      if forall k | k in g :: WidenAll(k) == k {
        RestoresIntact(load, save, entries, g, keys);
      }
    } else {
      var k :| k in g && !Readable(load, save, g, k);
      assert !Intact(load, save, g, k);
    }
  }

  /** A group whose key was not wide is no longer found under it. */
  lemma NarrowKeyLost<V(!new), W(!new)>(load: W -> Result<V>, save: V -> W, entries: seq<Entry<W>>,
                                        g: map<Key, V>, keys: seq<Key>, k: Key)
    requires Lists(save, entries, g, keys) && KeysTyped(g)
    requires Restore(load, entries).Success? && k in g && WidenAll(k) != k
    ensures k !in Restore(load, entries).value
  {
    assert entries[..|keys|] == entries;
    RestoreWidens(load, save, entries, g, keys, |keys|);
  }

  /** Write every group, in whatever order the hash map yields them. */
  method Save<V(!new), W(!new)>(save: V -> W, g: map<Key, V>) returns (entries: seq<Entry<W>>, ghost keys: seq<Key>)
    ensures Lists(save, entries, g, keys)
  {
    entries, keys := [], [];
    var todo := g.Keys;
    while todo != {}
      invariant todo <= g.Keys && |entries| == |keys|
      invariant forall i, j | 0 <= i < j < |keys| :: keys[i] != keys[j]
      invariant forall k :: k in keys <==> k in g && k !in todo
      invariant forall i | 0 <= i < |keys| :: keys[i] in g && entries[i] == Entry(EncodeAll(keys[i]), save(g[keys[i]]))
      decreases todo
    {
      var k :| k in todo;
      entries, keys := entries + [Entry(EncodeAll(k), save(g[k]))], keys + [k];
      todo := todo - {k};
    }
  }

  /** Entries up to `n` are in place and entry `n` cannot be read. */
  ghost predicate StoppedAt<V(!new), W>(load: W -> Result<V>, entries: seq<Entry<W>>, n: nat, g: map<Key, V>) {
    && n < |entries| && Restore(load, entries[..n]) == Success(g)
    && LoadEntry(load, entries[n]).Failure?
  }

  /** Rebuild the groups entry by entry; on failure `g` has the entries before the one that
      cannot be read. */
  method Load<V(!new), W>(load: W -> Result<V>, entries: seq<Entry<W>>)
    returns (error: Option<string>, g: map<Key, V>)
    ensures error.None? ==> Restore(load, entries) == Success(g)
    ensures error.Some? ==> Restore(load, entries).Failure? && exists n: nat :: StoppedAt(load, entries, n, g)
  {
    g, error := map[], None;
    for j := 0 to |entries|
      invariant Restore(load, entries[..j]) == Success(g)
    {
      RestoreMore(load, entries, j, g);
      var key := DecodeAll(entries[j].key);
      if key.Failure? {
        RestoreFails(load, entries, j);
        assert StoppedAt(load, entries, j, g);
        return Some(key.error), g;
      }
      var v := load(entries[j].value);
      if v.Failure? {
        RestoreFails(load, entries, j);
        assert StoppedAt(load, entries, j, g);
        return Some(v.error), g;
      }
      g := g[key.value := v.value];
    }
    assert entries[..|entries|] == entries;
  }
}
