/** What a checkpoint and a restore do to a table of groups. */
module Restarts {
  import opened ScalarValues
  import opened ScalarCodec
  import opened Rows
  import opened Accumulators
  import opened Snapshots

  type Saved = seq<seq<Json>>

  function Saver<R, A>(acc: Accumulators<R, A>): A -> Saved {
    a => SaveStates(acc, a)
  }

  function Loader<R, A>(acc: Accumulators<R, A>): Saved -> Result<A> {
    js => LoadStates(acc, js)
  }

  /** `after` is `table` saved and restored, whatever order the hash map was written in. */
  ghost predicate Restarted<R(!new), A(!new)>(acc: Accumulators<R, A>, table: map<Key, A>, after: map<Key, A>) {
    exists entries: seq<Entry<Saved>>, keys: seq<Key> ::
      Lists(Saver(acc), entries, table, keys) && Restore(Loader(acc), entries) == Success(after)
  }

  /** Every scalar, in keys and states, is in the range of its type. */
  ghost predicate TableTyped<R, A>(acc: Accumulators<R, A>, table: map<Key, A>) {
    forall k | k in table :: Typed(k) && StatesTyped(acc.states(table[k]))
  }

  /** Every key is wide and every group's accumulators are kept. */
  ghost predicate Survives<R, A(!new)>(acc: Accumulators<R, A>, table: map<Key, A>) {
    forall k | k in table :: Wide(k) && Kept(acc, table[k])
  }

  ghost predicate Restorable<R, A>(acc: Accumulators<R, A>, table: map<Key, A>) {
    forall k | k in table :: !AnyUnreadable(k) && Loadable(acc, table[k])
  }

  /** Restart equivalence: a checkpoint can be restored exactly when no key and no accumulator
      state is unreadable or refused, and it restores to the table it was taken of exactly when
      every key is wide and every accumulator state is kept. */
  lemma RestartExact<R(!new), A(!new)>(acc: Accumulators<R, A>, entries: seq<Entry<Saved>>, table: map<Key, A>,
                                       keys: seq<Key>)
    requires Lists(Saver(acc), entries, table, keys) && TableTyped(acc, table)
    ensures Restore(Loader(acc), entries).Success? <==> Restorable(acc, table)
    ensures Restore(Loader(acc), entries) == Success(table) <==> Survives(acc, table)
  {
    RestoreExact(Loader(acc), Saver(acc), entries, table, keys);
    forall k | k in table
      ensures Readable(Loader(acc), Saver(acc), table, k) <==> !AnyUnreadable(k) && Loadable(acc, table[k])
      ensures Intact(Loader(acc), Saver(acc), table, k) <==> Wide(k) && Kept(acc, table[k])
    {
      LoadSaved(acc, table[k]);
    }
  }

  /** A restart changes nothing exactly when the table survives. */
  lemma RestartedExact<R(!new), A(!new)>(acc: Accumulators<R, A>, table: map<Key, A>, after: map<Key, A>)
    requires TableTyped(acc, table) && Restarted(acc, table, after)
    ensures after == table <==> Survives(acc, table)
  {
    var entries: seq<Entry<Saved>>, keys: seq<Key> :|
      Lists(Saver(acc), entries, table, keys) && Restore(Loader(acc), entries) == Success(after);
    RestartExact(acc, entries, table, keys);
  }
}
