/** A cursor over everything the engine stores walks over the history as the snapshot saw it. */
module IteratorRuns {
  import opened Options
  import opened InternalKeys
  import opened Engine
  import opened EngineRuns
  import opened DbIter

  // `es` is what the merging iterator delivers: memtables and all files, in internal order.
  lemma RowsAreTheHistory(s: State, es: seq<Entry>, t: nat, k: Key, v: Value)
    requires Structure(s) && ReadsRight(s) && s.floor <= t
    requires Sorted(es) && Of(es) == All(s)
    ensures Lookup(s.hist, k, t) == Some(v)
            <==> exists i: nat :: i < |es| && IsRow(es, t, i) && es[i].key == k && es[i].op == Put(v)
  {
    hide Sorted, Unique, Read, All;
    AllIsUnique(s);
    RowsAreReads(es, t, k, v);
  }
}
