/** The memtable: a skip list of entries, and the cursor over it. */
module MemTables {
  import opened InternalKeys
  import opened SkipLists

  // A LookupKey: it comes before every entry of the key that the sequence number sees.
  function LookupKey(k: Key, s: nat): (e: Entry)
    ensures forall x :: Before(x, e) <==> !AtOrAfter(x, k, s)
  {
    Entry(k, s, Put(""))
  }

  // The cursor stands on the entry of index `at`, or on none.
  class Iterator {
    const list: SkipList
    var node: Node?
    ghost var at: nat

    ghost predicate Ready()
      reads this, list, list.spine
    {
      && list.Valid() && |list.spine| > 0
      && (node == null ==> at == |list.Contents()|)
      && (node != null ==> at < |list.Contents()| && node == list.spine[at + 1])
    }

    constructor (list: SkipList)
      requires list.Valid()
      ensures Ready() && node == null && this.list == list
    {
      this.list := list;
      node := null;
      at := |list.spine| - 1;
      new;
      list.ShapeIs();
    }

    method Current() returns (e: Entry)
      requires Ready() && node != null
      ensures e == list.Contents()[at]
    {
      e := node.entry;
    }

    method Next()
      requires Ready() && node != null
      modifies this
      ensures Ready() && at == old(at) + 1
    {
      hide LinkedRow, First;
      list.ShapeIs();
      list.Follow(at + 1, 0, node.entry);
      list.BottomIsDense(at + 1);
      node := node.next[0];
      at := at + 1;
    }

    // There are no links backwards: searches for the last entry before this one.
    method Prev()
      requires Ready() && node != null
      modifies this
      ensures Ready() && if old(at) > 0 then at == old(at) - 1 else node == null
    {
      hide LinkedRow, First;
      list.ShapeIs();
      list.PositionIs(node.entry, at + 1);
      var x := list.FindLessThan(node.entry);
      if x == list.head {
        node, at := null, |list.spine| - 1;
      } else {
        node, at := x, at - 1;
      }
    }

    method Seek(target: Entry)
      requires Ready()
      modifies this
      ensures Ready() && at + 1 == list.Position(target)
    {
      hide LinkedRow, First, InShape;
      list.ShapeIs();
      var x, _ := list.FindGreaterOrEqual(target);
      node, at := x, list.Position(target) - 1;
    }

    method SeekToFirst()
      requires Ready()
      modifies this
      ensures Ready() && at == 0
    {
      hide LinkedRow, First, InShape;
      list.ShapeIs();
      list.Follow(0, 0, list.head.entry);
      list.BottomIsDense(0);
      node, at := list.head.next[0], 0;
    }

    method SeekToLast()
      requires Ready()
      modifies this
      ensures Ready() && if list.Contents() == [] then node == null else at == |list.Contents()| - 1
    {
      hide LinkedRow, First;
      list.ShapeIs();
      var x := list.FindLast();
      if x == list.head {
        node, at := null, |list.spine| - 1;
      } else {
        node, at := x, |list.spine| - 2;
      }
    }
  }

  class MemTable {
    const table: SkipList

    constructor ()
      ensures table.Valid() && table.Contents() == []
      ensures fresh(table) && fresh(table.spine)
    {
      table := new SkipList();
    }

    // The height is drawn at random by the caller.
    method Add(s: nat, k: Key, op: Op, height: nat)
      requires table.Valid() && table.Absent(Entry(k, s, op)) && 1 <= height <= MAX_HEIGHT
      modifies table, table.spine
      ensures table.Valid() && table.Contents() == Insert(old(table.Contents()), Entry(k, s, op))
    {
      table.Insert(Entry(k, s, op), height);
    }

    // What a single seek into a sorted run of entries finds.
    method Get(k: Key, s: nat) returns (hit: Hit)
      requires table.Valid() && |table.spine| > 0
      ensures hit == PointGet(table.Contents(), k, s)
    {
      hide InShape, LinkedRow, First;
      table.ShapeIs();
      var iter := new Iterator(table);
      iter.Seek(LookupKey(k, s));
      SeekFinds(table, k, s);
      hit := Missing;
      if iter.node != null {
        var e := iter.Current();
        if e.key == k {
          hit := if e.op.Put? then Present(e.op.value) else Deleted;
        }
      }
    }
  }

  lemma SeekFinds(list: SkipList, k: Key, s: nat)
    requires list.Shape() && |list.spine| > 0
    ensures SeekIndex(list.Contents(), k, s) == list.Position(LookupKey(k, s)) - 1
    ensures |list.Contents()| == |list.spine| - 1
  {
    var es, p := list.Contents(), list.Position(LookupKey(k, s));
    forall i | 0 <= i < |es| ensures AtOrAfter(es[i], k, s) <==> i >= p - 1 {
      assert es[i] == list.spine[i + 1].entry;
    }
    SeekIndexIs(es, k, s, p - 1);
  }

  lemma SeekIndexIs(es: seq<Entry>, k: Key, s: nat, n: nat)
    requires n <= |es| && forall i | 0 <= i < |es| :: AtOrAfter(es[i], k, s) <==> i >= n
    ensures SeekIndex(es, k, s) == n
  {
    var i := SeekIndex(es, k, s);
    assert i < |es| ==> (AtOrAfter(es[i], k, s) <==> i >= n);
    assert n < |es| ==> (AtOrAfter(es[n], k, s) <==> n >= n);
  }
}
