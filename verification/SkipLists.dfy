/** The skip list under the memtable: linked nodes with towers of links, searched from the top. */
module SkipLists {
  import opened InternalKeys

  const MAX_HEIGHT: nat := 12

  class Node {
    const entry: Entry
    var next: seq<Node?>  // one link for each level of the node

    constructor (entry: Entry, height: nat)
      ensures this.entry == entry && |next| == height && forall l | 0 <= l < height :: next[l] == null
    {
      this.entry := entry;
      next := seq(height, _ => null);
    }

    method SetNext(l: nat, x: Node?)
      requires l < |next|
      modifies this`next
      ensures next == old(next)[l := x]
    {
      next := next[l := x];
    }
  }

  // The first position from a on whose tower is higher than level l.
  function First(tower: seq<nat>, a: nat, l: nat): (b: nat)
    requires a <= |tower|
    ensures a <= b <= |tower| && (b < |tower| ==> tower[b] > l)
    ensures forall i | a <= i < b :: tower[i] <= l
    decreases |tower| - a
  {
    if a == |tower| || tower[a] > l then a else First(tower, a + 1, l)
  }

  lemma FirstIs(tower: seq<nat>, a: nat, l: nat, b: nat)
    requires a <= b <= |tower| && (b < |tower| ==> tower[b] > l) && forall i | a <= i < b :: tower[i] <= l
    ensures First(tower, a, l) == b
  {
  }

  // ----- the links of one node -----

  function NodeAt(spine: seq<Node>, b: nat): Node? {
    if b < |spine| then spine[b] else null
  }

  // A node's link on a level goes to the next node that is linked into that level.
  ghost predicate LinkedRow(row: seq<Node?>, spine: seq<Node>, tower: seq<nat>, a: nat)
    requires |spine| == |tower| && a < |spine|
  {
    && tower[a] <= |row|
    && forall l: nat | l < tower[a] :: row[l] == NodeAt(spine, First(tower, a + 1, l))
  }

  lemma RowLink(row: seq<Node?>, spine: seq<Node>, tower: seq<nat>, a: nat, l: nat)
    requires |spine| == |tower| && a < |spine| && LinkedRow(row, spine, tower, a) && l < tower[a]
    ensures l < |row| && row[l] == NodeAt(spine, First(tower, a + 1, l))
  {
  }

  function Inserted<T>(s: seq<T>, p: nat, x: T): (r: seq<T>)
    requires p <= |s|
    ensures |r| == |s| + 1
  {
    s[..p] + [x] + s[p..]
  }

  lemma InsertedIs<T>(s: seq<T>, p: nat, x: T)
    requires p <= |s|
    ensures var r := Inserted(s, p, x);
      && r[p] == x
      && (forall i | 0 <= i < p :: r[i] == s[i])
      && (forall i | p <= i < |s| :: r[i + 1] == s[i])
      && (forall i | p < i < |r| :: r[i] == s[i - 1])
  {
  }

  lemma InsertedAscends(s: seq<Node>, p: nat, x: Node)
    requires 1 <= p <= |s| && forall a, b | 1 <= a < b < |s| :: Before(s[a].entry, s[b].entry)
    requires forall a | 1 <= a < |s| :: if a < p then Before(s[a].entry, x.entry) else Before(x.entry, s[a].entry)
    ensures var r := Inserted(s, p, x); forall a, b | 1 <= a < b < |r| :: Before(r[a].entry, r[b].entry)
  {
    hide Before, Inserted;
    InsertedIs(s, p, x);
  }

  lemma InsertedDiffer(s: seq<Node>, p: nat, x: Node)
    requires p <= |s| && x !in s && forall a, b | 0 <= a < b < |s| :: s[a] != s[b]
    ensures var r := Inserted(s, p, x); forall a, b | 0 <= a < b < |r| :: r[a] != r[b]
  {
    hide Inserted;
    InsertedIs(s, p, x);
  }

  lemma InsertedAt<T>(s: seq<T>, p: nat, x: T, i: nat)
    requires p <= |s| && i < |s|
    ensures Inserted(s, p, x)[if i < p then i else i + 1] == s[i]
  {
  }

  lemma NodeAfterInsert(spine: seq<Node>, p: nat, x: Node, b: nat)
    requires p <= |spine|
    ensures NodeAt(Inserted(spine, p, x), if b < p then b else b + 1) == NodeAt(spine, b)
    ensures NodeAt(Inserted(spine, p, x), p) == x
  {
  }

  // A new node that is linked at the bottom only leaves every other level as it is.
  lemma FirstAfterInsert(tower: seq<nat>, p: nat, a: nat, l: nat)
    requires p <= |tower| && a <= |tower| && l > 0
    ensures a <= p ==> First(Inserted(tower, p, 1), a, l)
                       == (if First(tower, a, l) < p then First(tower, a, l) else First(tower, a, l) + 1)
    ensures a >= p ==> First(Inserted(tower, p, 1), a + 1, l) == First(tower, a, l) + 1
  {
    hide First, Inserted;
    if a <= p {
      FirstBeforeInsert(tower, p, a, l);
    }
    if a >= p {
      FirstBehindInsert(tower, p, a, l);
    }
  }

  lemma FirstBeforeInsert(tower: seq<nat>, p: nat, a: nat, l: nat)
    requires a <= p <= |tower| && l > 0
    ensures First(Inserted(tower, p, 1), a, l)
         == if First(tower, a, l) < p then First(tower, a, l) else First(tower, a, l) + 1
  {
    hide First, Inserted;
    InsertedIs(tower, p, 1);
    var b := First(tower, a, l);
    FirstIs(Inserted(tower, p, 1), a, l, if b < p then b else b + 1);
  }

  lemma FirstBehindInsert(tower: seq<nat>, p: nat, a: nat, l: nat)
    requires p <= a <= |tower| && l > 0
    ensures First(Inserted(tower, p, 1), a + 1, l) == First(tower, a, l) + 1
  {
    hide First, Inserted;
    InsertedIs(tower, p, 1);
    FirstIs(Inserted(tower, p, 1), a + 1, l, First(tower, a, l) + 1);
  }

  lemma FirstAtBottom(tower: seq<nat>, a: nat)
    requires a <= |tower| && forall i | a <= i < |tower| :: tower[i] > 0
    ensures First(tower, a, 0) == a
  {
    FirstIs(tower, a, 0, a);
  }

  ghost predicate AllLinked(tower: seq<nat>) {
    forall i | 0 <= i < |tower| :: tower[i] > 0
  }

  // A link above the bottom, of a node before the new one.
  lemma LinkBeforeInsert(row: seq<Node?>, spine: seq<Node>, tower: seq<nat>, p: nat, x: Node, a: nat, l: nat)
    requires |spine| == |tower| && 1 <= p <= |tower| && a < p && LinkedRow(row, spine, tower, a) && 0 < l < tower[a]
    ensures l < |row| && NodeAt(Inserted(spine, p, x), First(Inserted(tower, p, 1), a + 1, l)) == row[l]
  {
    hide First, Inserted, NodeAt, LinkedRow;
    FirstAfterInsert(tower, p, a + 1, l);
    RowLink(row, spine, tower, a, l);
    NodeAfterInsert(spine, p, x, First(tower, a + 1, l));
  }

  lemma RowBeforeInsert(row: seq<Node?>, spine: seq<Node>, tower: seq<nat>, p: nat, x: Node, a: nat)
    requires |spine| == |tower| && 1 <= p <= |tower| && a < p && AllLinked(tower) && LinkedRow(row, spine, tower, a)
    ensures |row| > 0
    ensures LinkedRow(if a == p - 1 then row[0 := x] else row, Inserted(spine, p, x), Inserted(tower, p, 1), a)
  {
    hide First, Inserted, NodeAt;
    var s, t := Inserted(spine, p, x), Inserted(tower, p, 1);
    BottomAfterInsert(tower, p, a);
    InsertedAt(tower, p, 1, a);
    NodeAfterInsert(spine, p, x, a + 1);
    forall l: nat | 0 < l < tower[a] ensures NodeAt(s, First(t, a + 1, l)) == row[l] {
      LinkBeforeInsert(row, spine, tower, p, x, a, l);
    }
    RowLink(row, spine, tower, a, 0);
  }

  lemma RowAfterInsert(row: seq<Node?>, spine: seq<Node>, tower: seq<nat>, p: nat, x: Node, a: nat)
    requires |spine| == |tower| && p <= a < |tower| && AllLinked(tower) && LinkedRow(row, spine, tower, a)
    ensures LinkedRow(row, Inserted(spine, p, x), Inserted(tower, p, 1), a + 1)
  {
    hide First, Inserted, NodeAt;
    var s, t := Inserted(spine, p, x), Inserted(tower, p, 1);
    BottomAfterInsert(tower, p, a + 1);
    FirstAtBottom(tower, a + 1);
    InsertedAt(tower, p, 1, a);
    NodeAfterInsert(spine, p, x, a + 1);
    forall l: nat | 0 < l < tower[a] ensures NodeAt(s, First(t, a + 2, l)) == row[l] {
      FirstAfterInsert(tower, p, a + 1, l);
      RowLink(row, spine, tower, a, l);
      NodeAfterInsert(spine, p, x, First(tower, a + 1, l));
    }
    RowLink(row, spine, tower, a, 0);
  }

  // On the bottom level every node is followed by the next one.
  lemma BottomAfterInsert(tower: seq<nat>, p: nat, a: nat)
    requires p <= |tower| && a <= |tower| && AllLinked(tower)
    ensures First(Inserted(tower, p, 1), a + 1, 0) == a + 1
    ensures a < |tower| ==> First(tower, a + 1, 0) == a + 1
  {
    InsertedIs(tower, p, 1);
    FirstAtBottom(Inserted(tower, p, 1), a + 1);
    if a < |tower| {
      FirstAtBottom(tower, a + 1);
    }
  }

  // The new node's own link at the bottom.
  lemma NewRow(row: seq<Node?>, spine: seq<Node>, tower: seq<nat>, p: nat, x: Node)
    requires |spine| == |tower| && p <= |tower| && AllLinked(tower) && |row| > 0
    ensures LinkedRow(row[0 := NodeAt(spine, p)], Inserted(spine, p, x), Inserted(tower, p, 1), p)
  {
    hide First;
    InsertedIs(tower, p, 1);
    BottomAfterInsert(tower, p, p);
    NodeAfterInsert(spine, p, x, p);
  }

  // Raising one tower by a level changes one link: that of the node before it on this level.
  lemma FirstAfterRaise(tower: seq<nat>, p: nat, i: nat, a: nat, l: nat)
    requires p < |tower| && tower[p] == i && a <= |tower|
    ensures var t := tower[p := i + 1];
      First(t, a, l) == if l == i && a <= p <= First(tower, a, l) then p else First(tower, a, l)
  {
    hide First;
    var t, b := tower[p := i + 1], First(tower, a, l);
    FirstIs(t, a, l, if l == i && a <= p <= b then p else b);
  }

  lemma RowsAfterRaise(row: seq<Node?>, spine: seq<Node>, tower: seq<nat>, p: nat, i: nat, prev: nat, a: nat)
    requires |spine| == |tower| && prev < p < |tower| && tower[p] == i && tower[prev] > i
    requires First(tower, prev + 1, i) >= p && a < |tower| && a != p && LinkedRow(row, spine, tower, a)
    ensures var t := tower[p := i + 1];
      if a == prev then i < |row| && LinkedRow(row[i := spine[p]], spine, t, a) else LinkedRow(row, spine, t, a)
  {
    hide First;
    var t := tower[p := i + 1];
    forall l: nat | l < tower[a]
      ensures NodeAt(spine, First(t, a + 1, l)) == if a == prev && l == i then spine[p] else row[l]
    {
      FirstAfterRaise(tower, p, i, a + 1, l);
      RowLink(row, spine, tower, a, l);
    }
    if a == prev {
      RowLink(row, spine, tower, a, i);
    }
  }

  lemma RaisedRow(row: seq<Node?>, spine: seq<Node>, tower: seq<nat>, p: nat, i: nat, prev: nat)
    requires |spine| == |tower| && prev < p < |tower| && tower[p] == i < |row|
    requires First(tower, prev + 1, i) >= p && LinkedRow(row, spine, tower, p)
    ensures LinkedRow(row[i := NodeAt(spine, First(tower, prev + 1, i))], spine, tower[p := i + 1], p)
  {
    hide First;
    var t, b := tower[p := i + 1], First(tower, prev + 1, i);
    FirstIs(tower, p + 1, i, b);
    FirstAfterRaise(tower, p, i, p + 1, i);
    forall l: nat | l < i ensures NodeAt(spine, First(t, p + 1, l)) == row[l] {
      FirstAfterRaise(tower, p, i, p + 1, l);
      RowLink(row, spine, tower, p, l);
    }
  }

  // The nodes in strict order, with towers no higher than the list.
  ghost predicate InShape(head: Node, maxHeight: nat, spine: seq<Node>, tower: seq<nat>) {
    && |spine| == |tower| && |spine| > 0 && spine[0] == head && tower[0] == MAX_HEIGHT
    && 1 <= maxHeight <= MAX_HEIGHT
    && (forall a | 1 <= a < |tower| :: 1 <= tower[a] <= maxHeight)
    && (forall a, b | 0 <= a < b < |spine| :: spine[a] != spine[b])
    && (forall a, b | 1 <= a < b < |spine| :: Before(spine[a].entry, spine[b].entry))
  }

  // The last of some nodes on level l.
  ghost predicate IsPrev(nodes: seq<Node>, heights: seq<nat>, l: nat, node: Node?) {
    && |nodes| == |heights|
    && exists a: nat :: a < |nodes| && heights[a] > l && node == nodes[a] && forall b | a < b < |heights| :: heights[b] <= l
  }

  class SkipList {
    const head: Node
    var maxHeight: nat
    ghost var spine: seq<Node>  // all nodes in order, the head first
    ghost var tower: seq<nat>   // for each of them, the number of levels it is linked into

    ghost predicate Shape()
      reads this
    {
      InShape(head, maxHeight, spine, tower)
    }

    ghost function At(b: nat): Node?
      reads this
    {
      NodeAt(spine, b)
    }

    ghost predicate NodeLinked(a: nat)
      requires |spine| == |tower| && a < |spine|
      reads `spine, `tower, spine
    {
      LinkedRow(spine[a].next, spine, tower, a)
    }

    ghost predicate Valid()
      reads this, spine
    {
      Shape() && forall a: nat | a < |spine| :: NodeLinked(a)
    }

    // The entries in order.
    ghost function Contents(): seq<Entry>
      requires |spine| > 0
      reads this
    {
      var nodes := spine;
      seq(|nodes| - 1, i requires 0 <= i < |nodes| - 1 => nodes[i + 1].entry)
    }

    constructor ()
      ensures Valid() && Contents() == [] && fresh(head) && spine == [head] && maxHeight == 1
    {
      head := new Node(Entry(0.0, 0, Deletion), MAX_HEIGHT);
      maxHeight := 1;
      new;
      spine, tower := [head], [MAX_HEIGHT];
    }

    // Where a node for the target would go: after all entries before it.
    ghost function Position(target: Entry): (p: nat)
      requires Shape()
      reads this
      ensures 1 <= p <= |spine|
      ensures forall a | 1 <= a < |spine| :: Before(spine[a].entry, target) <==> a < p
    {
      PositionFrom(target, 1)
    }

    ghost function PositionFrom(target: Entry, from: nat): (p: nat)
      requires Shape() && 1 <= from <= |spine|
      reads this
      ensures from <= p <= |spine|
      ensures forall a | from <= a < |spine| :: Before(spine[a].entry, target) <==> a < p
      decreases |spine| - from
    {
      if from == |spine| then from
      else if !Before(spine[from].entry, target) then
        assert forall a | from < a < |spine| :: Before(spine[from].entry, spine[a].entry);
        from
      else PositionFrom(target, from + 1)
    }

    predicate KeyIsAfterNode(target: Entry, n: Node?) {
      n != null && Before(n.entry, target)
    }

    // A link leads to a node before the target exactly when its position is before the target's.
    lemma Follow(a: nat, level: nat, target: Entry)
      requires Valid() && a < |spine| && level < tower[a]
      ensures level < |spine[a].next|
      ensures spine[a].next[level] == At(First(tower, a + 1, level))
      ensures var next := spine[a].next[level];
        next != null && Before(next.entry, target) <==> First(tower, a + 1, level) < Position(target)
    {
      assert NodeLinked(a);
      RowLink(spine[a].next, spine, tower, a, level);
    }

    lemma ShapeIs()
      requires Valid()
      ensures Shape() && |spine| == |tower| > 0 && spine[0] == head && tower[0] == MAX_HEIGHT
      ensures 1 <= maxHeight <= MAX_HEIGHT
    {
    }

    // The earliest node at or after the target, and the nodes before it, one for each level.
    method FindGreaterOrEqual(target: Entry) returns (x: Node?, prev: seq<Node?>)
      requires Valid()
      ensures x == At(Position(target)) && |prev| == MAX_HEIGHT
      ensures forall l: nat | l < maxHeight :: IsPrev(spine[..Position(target)], tower[..Position(target)], l, prev[l])
    {
      hide First, Valid, Position, InShape, IsPrev;
      ShapeIs();
      ghost var p, a: nat := Position(target), 0;
      prev := seq(MAX_HEIGHT, _ => null);
      x := head;
      var level := maxHeight - 1;
      while true
        invariant 0 <= level < maxHeight && a < p && x == spine[a] && tower[a] > level && |prev| == MAX_HEIGHT
        invariant forall l: nat | level < l < maxHeight :: IsPrev(spine[..p], tower[..p], l, prev[l])
        decreases level, |spine| - a
      {
        Follow(a, level, target);
        var next := x.next[level];
        ghost var b := First(tower, a + 1, level);
        if KeyIsAfterNode(target, next) {
          x, a := next, b;
        } else {
          prev := prev[level := x];
          PrevFound(p, level, a);
          if level == 0 {
            BottomIsDense(a);
            x := next;
            return;
          }
          level := level - 1;
        }
      }
    }

    lemma PrevFound(p: nat, l: nat, a: nat)
      requires Shape() && a < p <= |spine| && tower[a] > l && First(tower, a + 1, l) >= p
      ensures IsPrev(spine[..p], tower[..p], l, spine[a])
    {
      assert spine[..p][a] == spine[a] && tower[..p][a] == tower[a];
    }

    lemma BottomIsDense(a: nat)
      requires Shape() && a < |spine|
      ensures First(tower, a + 1, 0) == a + 1
    {
      if a + 1 < |tower| {
        assert tower[a + 1] >= 1;
      }
    }

    // The latest node before the target, or the head.
    method FindLessThan(target: Entry) returns (x: Node)
      requires Valid()
      ensures x == spine[Position(target) - 1]
    {
      ghost var p, a: nat := Position(target), 0;
      x := head;
      var level := maxHeight - 1;
      while true
        invariant 0 <= level < maxHeight && a < p && x == spine[a] && tower[a] > level
        decreases level, |spine| - a
      {
        Follow(a, level, target);
        var next := x.next[level];
        ghost var b := First(tower, a + 1, level);
        if next == null || !Before(next.entry, target) {
          if level == 0 {
            return x;
          }
          level := level - 1;
        } else {
          x, a := next, b;
        }
      }
    }

    // The last node, or the head.
    method FindLast() returns (x: Node)
      requires Valid()
      ensures x == spine[|spine| - 1]
    {
      ghost var a: nat := 0;
      x := head;
      var level := maxHeight - 1;
      while true
        invariant 0 <= level < maxHeight && a < |spine| && x == spine[a] && tower[a] > level
        decreases level, |spine| - a
      {
        Follow(a, level, head.entry);
        var next := x.next[level];
        ghost var b := First(tower, a + 1, level);
        if next == null {
          if level == 0 {
            return x;
          }
          level := level - 1;
        } else {
          x, a := next, b;
        }
      }
    }

    // ----- insertion -----

    // No entry of the list compares equal.
    ghost predicate Absent(entry: Entry)
      reads `spine
    {
      forall a | 1 <= a < |spine| :: spine[a].entry.key != entry.key || spine[a].entry.Tag() != entry.Tag()
    }

    lemma ShapeAfterInsert(x: Node, p: nat)
      requires Shape() && Absent(x.entry) && p == Position(x.entry) && x !in spine
      ensures |spine| == |tower| && 1 <= p <= |spine| && AllLinked(tower)
      ensures InShape(head, maxHeight, Inserted(spine, p, x), Inserted(tower, p, 1))
    {
      hide Inserted;
      InsertedIs(spine, p, x);
      InsertedIs(tower, p, 1);
      forall a | 1 <= a < |spine| ensures if a < p then Before(spine[a].entry, x.entry) else Before(x.entry, spine[a].entry) {
      }
      InsertedAscends(spine, p, x);
      InsertedDiffer(spine, p, x);
    }

    lemma PrevAtBottom(p: nat, before: Node)
      requires Shape() && 1 <= p <= |spine| && IsPrev(spine[..p], tower[..p], 0, before)
      ensures before == spine[p - 1] && |spine| == |tower| && tower[p - 1] > 0 && First(tower, p, 0) == p
      ensures forall a: nat | a < p - 1 :: spine[a] != before
      ensures forall a: nat | p <= a < |spine| :: spine[a] != before
    {
      assert tower[..p][p - 1] == tower[p - 1] >= 1;
      BottomIsDense(p - 1);
    }

    // The first link makes the new node a member of the list.
    method LinkBottom(x: Node, before: Node, ghost p: nat)
      requires Valid() && x !in spine && |x.next| > 0
      requires Absent(x.entry) && p == Position(x.entry) && IsPrev(spine[..p], tower[..p], 0, before)
      modifies this`spine, this`tower, x`next, before`next
      ensures Valid() && spine == Inserted(old(spine), p, x) && tower == Inserted(old(tower), p, 1)
      ensures |x.next| == old(|x.next|)
    {
      hide First, LinkedRow, Position, IsPrev, InShape, AllLinked, Absent;
      ShapeAfterInsert(x, p);
      PrevAtBottom(p, before);
      ghost var s, t := spine, tower;
      assert NodeLinked(p - 1);
      RowBeforeInsert(before.next, s, t, p, x, p - 1);
      RowLink(before.next, s, t, p - 1, 0);
      NewRow(x.next, s, t, p, x);
      x.SetNext(0, before.next[0]);
      before.SetNext(0, x);
      spine, tower := Inserted(spine, p, x), Inserted(tower, p, 1);
      forall a: nat | a < |spine| ensures NodeLinked(a) {
        if a < p {
          assert old(NodeLinked(a));
          RowBeforeInsert(old(s[a].next), s, t, p, x, a);
        } else if a > p {
          assert old(NodeLinked(a - 1));
          RowAfterInsert(old(s[a - 1].next), s, t, p, x, a - 1);
        }
      }
    }

    lemma PrevAbove(p: nat, l: nat, before: Node) returns (a: nat)
      requires Shape() && p <= |spine| && IsPrev(spine[..p], tower[..p], l, before)
      ensures |spine| == |tower| && a < p && a < |spine| && tower[a] > l && before == spine[a] && First(tower, a + 1, l) >= p
      ensures forall b: nat | b < |spine| && b != a :: spine[b] != before
    {
      a :| a < p && tower[..p][a] > l && before == spine[..p][a] && forall b | a < b < p :: tower[..p][b] <= l;
      assert forall b: nat | b < p :: tower[..p][b] == tower[b];
    }

    lemma ShapeAfterRaise(p: nat)
      requires Shape() && 1 <= p < |spine| && tower[p] < maxHeight
      ensures InShape(head, maxHeight, spine, tower[p := tower[p] + 1])
      ensures forall b: nat | b < |spine| && b != p :: spine[b] != spine[p]
    {
    }

    // Each further link puts the new node into one more level.
    method LinkHigher(x: Node, before: Node, l: nat, ghost p: nat)
      requires Valid() && 1 <= p < |spine| && x == spine[p] && tower[p] == l < |x.next| && l < maxHeight
      requires IsPrev(spine[..p], tower[..p], l, before)
      modifies this`tower, x`next, before`next
      ensures Valid() && tower == old(tower)[p := l + 1] && |x.next| == old(|x.next|)
    {
      hide First, LinkedRow, IsPrev, InShape;
      ghost var s, t := spine, tower;
      ghost var prev := PrevAbove(p, l, before);
      ShapeAfterRaise(p);
      assert NodeLinked(prev) && NodeLinked(p);
      RowsAfterRaise(before.next, s, t, p, l, prev, prev);
      RowLink(before.next, s, t, prev, l);
      RaisedRow(x.next, s, t, p, l, prev);
      x.SetNext(l, before.next[l]);
      before.SetNext(l, x);
      tower := tower[p := l + 1];
      forall a: nat | a < |spine| ensures NodeLinked(a) {
        if a != p {
          assert old(NodeLinked(a));
          RowsAfterRaise(old(s[a].next), s, t, p, l, prev, a);
        }
      }
    }

    lemma HeadIsPrev(p: nat, l: nat)
      requires Shape() && 1 <= p <= |spine| && maxHeight <= l < MAX_HEIGHT
      ensures IsPrev(spine[..p], tower[..p], l, head)
    {
      assert spine[..p][0] == head && tower[..p][0] == MAX_HEIGHT;
    }

    lemma RaisedHeight(height: nat)
      requires Shape() && maxHeight <= height <= MAX_HEIGHT
      ensures InShape(head, height, spine, tower)
    {
    }

    ghost predicate IsPosition(entry: Entry, p: nat)
      reads `spine
    {
      1 <= p <= |spine| && forall a | 1 <= a < |spine| :: Before(spine[a].entry, entry) <==> a < p
    }

    lemma PositionIs(entry: Entry, p: nat)
      requires Shape()
      ensures IsPosition(entry, p) <==> p == Position(entry)
    {
      var q := Position(entry);
      if IsPosition(entry, p) {
        assert q < |spine| ==> (Before(spine[q].entry, entry) <==> q < p);
        assert p < |spine| ==> (Before(spine[p].entry, entry) <==> p < q);
      }
    }

    lemma SplitByPosition(entry: Entry, p: nat)
      requires Absent(entry) && IsPosition(entry, p)
      ensures forall a | 1 <= a < |spine| :: if a < p then Before(spine[a].entry, entry) else Before(entry, spine[a].entry)
    {
    }

    lemma PrevIsNode(l: nat, node: Node?, p: nat)
      requires p <= |spine| == |tower| && IsPrev(spine[..p], tower[..p], l, node)
      ensures node != null && node in spine[..p] && node in spine
    {
    }

    // The height is drawn at random by the caller.
    method Insert(entry: Entry, height: nat)
      requires Valid() && Absent(entry) && 1 <= height <= MAX_HEIGHT
      modifies this, spine
      ensures Valid() && Contents() == InternalKeys.Insert(old(Contents()), entry)
      ensures fresh(set n | n in spine && n !in old(spine))
    {
      hide First, LinkedRow, IsPrev, InShape, Absent, Position, IsPosition;
      var x, prev := FindGreaterOrEqual(entry);
      ghost var p, s, t, contents := Position(entry), spine, tower, Contents();
      ShapeIs();
      PositionIs(entry, p);
      if height > maxHeight {
        for i := maxHeight to height
          modifies {}
          invariant |prev| == MAX_HEIGHT && forall l: nat | l < i :: IsPrev(s[..p], t[..p], l, prev[l])
        {
          HeadIsPrev(p, i);
          prev := prev[i := head];
        }
        RaisedHeight(height);
        maxHeight := height;
        assert forall a: nat | a < |spine| :: old(NodeLinked(a)) ==> NodeLinked(a);
      }
      x := new Node(entry, height);
      SplitByPosition(entry, p);
      LinkTower(x, prev, p);
      ContentsInserted(s, contents, x, p);
    }

    // Publishes a new node level by level; after each link the list is whole.
    method LinkTower(x: Node, prev: seq<Node?>, ghost p: nat)
      requires Valid() && x !in spine && 1 <= |x.next| <= maxHeight && Absent(x.entry) && IsPosition(x.entry, p)
      requires |prev| >= |x.next| && forall l: nat | l < |x.next| :: IsPrev(spine[..p], tower[..p], l, prev[l])
      modifies this`spine, this`tower, x, spine
      ensures Valid() && spine == Inserted(old(spine), p, x)
    {
      hide First, LinkedRow, IsPrev, InShape, Absent, Position;
      ghost var s, t := spine, tower;
      ShapeIs();
      PositionIs(x.entry, p);
      PrevIsNode(0, prev[0], p);
      LinkBottom(x, prev[0], p);
      var i := 1;
      while i < |x.next|
        invariant 1 <= i <= |x.next| == old(|x.next|) <= maxHeight && Valid()
        invariant spine == Inserted(s, p, x) && tower == Inserted(t, p, i)
      {
        assert spine[..p] == s[..p] && tower[..p] == t[..p];
        PrevIsNode(i, prev[i], p);
        assert prev[i] in s;
        LinkHigher(x, prev[i], i, p);
        assert Inserted(t, p, i)[p := i + 1] == Inserted(t, p, i + 1);
        i := i + 1;
      }
    }

    lemma ContentsInserted(s: seq<Node>, contents: seq<Entry>, x: Node, p: nat)
      requires |s| > 0 && 1 <= p <= |s| && spine == Inserted(s, p, x)
      requires |contents| == |s| - 1 && forall i | 0 <= i < |contents| :: contents[i] == s[i + 1].entry
      requires forall a | 1 <= a < |s| :: if a < p then Before(s[a].entry, x.entry) else Before(x.entry, s[a].entry)
      ensures Contents() == InternalKeys.Insert(contents, x.entry)
    {
      hide Inserted;
      InsertAtRank(contents, x.entry, p - 1);
      InsertedIs(s, p, x);
      InsertedIs(contents, p - 1, x.entry);
      var es, r := Contents(), Inserted(contents, p - 1, x.entry);
      forall i | 0 <= i < |r| ensures es[i] == r[i] {
        assert es[i] == spine[i + 1].entry;
      }
      assert es == r;
    }

    // The entry at a place of the list.
    lemma EntryAt(p: nat)
      requires Shape() && 1 <= p < |spine|
      ensures p - 1 < |Contents()| == |spine| - 1 && Contents()[p - 1] == spine[p].entry
    {
    }

    method Contains(target: Entry) returns (found: bool)
      requires Valid()
      ensures found <==> exists e :: e in Contents() && e.key == target.key && e.Tag() == target.Tag()
    {
      hide InShape;
      ShapeIs();
      var x, _ := FindGreaterOrEqual(target);
      found := x != null && x.entry.key == target.key && x.entry.Tag() == target.Tag();
      FoundAtPosition(target);
    }

    lemma SpineAscends(p: nat, q: nat)
      requires Shape()
      ensures 1 <= p < q < |spine| ==> Before(spine[p].entry, spine[q].entry)
    {
    }

    lemma FoundAtPosition(target: Entry)
      requires Shape()
      ensures var p := Position(target);
        (exists e :: e in Contents() && e.key == target.key && e.Tag() == target.Tag())
        <==> p < |spine| && spine[p].entry.key == target.key && spine[p].entry.Tag() == target.Tag()
    {
      hide InShape, Before;
      var p := Position(target);
      if e :| e in Contents() && e.key == target.key && e.Tag() == target.Tag() {
        EqualIsAtPosition(target, e);
      }
      if p < |spine| {
        EntryAt(p);
        assert spine[p].entry in Contents();
      }
    }

    lemma EqualIsAtPosition(target: Entry, e: Entry)
      requires Shape() && e in Contents() && e.key == target.key && e.Tag() == target.Tag()
      ensures var p := Position(target);
        p < |spine| && spine[p].entry.key == target.key && spine[p].entry.Tag() == target.Tag()
    {
      var p := Position(target);
      var i: nat :| i < |Contents()| && Contents()[i] == e;
      assert spine[i + 1].entry == e;
      assert !Before(e, target);
      SpineAscends(p, i + 1);
    }
  }

  lemma {:induction false} InsertAtRank(es: seq<Entry>, e: Entry, k: nat)
    requires k <= |es| && (forall i | 0 <= i < k :: Before(es[i], e)) && forall i | k <= i < |es| :: Before(e, es[i])
    ensures InternalKeys.Insert(es, e) == Inserted(es, k, e)
  {
    if k > 0 {
      InsertAtRank(es[1..], e, k - 1);
      assert es[1..][..k - 1] == es[1..k] && es[1..][k - 1..] == es[k..];
      assert es[..k] == [es[0]] + es[1..k];
    } else {
      assert es[..0] == [] && es[0..] == es;
    }
  }
}
