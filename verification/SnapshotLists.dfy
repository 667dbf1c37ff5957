/** The snapshots of a store: a doubly linked ring around a dummy head, oldest first. */
module SnapshotLists {
  class SnapshotImpl {
    var prev: SnapshotImpl
    var next: SnapshotImpl
    const sequenceNumber: nat

    constructor (sequenceNumber: nat)
      ensures this.sequenceNumber == sequenceNumber && prev == next == this
    {
      this.sequenceNumber, prev, next := sequenceNumber, this, this;
    }
  }

  // Where a step forward or back leads in a ring of n places.
  function Forward(i: nat, n: nat): (j: nat)
    requires i < n
    ensures j < n
  {
    if i + 1 == n then 0 else i + 1
  }

  function Back(i: nat, n: nat): (j: nat)
    requires i < n
    ensures j < n
  {
    if i == 0 then n - 1 else i - 1
  }

  ghost predicate Distinct(ring: seq<SnapshotImpl>) {
    forall i, j | 0 <= i < j < |ring| :: ring[i] != ring[j]
  }

  // The head has no part in the order.
  ghost predicate Ascending(ring: seq<SnapshotImpl>) {
    forall i, j | 1 <= i < j < |ring| :: ring[i].sequenceNumber <= ring[j].sequenceNumber
  }

  function NumbersOf(ring: seq<SnapshotImpl>): (r: seq<nat>)
    requires ring != []
    ensures |r| == |ring| - 1
  {
    seq(|ring| - 1, i requires 0 <= i < |ring| - 1 => ring[i + 1].sequenceNumber)
  }

  // ----- rings that grow and shrink -----

  lemma AppendedAscends(ring: seq<SnapshotImpl>, s: SnapshotImpl)
    requires ring != [] && Ascending(ring) && forall n | n in NumbersOf(ring) :: n <= s.sequenceNumber
    ensures Ascending(ring + [s]) && NumbersOf(ring + [s]) == NumbersOf(ring) + [s.sequenceNumber]
  {
    forall i: nat | 1 <= i < |ring| ensures ring[i].sequenceNumber <= s.sequenceNumber {
      assert NumbersOf(ring)[i - 1] in NumbersOf(ring);
    }
  }

  function Removed(ring: seq<SnapshotImpl>, at: nat): (r: seq<SnapshotImpl>)
    requires at < |ring|
    ensures |r| == |ring| - 1
  {
    ring[..at] + ring[at + 1..]
  }

  // Where a place of the shorter ring was before.
  function Origin(at: nat, i: nat): nat {
    if i < at then i else i + 1
  }

  lemma RemovedAt(ring: seq<SnapshotImpl>, at: nat, i: nat)
    requires at < |ring| && i < |ring| - 1
    ensures Removed(ring, at)[i] == ring[Origin(at, i)]
  {
  }

  lemma RemovedIsRing(ring: seq<SnapshotImpl>, at: nat)
    requires 0 < at < |ring| && Distinct(ring) && Ascending(ring)
    ensures Distinct(Removed(ring, at)) && Ascending(Removed(ring, at))
    ensures NumbersOf(Removed(ring, at)) == NumbersOf(ring)[..at - 1] + NumbersOf(ring)[at..]
  {
    hide Removed;
    var r := Removed(ring, at);
    forall i: nat | i < |r| ensures r[i] == ring[Origin(at, i)] {
      RemovedAt(ring, at, i);
    }
  }

  // The places next to a place, before and after.
  lemma RemovedNeighbours(n: nat, at: nat, i: nat)
    requires 0 < at < n && i < n - 1
    ensures var o := Origin(at, i);
      && Origin(at, Forward(i, n - 1)) == (if Forward(o, n) == at then Forward(at, n) else Forward(o, n))
      && Origin(at, Back(i, n - 1)) == (if Back(o, n) == at then Back(at, n) else Back(o, n))
      && (Forward(o, n) == at <==> o == Back(at, n)) && (Back(o, n) == at <==> o == Forward(at, n))
  {
  }

  class SnapshotList {
    const head: SnapshotImpl
    // The head, and the snapshots after it.
    ghost var ring: seq<SnapshotImpl>

    ghost predicate Linked(i: nat)
      reads this, ring
    {
      i < |ring| ==> ring[i].next == ring[Forward(i, |ring|)] && ring[i].prev == ring[Back(i, |ring|)]
    }

    ghost predicate Valid()
      reads this, ring
    {
      ring != [] && ring[0] == head && Distinct(ring) && Ascending(ring) && forall i: nat | i < |ring| :: Linked(i)
    }

    // The sequence numbers of the snapshots, oldest first.
    ghost function Numbers(): seq<nat>
      reads `ring
      requires ring != []
    {
      NumbersOf(ring)
    }

    constructor ()
      ensures Valid() && Numbers() == [] && fresh(ring)
    {
      var node := new SnapshotImpl(0);
      head, ring := node, [node];
    }

    method Empty() returns (empty: bool)
      requires Valid()
      ensures empty <==> Numbers() == []
    {
      assert Linked(0);
      empty := head.next == head;
      if !empty {
        assert |ring| > 1;
      }
    }

    // The floor of a compaction while there are snapshots.
    method Oldest() returns (s: SnapshotImpl)
      requires Valid() && Numbers() != []
      ensures s in ring[1..] && s.sequenceNumber == Numbers()[0]
      ensures forall n | n in Numbers() :: s.sequenceNumber <= n
    {
      assert Linked(0);
      s := head.next;
      assert ring[1..][0] == s && Numbers()[0] == s.sequenceNumber;
    }

    method Newest() returns (s: SnapshotImpl)
      requires Valid() && Numbers() != []
      ensures s in ring[1..] && s.sequenceNumber in Numbers()
      ensures forall n | n in Numbers() :: n <= s.sequenceNumber
    {
      assert Linked(0);
      s := head.prev;
      assert ring[1..][|ring| - 2] == s && Numbers()[|ring| - 2] == s.sequenceNumber;
    }

    // The smallest_snapshot of a compaction: the oldest one, or the present when there is none.
    method Floor(lastSequence: nat) returns (floor: nat)
      requires Valid()
      ensures floor == if Numbers() == [] then lastSequence else Numbers()[0]
      ensures forall n | n in Numbers() :: floor <= n
    {
      var empty := Empty();
      if empty {
        return lastSequence;
      }
      var oldest := Oldest();
      floor := oldest.sequenceNumber;
    }

    method New(sequenceNumber: nat) returns (snapshot: SnapshotImpl)
      requires Valid() && forall n | n in Numbers() :: n <= sequenceNumber
      modifies this`ring, ring
      ensures Valid() && fresh(snapshot) && ring == old(ring) + [snapshot] && snapshot.sequenceNumber == sequenceNumber
      ensures Numbers() == old(Numbers()) + [sequenceNumber]
    {
      hide Ascending, NumbersOf;
      ghost var n := |ring|;
      assert Linked(0);
      snapshot := new SnapshotImpl(sequenceNumber);
      assert Numbers() == NumbersOf(ring) == old(Numbers());
      AppendedAscends(ring, snapshot);
      snapshot.next := head;
      snapshot.prev := head.prev;
      snapshot.prev.next := snapshot;
      snapshot.next.prev := snapshot;
      ring := ring + [snapshot];
      forall i: nat | i < |ring| ensures Linked(i) {
        assert i < n ==> old(Linked(i));
      }
    }

    // A snapshot of this list is taken out; the others stay in their order.
    method Delete(snapshot: SnapshotImpl, ghost at: nat)
      requires Valid() && 0 < at < |ring| && ring[at] == snapshot
      modifies this`ring, ring
      ensures Valid() && ring == Removed(old(ring), at)
      ensures Numbers() == old(Numbers())[..at - 1] + old(Numbers())[at..]
    {
      hide Ascending, NumbersOf, Removed, Origin, Forward, Back;
      ghost var n, before := |ring|, ring;
      assert Linked(at);
      RemovedIsRing(ring, at);
      snapshot.prev.next := snapshot.next;
      snapshot.next.prev := snapshot.prev;
      ring := Removed(ring, at);
      assert ring[0] == head by { RemovedAt(before, at, 0); OriginOfHead(at); }
      forall i: nat | i < |ring| ensures Linked(i) {
        ghost var o := Origin(at, i);
        OriginInside(at, i, n);
        assert old(Linked(o));
        RemovedNeighbours(n, at, i);
        RemovedAt(before, at, i);
        RemovedAt(before, at, Forward(i, n - 1));
        RemovedAt(before, at, Back(i, n - 1));
      }
    }
  }

  lemma OriginOfHead(at: nat)
    requires at > 0
    ensures Origin(at, 0) == 0
  {
  }

  lemma OriginInside(at: nat, i: nat, n: nat)
    requires at < n && i < n - 1
    ensures Origin(at, i) < n && Origin(at, i) != at
  {
  }
}
