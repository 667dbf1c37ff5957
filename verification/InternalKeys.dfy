/** Internal keys of the LevelDB engine, and what it means to read a multi-version store.

    An entry is one version of one user key.  Every part of the engine (memtable, table files,
    levels, cursor) holds entries in the internal order `Before`, and every part has to agree with
    one simple question, `Read`: what does the newest entry for key `k` with sequence number at
    most `s` say? */
module InternalKeys {
  import opened Options

  // User keys matter only through the user comparator, a total order on byte strings.  There are
  // countably many byte strings, so any such order embeds in the reals.
  type Key = real
  type Value = string

  datatype Op = Put(value: Value) | Deletion

  datatype Entry = Entry(key: Key, seqno: nat, op: Op) {
    // The trailing 64 bits of an internal key: sequence number above one byte of value type.
    function Tag(): nat {
      seqno * 256 + if op.Put? then 1 else 0
    }

    function Visible(): Option<Value> {
      if op.Put? then Some(op.value) else None
    }
  }

  // kMaxSequenceNumber
  const MAX_SEQUENCE: nat := 0xff_ffff_ffff_ffff

  // InternalKeyComparator: user key ascending, then tag descending.
  predicate Before(a: Entry, b: Entry) {
    a.key < b.key || (a.key == b.key && a.Tag() > b.Tag())
  }

  // Compare(e, LookupKey(k, s)) >= 0.  The lookup key carries kValueTypeForSeek, the largest type.
  predicate AtOrAfter(e: Entry, k: Key, s: nat) {
    e.key > k || (e.key == k && e.Tag() <= s * 256 + 1)
  }

  ghost predicate Sorted(es: seq<Entry>) {
    forall i, j | 0 <= i < j < |es| :: Before(es[i], es[j])
  }

  lemma SortedPair(es: seq<Entry>, i: nat, h: nat)
    requires Sorted(es) && i < |es| && h < |es|
    ensures i < h ==> Before(es[i], es[h])
    ensures h < i ==> Before(es[h], es[i])
    ensures es[i] == es[h] ==> i == h
  {
  }

  // ----- reading -----

  type Contents = iset<Entry>

  ghost function Of(es: seq<Entry>): Contents {
    iset e | e in es
  }

  lemma OfSnoc(es: seq<Entry>, e: Entry)
    ensures Of(es + [e]) == Of(es) + iset{e}
  {
  }

  // One sequence number names at most one operation on a key.
  ghost predicate Unique(c: Contents) {
    forall a, b | a in c && b in c && a.key == b.key && a.seqno == b.seqno :: a == b
  }

  // Every version in `a` is newer than every version of the same key in `b`.
  ghost predicate Newer(a: Contents, b: Contents) {
    forall x, y | x in a && y in b && x.key == y.key :: x.seqno > y.seqno
  }

  predicate Matches(e: Entry, k: Key, s: nat) {
    e.key == k && e.seqno <= s
  }

  // e is the newest version of k that a reader at sequence number s may see
  ghost predicate Shows(c: Contents, k: Key, s: nat, e: Entry) {
    && e in c
    && Matches(e, k, s)
    && forall x | x in c && Matches(x, k, s) :: x.seqno <= e.seqno
  }

  ghost function Read(c: Contents, k: Key, s: nat): Option<Value> {
    if exists e :: Shows(c, k, s, e) then
      var e :| Shows(c, k, s, e);
      e.Visible()
    else
      None
  }

  lemma ReadShown(c: Contents, k: Key, s: nat, e: Entry)
    requires Unique(c) && Shows(c, k, s, e)
    ensures Read(c, k, s) == e.Visible()
  {
    var x :| Shows(c, k, s, x);
    forall x | Shows(c, k, s, x) ensures x == e {
      assert x.seqno == e.seqno;
    }
  }

  lemma {:induction false} SomethingShows(c: Contents, k: Key, s: nat, e: Entry) returns (top: Entry)
    requires e in c && Matches(e, k, s)
    ensures Shows(c, k, s, top)
    decreases s - e.seqno
  {
    if x :| x in c && Matches(x, k, s) && x.seqno > e.seqno {
      top := SomethingShows(c, k, s, x);
    } else {
      top := e;
    }
  }

  lemma ReadAbsent(c: Contents, k: Key, s: nat)
    requires forall e | e in c :: !Matches(e, k, s)
    ensures Read(c, k, s) == None
  {
    forall e ensures !Shows(c, k, s, e) {
    }
  }

  // A search that asks `first` before `second` finds the newest version when everything in `first`
  // is newer than everything in `second` for the same key.
  lemma ReadInOrder(first: Contents, second: Contents, k: Key, s: nat)
    requires Unique(first + second) && Newer(first, second)
    ensures (exists e | e in first :: Matches(e, k, s)) ==> Read(first + second, k, s) == Read(first, k, s)
    ensures (forall e | e in first :: !Matches(e, k, s)) ==> Read(first + second, k, s) == Read(second, k, s)
  {
    var both := first + second;
    if e :| e in first && Matches(e, k, s) {
      var top := SomethingShows(first, k, s, e);
      assert Shows(both, k, s, top);
      ReadShown(both, k, s, top);
      ReadShown(first, k, s, top);
    } else if e :| e in second && Matches(e, k, s) {
      var top := SomethingShows(second, k, s, e);
      assert Shows(both, k, s, top);
      ReadShown(both, k, s, top);
      ReadShown(second, k, s, top);
    } else {
      ReadAbsent(both, k, s);
      ReadAbsent(second, k, s);
    }
  }

  ghost predicate Dominates(c: Contents, k: Key, s: nat, e: Entry) {
    exists x | x in c && Matches(x, k, s) :: x.seqno >= e.seqno
  }

  lemma DominatesItself(c: Contents, k: Key, s: nat, e: Entry)
    requires e in c && Matches(e, k, s)
    ensures Dominates(c, k, s, e)
  {
  }

  lemma Dominator(c: Contents, k: Key, s: nat, e: Entry) returns (x: Entry)
    requires Dominates(c, k, s, e)
    ensures x in c && Matches(x, k, s) && x.seqno >= e.seqno
  {
    x :| x in c && Matches(x, k, s) && x.seqno >= e.seqno;
  }

  // Leaving out versions that are not the newest visible one changes no read.
  lemma DominatedRead(a: Contents, b: Contents, k: Key, s: nat)
    requires Unique(a) && b <= a
    requires forall e | e in a && Matches(e, k, s) :: Dominates(b, k, s, e)
    ensures Read(a, k, s) == Read(b, k, s)
    ensures (forall e | e in a :: !Matches(e, k, s)) <==> (forall e | e in b :: !Matches(e, k, s))
  {
    hide Dominates, Read;
    if e :| e in a && Matches(e, k, s) {
      var x := Dominator(b, k, s, e);
      var top := SomethingShows(a, k, s, e);
      var y := Dominator(b, k, s, top);
      assert y == top;
      ReadShown(a, k, s, top);
      ReadShown(b, k, s, top);
    } else {
      ReadAbsent(a, k, s);
      ReadAbsent(b, k, s);
    }
  }

  // Adding one version newer than everything in the store.
  lemma NewestWins(c: Contents, e: Entry, k: Key, s: nat)
    requires Unique(c + iset{e})
    requires forall x | x in c && x.key == e.key :: x.seqno < e.seqno
    ensures Read(c + iset{e}, k, s) == if Matches(e, k, s) then e.Visible() else Read(c, k, s)
  {
    var first := iset{e};
    assert first + c == c + first;
    ReadInOrder(first, c, k, s);
    if Matches(e, k, s) {
      assert Shows(first, k, s, e);
      ReadShown(first, k, s, e);
    }
  }

  // ----- the reference: the history of all writes -----

  // Write number i carries sequence number i + 1.
  ghost predicate IsHistory(hist: seq<Entry>) {
    forall i | 0 <= i < |hist| :: hist[i].seqno == i + 1
  }

  // The last write to k that a reader at s may see, by scanning the log of writes backwards.
  function Lookup(hist: seq<Entry>, k: Key, s: nat): Option<Value> {
    if hist == [] then None
    else
      var e := hist[|hist| - 1];
      if Matches(e, k, s) then e.Visible() else Lookup(hist[..|hist| - 1], k, s)
  }

  lemma HistoryIsUnique(hist: seq<Entry>)
    requires IsHistory(hist)
    ensures Unique(Of(hist))
    ensures forall e | e in hist :: 0 < e.seqno <= |hist| && hist[e.seqno - 1] == e
  {
    forall e | e in hist ensures 0 < e.seqno <= |hist| && hist[e.seqno - 1] == e {
      var i :| 0 <= i < |hist| && hist[i] == e;
    }
  }

  lemma ReadAfterWrite(hist: seq<Entry>, e: Entry, k: Key, s: nat)
    requires IsHistory(hist) && e.seqno == |hist| + 1
    ensures Read(Of(hist + [e]), k, s) == if Matches(e, k, s) then e.Visible() else Read(Of(hist), k, s)
  {
    HistoryIsUnique(hist);
    HistoryIsUnique(hist + [e]);
    OfSnoc(hist, e);
    NewestWins(Of(hist), e, k, s);
  }

  lemma {:induction false} LookupIsRead(hist: seq<Entry>, k: Key, s: nat)
    requires IsHistory(hist)
    ensures Lookup(hist, k, s) == Read(Of(hist), k, s)
  {
    if hist == [] {
      ReadAbsent(Of(hist), k, s);
    } else {
      var n := |hist| - 1;
      LookupIsRead(hist[..n], k, s);
      ReadAfterWrite(hist[..n], hist[n], k, s);
      assert hist == hist[..n] + [hist[n]];
    }
  }

  // ----- sorted sequences of entries -----

  // Position of the first entry at or after (k, s): what Seek does in a memtable or a table.
  function SeekIndex(es: seq<Entry>, k: Key, s: nat): (i: nat)
    ensures i <= |es|
    ensures forall j | 0 <= j < i :: !AtOrAfter(es[j], k, s)
    ensures i < |es| ==> AtOrAfter(es[i], k, s)
  {
    if es == [] || AtOrAfter(es[0], k, s) then 0 else 1 + SeekIndex(es[1..], k, s)
  }

  // The outcome of a point lookup in one sorted run: SaverState in a table, the return value and
  // status in a memtable.
  datatype Hit = Missing | Present(value: Value) | Deleted

  function PointGet(es: seq<Entry>, k: Key, s: nat): (h: Hit) {
    var i := SeekIndex(es, k, s);
    if i < |es| && es[i].key == k then
      if es[i].op.Put? then Present(es[i].op.value) else Deleted
    else
      Missing
  }

  function HitValue(h: Hit): Option<Value> {
    if h.Present? then Some(h.value) else None
  }

  lemma SeekSplits(es: seq<Entry>, k: Key, s: nat, j: nat)
    requires Sorted(es) && j < |es|
    ensures AtOrAfter(es[j], k, s) <==> SeekIndex(es, k, s) <= j
    ensures SeekIndex(es, k, s) < j ==> Before(es[SeekIndex(es, k, s)], es[j])
  {
  }

  // A single seek is a read: a hit answers it, a miss means that no visible version is here.
  lemma PointGetReads(es: seq<Entry>, k: Key, s: nat)
    requires Sorted(es) && Unique(Of(es))
    ensures PointGet(es, k, s).Missing? <==> forall e | e in es :: !Matches(e, k, s)
    ensures HitValue(PointGet(es, k, s)) == Read(Of(es), k, s)
  {
    hide Sorted, Read;
    var i := SeekIndex(es, k, s);
    if i < |es| && es[i].key == k {
      forall e | e in es && Matches(e, k, s) ensures e.seqno <= es[i].seqno {
        var j: nat :| j < |es| && es[j] == e;
        SeekSplits(es, k, s, j);
      }
      assert Shows(Of(es), k, s, es[i]);
      ReadShown(Of(es), k, s, es[i]);
    } else {
      forall e | e in es ensures !Matches(e, k, s) {
        var j: nat :| j < |es| && es[j] == e;
        SeekSplits(es, k, s, j);
      }
      ReadAbsent(Of(es), k, s);
    }
  }

  // MemTable::Add: insertion at the position the order dictates.
  function Insert(es: seq<Entry>, e: Entry): seq<Entry> {
    if es == [] || Before(e, es[0]) then [e] + es else [es[0]] + Insert(es[1..], e)
  }

  lemma {:induction false} InsertKeepsSorted(es: seq<Entry>, e: Entry)
    requires Sorted(es)
    requires forall x | x in es :: x.key != e.key || x.Tag() != e.Tag()
    ensures Sorted(Insert(es, e))
    ensures forall x :: x in Insert(es, e) <==> x == e || x in es
  {
    if es != [] && !Before(e, es[0]) {
      InsertKeepsSorted(es[1..], e);
      assert es == [es[0]] + es[1..];
      var r := Insert(es[1..], e);
      assert forall x | x in r :: Before(es[0], x);
    }
  }
}
