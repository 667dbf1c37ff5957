/** The database cursor.

    Underneath is a cursor over all entries in internal order: every version of every key, deletion
    markers, and versions too new for the snapshot.  On top, the caller sees the live pairs of the
    snapshot, and may change direction at any time. */
module DbIter {
  import opened Options
  import opened InternalKeys

  // ----- the rows a snapshot shows -----

  predicate Seen(es: seq<Entry>, s: nat, i: nat)
    requires i < |es|
  {
    es[i].seqno <= s
  }

  // The newest version of its key that s sees, and a value.
  predicate IsRow(es: seq<Entry>, s: nat, i: nat)
    requires i < |es|
  {
    Seen(es, s, i) && es[i].op.Put? && (i > 0 && es[i - 1].key == es[i].key ==> !Seen(es, s, i - 1))
  }

  // The positions of the rows among the first n entries.
  function Rows(es: seq<Entry>, s: nat, n: nat): (r: seq<nat>)
    requires n <= |es|
  {
    if n == 0 then [] else Rows(es, s, n - 1) + if IsRow(es, s, n - 1) then [n - 1] else []
  }

  function Rank(es: seq<Entry>, s: nat, n: nat): nat
    requires n <= |es|
  {
    |Rows(es, s, n)|
  }

  lemma {:induction false} RowsUpTo(es: seq<Entry>, s: nat, m: nat, n: nat)
    requires m <= n <= |es|
    ensures Rows(es, s, m) <= Rows(es, s, n)
    ensures (forall i | m <= i < n :: !IsRow(es, s, i)) ==> Rows(es, s, m) == Rows(es, s, n)
  {
    if m < n {
      RowsUpTo(es, s, m, n - 1);
    }
  }

  // A row stands at the rank of its position.
  lemma RowAtRank(es: seq<Entry>, s: nat, i: nat)
    requires i < |es| && IsRow(es, s, i)
    ensures Rank(es, s, i) < Rank(es, s, |es|) && Rows(es, s, |es|)[Rank(es, s, i)] == i
    ensures Rank(es, s, i + 1) == Rank(es, s, i) + 1
  {
    RowsUpTo(es, s, i + 1, |es|);
  }

  // The row of rank a has rank a.
  lemma RankOfRow(es: seq<Entry>, s: nat, a: nat)
    requires a < Rank(es, s, |es|)
    ensures Rows(es, s, |es|)[a] < |es| && IsRow(es, s, Rows(es, s, |es|)[a])
    ensures Rank(es, s, Rows(es, s, |es|)[a]) == a
  {
    RowsAscend(es, s, |es|);
    RowAtRank(es, s, Rows(es, s, |es|)[a]);
  }

  lemma {:induction false} RowsAscend(es: seq<Entry>, s: nat, n: nat)
    requires n <= |es|
    ensures forall a | 0 <= a < Rank(es, s, n) :: Rows(es, s, n)[a] < n && IsRow(es, s, Rows(es, s, n)[a])
    ensures forall a, b | 0 <= a < b < Rank(es, s, n) :: Rows(es, s, n)[a] < Rows(es, s, n)[b]
  {
    if n > 0 {
      RowsAscend(es, s, n - 1);
    }
  }

  // In one key, versions get older to the right; so what an older one sees, a newer one sees.
  lemma OlderToTheRight(es: seq<Entry>, i: nat, j: nat)
    requires Sorted(es) && Unique(Of(es)) && i < j < |es|
    ensures es[i].key <= es[j].key
    ensures es[i].key == es[j].key ==> es[i].seqno > es[j].seqno
    ensures es[i].key == es[j].key ==> es[j - 1].key == es[j].key && es[j - 1].seqno <= es[i].seqno
  {
    SortedPair(es, i, j);
    assert es[i] in Of(es) && es[j] in Of(es);
    if i < j - 1 {
      SortedPair(es, i, j - 1);
      SortedPair(es, j - 1, j);
      assert es[j - 1] in Of(es);
    }
  }

  // The rows are exactly the pairs a read at s finds.
  lemma RowsAreReads(es: seq<Entry>, s: nat, k: Key, v: Value)
    requires Sorted(es) && Unique(Of(es))
    ensures Read(Of(es), k, s) == Some(v)
            <==> exists i: nat :: i < |es| && IsRow(es, s, i) && es[i].key == k && es[i].op == Put(v)
  {
    hide Sorted, Unique, Read;
    if e :| e in Of(es) && Matches(e, k, s) {
      var top := SomethingShows(Of(es), k, s, e);
      ReadShown(Of(es), k, s, top);
      var i: nat :| i < |es| && es[i] == top;
      if i > 0 {
        OlderToTheRight(es, i - 1, i);
        assert es[i - 1] in Of(es);
      }
      forall h: nat | h < |es| && IsRow(es, s, h) && es[h].key == k ensures h == i {
        assert es[h] in Of(es);
        if h < i {
          OlderToTheRight(es, h, i);
        } else if i < h {
          OlderToTheRight(es, i, h);
        }
      }
    } else {
      ReadAbsent(Of(es), k, s);
      assert forall i: nat | i < |es| :: es[i] in Of(es);
    }
  }

  lemma RowKeysAscend(es: seq<Entry>, s: nat, a: nat, b: nat)
    requires Sorted(es) && Unique(Of(es)) && a < b < Rank(es, s, |es|)
    ensures Rows(es, s, |es|)[a] < Rows(es, s, |es|)[b] < |es|
    ensures es[Rows(es, s, |es|)[a]].key < es[Rows(es, s, |es|)[b]].key
  {
    hide Sorted, Unique;
    RowsAscend(es, s, |es|);
    OlderToTheRight(es, Rows(es, s, |es|)[a], Rows(es, s, |es|)[b]);
  }

  // ----- the cursor -----

  datatype Direction = Forward | Reverse

  class Cursor {
    const entries: seq<Entry>
    const sequence: nat
    var pos: nat  // iter_; |entries| when it is not valid
    var direction: Direction
    var valid: bool
    var savedKey: Option<Key>
    var savedValue: Value
    ghost var at: nat  // the row the cursor stands on

    ghost predicate Ready() {
      Sorted(entries) && Unique(Of(entries))
    }

    ghost function AllRows(): seq<nat> {
      Rows(entries, sequence, |entries|)
    }

    // Going backwards, iter_ has stopped at the nearest visible entry of an earlier key.
    ghost predicate StoppedBefore(row: nat)
      requires row < |entries|
      reads this
    {
      && (pos < |entries| ==> pos < row && Seen(entries, sequence, pos) && entries[pos].key < entries[row].key)
      && forall i: nat | i < row && (pos < |entries| ==> pos < i) :: !Seen(entries, sequence, i)
    }

    ghost predicate Standing()
      reads this
    {
      && Ready() && pos <= |entries|
      && (valid ==>
            && at < |AllRows()| && AllRows()[at] < |entries|
            && var row := AllRows()[at];
               && IsRow(entries, sequence, row)
               && (direction.Forward? ==> pos == row)
               && (direction.Reverse? ==>
                     && savedKey == Some(entries[row].key) && entries[row].op == Put(savedValue)
                     && StoppedBefore(row)))
    }

    constructor (entries: seq<Entry>, sequence: nat)
      requires Sorted(entries) && Unique(Of(entries))
      ensures Standing() && !valid && this.entries == entries && this.sequence == sequence
    {
      this.entries, this.sequence := entries, sequence;
      pos, direction, valid := |entries|, Forward, false;
      savedKey, savedValue := None, "";
    }

    method Key() returns (k: Key)
      requires Standing() && valid
      ensures k == entries[AllRows()[at]].key
    {
      k := if direction.Forward? then entries[pos].key else savedKey.value;
    }

    method Value() returns (v: Value)
      requires Standing() && valid
      ensures entries[AllRows()[at]].op == Put(v)
    {
      v := if direction.Forward? then entries[pos].op.value else savedValue;
    }

    // The underlying cursor.
    method InnerNext()
      requires pos < |entries|
      modifies this`pos
      ensures pos == old(pos) + 1
    {
      pos := pos + 1;
    }

    method InnerPrev()
      requires pos < |entries|
      modifies this`pos
      ensures pos == if old(pos) == 0 then |entries| else old(pos) - 1
    {
      pos := if pos == 0 then |entries| else pos - 1;
    }

    // No key is half skipped: nothing visible of the key at `start` lies before it, except under
    // the skipped key, and nothing visible from there on comes before the skipped key.
    ghost predicate CleanStart(start: nat, skipping: bool, skip: Option<Key>) {
      && start < |entries|
      && (skipping ==> skip.Some?
                       && forall i: nat | start <= i < |entries| && Seen(entries, sequence, i) :: skip.value <= entries[i].key)
      && (start > 0 && entries[start - 1].key == entries[start].key && Seen(entries, sequence, start - 1) ==>
            skipping && entries[start].key <= skip.value)
    }

    // Loop until we hit an acceptable entry to yield.
    method FindNextUserEntry(skip0: bool)
      requires Ready() && direction.Forward? && CleanStart(pos, skip0, savedKey)
      modifies this`pos, this`valid, this`savedKey, this`at
      ensures Standing() && direction.Forward?
      ensures old(pos) <= pos
      ensures forall i: nat | old(pos) <= i < pos && IsRow(entries, sequence, i) ::
                skip0 && entries[i].key <= old(savedKey).value
      ensures valid <==> pos < |entries|
      ensures valid && skip0 ==> entries[pos].key > old(savedKey).value
      ensures valid ==> at == Rank(entries, sequence, pos)
    {
      hide Sorted, Unique, Rows;
      ghost var start, skipKey := pos, savedKey;
      var skipping := skip0;
      while pos < |entries|
        invariant start <= pos <= |entries| && (skipping ==> savedKey.Some?)
        invariant forall i: nat | start <= i < pos && IsRow(entries, sequence, i) :: skip0 && entries[i].key <= skipKey.value
        invariant forall i: nat | start <= i < pos && Seen(entries, sequence, i) :: skipping && entries[i].key <= savedKey.value
        invariant skip0 ==> skipping && savedKey.value >= skipKey.value
        invariant skipping ==> (skip0 && savedKey == skipKey)
                               || exists i: nat ::
                                  start <= i < pos && Seen(entries, sequence, i) && entries[i].key == savedKey.value
      {
        var e := entries[pos];
        if e.seqno <= sequence {
          if e.op.Deletion? {
            KeysAscendTo(entries, pos);
            savedKey := Some(e.key);
            skipping := true;
          } else if skipping && e.key <= savedKey.value {
            // hidden
            if i: nat :| start <= i < pos && Seen(entries, sequence, i) && entries[i].key == savedKey.value {
              OlderToTheRight(entries, i, pos);
            }
          } else {
            valid := true;
            savedKey := None;
            at := Rank(entries, sequence, pos);
            RowAtRank(entries, sequence, pos);
            return;
          }
        }
        InnerNext();
      }
      savedKey := None;
      valid := false;
    }

    // Scan backwards to the newest visible version of the nearest key that has a value.
    method FindPrevUserEntry()
      requires Ready() && direction.Reverse? && pos <= |entries|
      modifies this`pos, this`valid, this`savedKey, this`savedValue, this`direction, this`at
      ensures Standing()
      ensures valid ==> direction.Reverse? && at < |AllRows()| && AllRows()[at] <= old(pos) < |entries|
      ensures valid ==> forall i: nat | AllRows()[at] < i <= old(pos) :: !IsRow(entries, sequence, i)
      ensures valid ==> at == Rank(entries, sequence, AllRows()[at])
      ensures !valid ==> forall i: nat | i <= old(pos) < |entries| :: !IsRow(entries, sequence, i)
    {
      hide Sorted, Unique, Rows;
      ghost var hi := if pos < |entries| then pos + 1 else 0;
      ghost var lo := hi;  // entries lo .. hi are done
      ghost var row := 0;
      var haveValue := false;
      while pos < |entries|
        invariant pos <= |entries| && lo == if pos < |entries| then pos + 1 else 0
        invariant lo <= hi
        invariant direction.Reverse?
        invariant !haveValue ==> forall i: nat | lo <= i < hi :: !IsRow(entries, sequence, i)
        invariant haveValue ==>
          && lo <= row < hi && Seen(entries, sequence, row)
          && savedKey == Some(entries[row].key) && entries[row].op == Put(savedValue)
          && (forall i: nat | lo <= i < row :: !Seen(entries, sequence, i))
          && (forall i: nat | row < i < hi :: !IsRow(entries, sequence, i))
        decreases lo
      {
        var e := entries[pos];
        if e.seqno <= sequence {
          if haveValue {
            OlderToTheRight(entries, pos, row);
            if e.key < savedKey.value {
              break;
            }
          }
          haveValue := e.op.Put?;
          if e.op.Deletion? {
            savedKey, savedValue := None, "";
          } else {
            savedKey, savedValue := Some(e.key), e.op.value;
            row := pos;
          }
        }
        InnerPrev();
        lo := lo - 1;
      }
      if !haveValue {
        valid := false;
        savedKey, savedValue, direction := None, "", Forward;
      } else {
        valid := true;
        at := Rank(entries, sequence, row);
        RowAtRank(entries, sequence, row);
      }
    }

    method SeekToFirst()
      requires Standing()
      modifies this
      ensures Standing() && (valid <==> |AllRows()| > 0) && (valid ==> at == 0)
    {
      direction, savedValue, pos := Forward, "", 0;
      if pos < |entries| {
        FindNextUserEntry(false);
        RowsUpTo(entries, sequence, 0, pos);
      } else {
        valid := false;
      }
    }

    method SeekToLast()
      requires Standing()
      modifies this
      ensures Standing() && (valid <==> |AllRows()| > 0) && (valid ==> at == |AllRows()| - 1)
    {
      direction, savedValue := Reverse, "";
      pos := if entries == [] then 0 else |entries| - 1;
      ghost var last := pos;
      FindPrevUserEntry();
      if valid {
        NothingBetween(entries, sequence, AllRows()[at], |entries|);
      } else {
        RowsUpTo(entries, sequence, 0, |entries|);
      }
    }

    // Wherever the cursor stands, the forward search may start at its row, or right after the
    // place where the backward search has stopped.
    lemma StartAfterStop(row: nat, start: nat)
      requires Ready() && row < |entries| && IsRow(entries, sequence, row) && start <= row
      requires forall i: nat | start <= i < row :: !Seen(entries, sequence, i)
      requires start > 0 && start < row ==> entries[start - 1].key < entries[row].key && Seen(entries, sequence, start - 1)
      ensures CleanStart(start, true, Some(entries[row].key))
    {
      hide Sorted, Unique;
      if start > 0 {
        OlderToTheRight(entries, start - 1, start);
      }
      forall i: nat | start <= i < |entries| && Seen(entries, sequence, i) ensures entries[row].key <= entries[i].key {
        if row < i {
          OlderToTheRight(entries, row, i);
        }
      }
    }

    // The first row at or after the target.
    method Seek(target: Key)
      requires Standing()
      modifies this
      ensures Standing()
      ensures valid ==> entries[AllRows()[at]].key >= target
      ensures forall a | 0 <= a < (if valid then at else |AllRows()|) ::
                AllRows()[a] < |entries| && entries[AllRows()[a]].key < target
    {
      hide Sorted, Unique, Rows, SeekIndex, AtOrAfter;
      direction, savedValue, savedKey := Forward, "", None;
      pos := SeekIndex(entries, target, sequence);
      ghost var start := pos;
      if pos < |entries| {
        SeekStartsClean(entries, target, sequence);
        FindNextUserEntry(false);
        if valid {
          RowAtRank(entries, sequence, pos);
          SeekOrder(entries, target, sequence, pos);
        }
      } else {
        valid := false;
      }
      RowsAscend(entries, sequence, |entries|);
      forall a | 0 <= a < (if valid then at else |AllRows()|) ensures entries[AllRows()[a]].key < target {
        SeekOrder(entries, target, sequence, AllRows()[a]);
      }
    }

    method Next()
      requires Standing() && valid
      modifies this
      ensures Standing()
      ensures if old(at) + 1 < |AllRows()| then valid && at == old(at) + 1 else !valid
    {
      hide Sorted, Unique, Rows, IsRow;
      ghost var row := AllRows()[at];
      RankOfRow(entries, sequence, at);
      if direction.Reverse? {
        direction := Forward;
        // iter_ is just before the entries of this key, so advance into them
        if pos >= |entries| {
          pos := 0;
        } else {
          InnerNext();
        }
        if pos >= |entries| {
          assert false;  // the row itself is still ahead
        }
      } else {
        savedKey := Some(entries[pos].key);
      }
      StartAfterStop(row, pos);
      FindNextUserEntry(true);
      KeysAscendTo(entries, row);
      forall i: nat | row < i < pos ensures !IsRow(entries, sequence, i) {
        OneRowPerKey(entries, sequence, row, i);
      }
      NothingBetween(entries, sequence, row, pos);
    }

    method Prev()
      requires Standing() && valid
      modifies this
      ensures Standing()
      ensures if old(at) > 0 then valid && at == old(at) - 1 else !valid
    {
      hide Sorted, Unique, Rows;
      ghost var row := AllRows()[at];
      RankOfRow(entries, sequence, at);
      if direction.Forward? {
        savedKey := Some(entries[pos].key);
        // scan backwards until the key changes
        while true
          invariant pos < |entries| && pos <= row && valid && Ready()
          invariant savedKey == Some(entries[row].key)
          invariant forall i: nat | pos <= i < row :: !IsRow(entries, sequence, i)
          invariant entries[pos].key == entries[row].key
          decreases pos
        {
          InnerPrev();
          if pos >= |entries| {
            valid := false;
            savedKey, savedValue := None, "";
            NothingBefore(entries, sequence, row);
            return;
          }
          OlderToTheRight(entries, pos, row);
          if entries[pos].key < savedKey.value {
            break;
          }
        }
        direction := Reverse;
      }
      assert pos < |entries| ==> pos < row;
      assert forall i: nat | i < row && (pos < |entries| ==> pos < i) :: !IsRow(entries, sequence, i);
      FindPrevUserEntry();
      if valid {
        NothingBetween(entries, sequence, AllRows()[at], row);
      } else {
        NothingBefore(entries, sequence, row);
      }
    }
  }

  lemma SeekOrder(es: seq<Entry>, k: Key, s: nat, j: nat)
    requires Sorted(es) && j < |es|
    ensures SeekIndex(es, k, s) <= j ==> k <= es[j].key
    ensures j < SeekIndex(es, k, s) && Seen(es, s, j) ==> es[j].key < k
  {
    SeekSplits(es, k, s, j);
  }

  lemma SeekStartsClean(es: seq<Entry>, k: Key, s: nat)
    requires Sorted(es) && SeekIndex(es, k, s) < |es|
    ensures var i := SeekIndex(es, k, s);
      i > 0 && es[i - 1].key == es[i].key ==> !Seen(es, s, i - 1)
  {
    var i := SeekIndex(es, k, s);
    SeekOrder(es, k, s, i);
    if i > 0 {
      SeekOrder(es, k, s, i - 1);
    }
  }

  lemma OneRowPerKey(es: seq<Entry>, s: nat, row: nat, i: nat)
    requires Sorted(es) && Unique(Of(es)) && row < i < |es| && IsRow(es, s, row)
    ensures IsRow(es, s, i) ==> es[row].key < es[i].key
  {
    OlderToTheRight(es, row, i);
  }

  // Without rows in between, a row is followed by the next rank.
  lemma NothingBetween(es: seq<Entry>, s: nat, row: nat, n: nat)
    requires row < n <= |es| && IsRow(es, s, row)
    requires forall i: nat | row < i < n :: !IsRow(es, s, i)
    ensures Rank(es, s, n) == Rank(es, s, row) + 1
  {
    RowAtRank(es, s, row);
    RowsUpTo(es, s, row + 1, n);
  }

  lemma NothingBefore(es: seq<Entry>, s: nat, row: nat)
    requires row <= |es| && forall i: nat | i < row :: !IsRow(es, s, i)
    ensures Rank(es, s, row) == 0
  {
    RowsUpTo(es, s, 0, row);
  }

  lemma KeysAscendTo(es: seq<Entry>, j: nat)
    requires Sorted(es) && Unique(Of(es)) && j < |es|
    ensures forall i: nat | i < j :: es[i].key <= es[j].key
  {
    hide Sorted, Unique;
    forall i: nat | i < j ensures es[i].key <= es[j].key {
      OlderToTheRight(es, i, j);
    }
  }
}
