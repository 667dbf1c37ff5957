/** The work of a compaction: merge the inputs, drop what no reader can see, cut the rest into
    tables. */
module Compactions {
  import opened Options
  import opened InternalKeys
  import opened Versions
  import opened CompactionInputs

  // ----- the input iterator -----

  function Merge(a: seq<Entry>, b: seq<Entry>): seq<Entry> {
    if a == [] then b
    else if b == [] then a
    else if Before(a[0], b[0]) then [a[0]] + Merge(a[1..], b)
    else [b[0]] + Merge(a, b[1..])
  }

  function MergeFiles(fs: seq<File>): seq<Entry> {
    if fs == [] then [] else Merge(fs[0].entries, MergeFiles(fs[1..]))
  }

  ghost predicate NoTies(a: seq<Entry>, b: seq<Entry>) {
    forall x, y | x in a && y in b && x.key == y.key :: x.seqno != y.seqno
  }

  ghost predicate AllDiffer(fs: seq<File>) {
    forall i, j | 0 <= i < j < |fs| :: NoTies(fs[i].entries, fs[j].entries)
  }

  lemma HeadIsFirst(es: seq<Entry>)
    requires Sorted(es) && es != []
    ensures Sorted(es[1..]) && forall e | e in es[1..] :: Before(es[0], e)
  {
  }

  lemma SortedCons(first: Entry, es: seq<Entry>)
    requires Sorted(es) && forall e | e in es :: Before(first, e)
    ensures Sorted([first] + es)
  {
  }

  // What comes before the first entry of a run comes before all of it.
  lemma BeforeAll(first: Entry, es: seq<Entry>)
    requires Sorted(es) && es != [] && Before(first, es[0])
    ensures forall e | e in es :: Before(first, e)
  {
    HeadIsFirst(es);
    assert es == [es[0]] + es[1..];
  }

  lemma OneComesFirst(a: seq<Entry>, b: seq<Entry>)
    requires a != [] && b != [] && NoTies(a, b)
    ensures Before(a[0], b[0]) || Before(b[0], a[0])
    ensures NoTies(a[1..], b) && NoTies(a, b[1..])
  {
    assert a[0] in a && b[0] in b;
    assert a[0].key == b[0].key ==> a[0].seqno != b[0].seqno;
  }

  lemma {:induction false} MergeIsSorted(a: seq<Entry>, b: seq<Entry>)
    requires Sorted(a) && Sorted(b) && NoTies(a, b)
    ensures Sorted(Merge(a, b))
    ensures forall e :: e in Merge(a, b) <==> e in a || e in b
  {
    hide Sorted, Before, NoTies;
    if a != [] && b != [] {
      OneComesFirst(a, b);
      HeadIsFirst(a);
      HeadIsFirst(b);
      if Before(a[0], b[0]) {
        BeforeAll(a[0], b);
        MergeIsSorted(a[1..], b);
        SortedCons(a[0], Merge(a[1..], b));
        assert a == [a[0]] + a[1..];
      } else {
        BeforeAll(b[0], a);
        MergeIsSorted(a, b[1..]);
        SortedCons(b[0], Merge(a, b[1..]));
        assert b == [b[0]] + b[1..];
      }
    }
  }

  lemma {:induction false} MergeFilesIsSorted(fs: seq<File>)
    requires AllDiffer(fs)
    ensures Sorted(MergeFiles(fs))
    ensures forall e :: e in MergeFiles(fs) <==> InFiles(fs, e)
  {
    if fs != [] {
      MergeFilesIsSorted(fs[1..]);
      ContentsSplit(fs);
      forall x, y | x in fs[0].entries && y in MergeFiles(fs[1..]) && x.key == y.key ensures x.seqno != y.seqno {
        var g :| g in fs[1..] && y in g.entries;
        var j :| 1 <= j < |fs| && fs[j] == g;
        assert NoTies(fs[0].entries, fs[j].entries);
      }
      MergeIsSorted(fs[0].entries, MergeFiles(fs[1..]));
      forall e ensures e in MergeFiles(fs) <==> e in ContentsOf(fs) {
        assert e in Of(fs[0].entries) <==> e in fs[0].entries;
        assert e in ContentsOf(fs[1..]) <==> InFiles(fs[1..], e);
      }
    }
  }

  // ----- the drop rules -----

  // No file below the output level can hold k.
  ghost predicate IsBase(v: Levels, level: nat, k: Key) {
    forall l, f | level + 2 <= l < |v| && f in v[l] :: !f.Covers(k)
  }

  // Rule (A): a newer version of the key is already visible to every reader.
  predicate Hidden(es: seq<Entry>, i: nat, floor: nat)
    requires i < |es|
  {
    i > 0 && es[i - 1].key == es[i].key && es[i - 1].seqno <= floor
  }

  // A deletion marker that every reader sees and that has nothing left to hide.
  ghost predicate Obsolete(v: Levels, level: nat, e: Entry, floor: nat) {
    e.op.Deletion? && e.seqno <= floor && IsBase(v, level, e.key)
  }

  ghost predicate Dropped(v: Levels, level: nat, es: seq<Entry>, i: nat, floor: nat)
    requires i < |es|
  {
    Hidden(es, i, floor) || Obsolete(v, level, es[i], floor)
  }

  // What a compaction keeps of the first n entries.
  ghost function Kept(v: Levels, level: nat, es: seq<Entry>, n: nat, floor: nat): (r: seq<Entry>)
    requires n <= |es|
  {
    if n == 0 then []
    else
      Kept(v, level, es, n - 1, floor) + if Dropped(v, level, es, n - 1, floor) then [] else [es[n - 1]]
  }

  lemma {:induction false} KeptEntries(v: Levels, level: nat, es: seq<Entry>, n: nat, floor: nat)
    requires n <= |es| && Sorted(es)
    ensures Sorted(Kept(v, level, es, n, floor))
    ensures forall e :: e in Kept(v, level, es, n, floor) <==>
                        exists i | 0 <= i < n :: es[i] == e && !Dropped(v, level, es, i, floor)
  {
    if n > 0 {
      KeptEntries(v, level, es, n - 1, floor);
      var rest := Kept(v, level, es, n - 1, floor);
      forall e | e in rest ensures Before(e, es[n - 1]) {
        var i :| 0 <= i < n - 1 && es[i] == e && !Dropped(v, level, es, i, floor);
      }
      assert forall i | 0 <= i < |rest| :: rest[i] in rest;
    }
  }

  // ----- DoCompactionWork -----

  function Flatten(fs: seq<File>): seq<Entry> {
    if fs == [] then [] else Flatten(fs[..|fs| - 1]) + fs[|fs| - 1].entries
  }

  // ----- where the outputs are cut -----

  // How many of the files, from the first on, end before the entry.
  function Ahead(fs: seq<File>, e: Entry): (n: nat)
    ensures n <= |fs|
  {
    if fs == [] || !Before(fs[0].Largest(), e) then 0 else 1 + Ahead(fs[1..], e)
  }

  // The bytes of the grandparents that are passed on the way from entry j to entry i.
  function PassedBytes(grandparents: seq<File>, es: seq<Entry>, j: nat, i: nat): nat
    requires j < |es| && i < |es|
  {
    var from, to := Ahead(grandparents, es[j]), Ahead(grandparents, es[i]);
    if from <= to then TotalFileSize(grandparents[from..to]) else 0
  }

  // An output stops before entry i: since the last stop, or since the first entry, more bytes are passed than
  // an output may overlap.
  predicate StopsBefore(grandparents: seq<File>, maxFileSize: nat, es: seq<Entry>, i: nat)
    requires i < |es|
    decreases i, 1
  {
    i > 0 && PassedBytes(grandparents, es, LastStop(grandparents, maxFileSize, es, i), i) > 10 * maxFileSize
  }

  function LastStop(grandparents: seq<File>, maxFileSize: nat, es: seq<Entry>, i: nat): (j: nat)
    requires 0 < i <= |es|
    ensures j < i
    decreases i, 0
  {
    if i == 1 then 0
    else if StopsBefore(grandparents, maxFileSize, es, i - 1) then i - 1
    else LastStop(grandparents, maxFileSize, es, i - 1)
  }

  // A file ends after the first i entries.
  ghost predicate CutAt(outputs: seq<File>, i: nat) {
    exists n: nat :: n <= |outputs| && |Flatten(outputs[..n])| == i
  }

  // No beginning of these entries reaches the size of a file.
  ghost predicate StaysBelow(es: seq<Entry>, maxFileSize: nat, tableSize: seq<Entry> -> nat) {
    forall m | 0 < m < |es| :: tableSize(es[..m]) < maxFileSize
  }

  // What a compaction works on: the entries, and what decides which are kept and where outputs stop.
  datatype Work = Work(version: Levels, level: nat, grandparents: seq<File>, es: seq<Entry>, floor: nat, maxFileSize: nat,
                       tableSize: seq<Entry> -> nat) {
    ghost function KeptOf(n: nat): seq<Entry>
      requires n <= |es|
    {
      Kept(version, level, es, n, floor)
    }

    predicate Stops(i: nat)
      requires i < |es|
    {
      StopsBefore(grandparents, maxFileSize, es, i)
    }

    // The size of the output is that of its entries, and it is closed as soon as it reaches the size of a file.
    ghost predicate Sized(f: File) {
      f.size == tableSize(f.entries) && StaysBelow(f.entries, maxFileSize, tableSize)
    }

    // The first n entries that are kept are those before a stop.
    ghost predicate StopsAfter(n: nat, end: nat)
      requires end <= |es|
    {
      exists i: nat :: i < end && Stops(i) && |KeptOf(i)| == n
    }

    // The output is full, or one of the stops comes right after it.
    ghost predicate Ended(outputs: seq<File>, n: nat, stops: nat)
      requires n < |outputs| && stops <= |es|
    {
      tableSize(outputs[n].entries) >= maxFileSize || StopsAfter(|Flatten(outputs[..n + 1])|, stops)
    }

    ghost predicate CutAtStops(outputs: seq<File>, stops: nat)
      requires stops <= |es|
    {
      forall i: nat | i < stops && Stops(i) :: CutAt(outputs, |KeptOf(i)|)
    }

    // Where the loop is after some entries and some decisions to stop: `building` is in the open table.
    ghost predicate InProgress(outputs: seq<File>, building: seq<Entry>, n: nat, stops: nat)
      requires n <= |es| && stops <= |es|
    {
      && Flatten(outputs) + building == KeptOf(n)
      && (forall k | 0 <= k < |outputs| :: Sized(outputs[k]) && Ended(outputs, k, stops))
      && StaysBelow(building, maxFileSize, tableSize)
      && CutAtStops(outputs, stops)
    }

    // The outputs are cut where they reach the size of a file, and at the stops, and nowhere else.
    ghost predicate CutsAreRight(outputs: seq<File>) {
      && Flatten(outputs) == KeptOf(|es|)
      && (forall n | 0 <= n < |outputs| :: Sized(outputs[n]))
      && CutAtStops(outputs, |es|)
      && forall n | 0 <= n < |outputs| - 1 :: Ended(outputs, n, |es|)
    }
  }

  // The cursor over the grandparents after the first n entries.
  ghost predicate Tracks(w: Work, n: nat, index: nat, seen: bool, bytes: nat)
    requires n <= |w.es|
  {
    if n == 0 then index == 0 && !seen && bytes == 0 else
      && seen && index == Ahead(w.grandparents, w.es[n - 1])
      && bytes == PassedBytes(w.grandparents, w.es, LastStop(w.grandparents, w.maxFileSize, w.es, n), n - 1)
  }

  lemma {:induction false} AheadIs(fs: seq<File>, e: Entry, n: nat)
    requires n <= |fs| && (forall k | 0 <= k < n :: Before(fs[k].Largest(), e)) && (n < |fs| ==> !Before(fs[n].Largest(), e))
    ensures Ahead(fs, e) == n
  {
    hide Before;
    if n > 0 {
      forall k | 0 <= k < n - 1 ensures Before(fs[1..][k].Largest(), e) {
        assert fs[1..][k] == fs[k + 1];
      }
      AheadIs(fs[1..], e, n - 1);
    }
  }

  lemma {:induction false} AheadFiles(fs: seq<File>, e: Entry, k: nat)
    requires k < Ahead(fs, e)
    ensures Before(fs[k].Largest(), e)
  {
    hide Before;
    if k > 0 {
      AheadFiles(fs[1..], e, k - 1);
    }
  }

  lemma AheadGrows(fs: seq<File>, e: Entry, later: Entry, n: nat)
    requires Before(e, later) && Ahead(fs, e) <= n <= |fs|
    requires forall k | Ahead(fs, e) <= k < n :: Before(fs[k].Largest(), later)
    requires n < |fs| ==> !Before(fs[n].Largest(), later)
    ensures Ahead(fs, later) == n
  {
    hide Before;
    forall k | 0 <= k < n ensures Before(fs[k].Largest(), later) {
      if k < Ahead(fs, e) {
        AheadFiles(fs, e, k);
        BeforeThrough(fs[k].Largest(), e, later);
      }
    }
    AheadIs(fs, later, n);
  }

  lemma BeforeThrough(a: Entry, b: Entry, c: Entry)
    requires Before(a, b) && Before(b, c)
    ensures Before(a, c)
  {
  }

  lemma {:induction false} SizeOfBoth(fs: seq<File>, gs: seq<File>)
    ensures TotalFileSize(fs + gs) == TotalFileSize(fs) + TotalFileSize(gs)
  {
    if fs == [] {
      assert fs + gs == gs;
    } else {
      SizeOfBoth(fs[1..], gs);
      assert (fs + gs)[1..] == fs[1..] + gs;
    }
  }

  lemma {:induction false} AheadAscends(fs: seq<File>, es: seq<Entry>, i: nat, j: nat)
    requires Sorted(es) && i <= j < |es|
    ensures Ahead(fs, es[i]) <= Ahead(fs, es[j])
  {
    hide Before;
    if i < j {
      var n, m := Ahead(fs, es[i]), Ahead(fs, es[j]);
      assert Before(es[i], es[j]);
      if m < n {
        AheadFiles(fs, es[i], m);
        BeforeThrough(fs[m].Largest(), es[i], es[j]);
        AheadEnds(fs, es[j]);
      }
    }
  }

  lemma {:induction false} AheadEnds(fs: seq<File>, e: Entry)
    ensures var n := Ahead(fs, e); n < |fs| ==> !Before(fs[n].Largest(), e)
  {
    hide Before;
    if fs != [] && Before(fs[0].Largest(), e) {
      AheadEnds(fs[1..], e);
    }
  }

  // What is passed on the way adds up.
  lemma PassedAdds(fs: seq<File>, es: seq<Entry>, j: nat, i: nat, k: nat)
    requires Sorted(es) && j <= i <= k < |es|
    ensures Ahead(fs, es[j]) <= Ahead(fs, es[i]) <= Ahead(fs, es[k])
    ensures PassedBytes(fs, es, j, k) == PassedBytes(fs, es, j, i) + TotalFileSize(fs[Ahead(fs, es[i])..Ahead(fs, es[k])])
    ensures PassedBytes(fs, es, k, k) == 0
  {
    hide Sorted, Before, TotalFileSize, Ahead;
    AheadAscends(fs, es, j, i);
    AheadAscends(fs, es, i, k);
    var a, b, c := Ahead(fs, es[j]), Ahead(fs, es[i]), Ahead(fs, es[k]);
    SizeOfBoth(fs[a..b], fs[b..c]);
    assert fs[a..b] + fs[b..c] == fs[a..c];
    assert fs[c..c] == [];
    NoFilesNoSize();
  }

  lemma TrackStep(w: Work, i: nat, index: nat, seen: bool, bytes: nat, index': nat, bytes': nat)
    requires i < |w.es| && Sorted(w.es) && Tracks(w, i, index, seen, bytes) && index <= index' <= |w.grandparents|
    requires forall k | index <= k < index' :: Before(w.grandparents[k].Largest(), w.es[i])
    requires index' < |w.grandparents| ==> !Before(w.grandparents[index'].Largest(), w.es[i])
    requires bytes' == bytes + if seen then TotalFileSize(w.grandparents[index..index']) else 0
    ensures w.Stops(i) <==> bytes' > 10 * w.maxFileSize
    ensures Tracks(w, i + 1, index', true, if bytes' > 10 * w.maxFileSize then 0 else bytes')
  {
    hide Sorted, Before, TotalFileSize, Ahead, PassedBytes;
    var fs, es := w.grandparents, w.es;
    if i == 0 {
      AheadIs(fs, es[0], index');
      PassedAdds(fs, es, 0, 0, 0);
    } else {
      var last := LastStop(fs, w.maxFileSize, es, i);
      NextInRun(es, i);
      AheadGrows(fs, es[i - 1], es[i], index');
      PassedAdds(fs, es, last, i - 1, i);
    }
  }

  lemma NextInRun(es: seq<Entry>, i: nat)
    requires Sorted(es) && 0 < i < |es|
    ensures Before(es[i - 1], es[i])
  {
  }

  class Compaction {
    const version: Levels
    const level: nat
    const grandparents: seq<File>
    const maxOverlapBytes: nat
    var levelPtrs: seq<nat>
    var grandparentIndex: nat
    var seenKey: bool
    var overlappedBytes: nat

    ghost predicate Valid()
      reads this
    {
      && |version| == |levelPtrs| == NUM_LEVELS
      && (forall l | 1 <= l < NUM_LEVELS :: SortedLevel(version[l]))
      && (forall l | 0 <= l < NUM_LEVELS :: levelPtrs[l] <= |version[l]|)
      && grandparentIndex <= |grandparents|
    }

    // The cursors have left behind only files that end before k.
    ghost predicate Passed(k: Key)
      requires Valid()
      reads this
    {
      forall l, i | 0 <= l < NUM_LEVELS && 0 <= i < levelPtrs[l] :: version[l][i].Largest().key < k
    }

    constructor (version: Levels, level: nat, grandparents: seq<File>, maxFileSize: nat)
      requires ValidVersion(version)
      ensures Valid() && fresh(this)
      ensures this.version == version && this.level == level
      ensures this.grandparents == grandparents && maxOverlapBytes == 10 * maxFileSize
      ensures grandparentIndex == 0 && !seenKey && overlappedBytes == 0
      ensures forall k :: Passed(k)
    {
      this.version, this.level := version, level;
      this.grandparents, this.maxOverlapBytes := grandparents, 10 * maxFileSize;
      this.levelPtrs := seq(NUM_LEVELS, _ => 0);
      this.grandparentIndex, this.seenKey, this.overlappedBytes := 0, false, 0;
    }

    // The moving cursors give the answer of the stateless check, as long as keys come in
    // ascending order: whatever is Passed for k is Passed for every later key.
    method IsBaseLevelForKey(k: Key) returns (base: bool)
      requires Valid() && Passed(k)
      modifies this`levelPtrs
      ensures Valid() && Passed(k)
      ensures base <==> IsBase(version, level, k)
    {
      var lvl := level + 2;
      while lvl < NUM_LEVELS
        invariant Valid() && Passed(k) && level + 2 <= lvl
        invariant forall l, f | level + 2 <= l < lvl && l < NUM_LEVELS && f in version[l] :: !f.Covers(k)
      {
        var files := version[lvl];
        while levelPtrs[lvl] < |files|
          invariant Valid() && Passed(k)
          invariant levelPtrs[lvl] < |files| || forall f | f in files :: !f.Covers(k)
          decreases |files| - levelPtrs[lvl]
        {
          var f := files[levelPtrs[lvl]];
          if k <= f.Largest().key {
            if k >= f.Smallest().key {
              assert f in version[lvl] && f.Covers(k);
              return false;
            }
            break;
          }
          levelPtrs := levelPtrs[lvl := levelPtrs[lvl] + 1];
        }
        AheadOfCursor(files, levelPtrs[lvl], k);
        lvl := lvl + 1;
      }
      return true;
    }

    // Splits the output where it would overlap too much of the level after next: the grandparents that
    // end before the entry count, unless they were passed before the first key.
    method ShouldStopBefore(e: Entry) returns (stop: bool)
      requires Valid() && Passed(e.key)
      modifies this`grandparentIndex, this`seenKey, this`overlappedBytes
      ensures Valid() && Passed(e.key) && seenKey && old(grandparentIndex) <= grandparentIndex <= |grandparents|
      ensures forall i | old(grandparentIndex) <= i < grandparentIndex :: Before(grandparents[i].Largest(), e)
      ensures grandparentIndex < |grandparents| ==> !Before(grandparents[grandparentIndex].Largest(), e)
      ensures var bytes := old(overlappedBytes)
                           + if old(seenKey) then TotalFileSize(grandparents[old(grandparentIndex)..grandparentIndex]) else 0;
        (stop <==> bytes > maxOverlapBytes) && overlappedBytes == if stop then 0 else bytes
    {
      hide TotalFileSize, Before, SortedLevel, ValidVersion;
      ghost var from := grandparentIndex;
      NoFilesNoSize();
      assert grandparents[from..from] == [];
      while grandparentIndex < |grandparents| && Before(grandparents[grandparentIndex].Largest(), e)
        invariant Valid() && Passed(e.key) && from <= grandparentIndex
        invariant forall i | from <= i < grandparentIndex :: Before(grandparents[i].Largest(), e)
        invariant seenKey == old(seenKey)
        invariant overlappedBytes == old(overlappedBytes) + if seenKey then TotalFileSize(grandparents[from..grandparentIndex]) else 0
        decreases |grandparents| - grandparentIndex
      {
        OneFileMore(grandparents, from, grandparentIndex);
        if seenKey {
          overlappedBytes := overlappedBytes + grandparents[grandparentIndex].size;
        }
        grandparentIndex := grandparentIndex + 1;
      }
      seenKey := true;
      if overlappedBytes > maxOverlapBytes {
        overlappedBytes := 0;
        return true;
      }
      return false;
    }
  }

  lemma OneFileMore(fs: seq<File>, from: nat, i: nat)
    requires from <= i < |fs|
    ensures TotalFileSize(fs[from..i + 1]) == TotalFileSize(fs[from..i]) + fs[i].size
  {
    hide TotalFileSize;
    SizeSnoc(fs[from..i], fs[i]);
    assert fs[from..i] + [fs[i]] == fs[from..i + 1];
  }

  lemma AheadOfCursor(files: seq<File>, p: nat, k: Key)
    requires SortedLevel(files) && p <= |files|
    requires forall i | 0 <= i < p :: files[i].Largest().key < k
    requires p < |files| ==> k < files[p].Smallest().key
    ensures forall f | f in files :: !f.Covers(k)
  {
    forall i | 0 <= i < |files| ensures !files[i].Covers(k) {
      if i > p {
        EntriesLieInRange(files[p], files[p].Largest());
        assert Before(files[p].Largest(), files[i].Smallest());
      }
    }
  }

  lemma {:induction false} FlattenedAreIn(fs: seq<File>)
    ensures forall e :: e in Flatten(fs) <==> InFiles(fs, e)
  {
    if fs != [] {
      var n := |fs| - 1;
      FlattenedAreIn(fs[..n]);
      assert fs == fs[..n] + [fs[n]];
      assert forall f :: f in fs <==> f in fs[..n] || f == fs[n];
    }
  }

  lemma {:induction false} CutOfSortedRun(fs: seq<File>)
    requires Sorted(Flatten(fs))
    ensures SortedLevel(fs)
  {
    if fs != [] {
      var n := |fs| - 1;
      var front := Flatten(fs[..n]);
      assert Sorted(front) by {
        assert front == Flatten(fs)[..|front|];
      }
      CutOfSortedRun(fs[..n]);
      FlattenedAreIn(fs[..n]);
      forall i | 0 <= i < n ensures Before(fs[i].Largest(), fs[n].Smallest()) {
        assert fs[..n][i] in fs[..n] && fs[i].Largest() in fs[i].entries;
        assert fs[i].Largest() in front;
        var j :| 0 <= j < |front| && front[j] == fs[i].Largest();
        assert Flatten(fs)[j] == fs[i].Largest() && Flatten(fs)[|front|] == fs[n].Smallest();
      }
      forall i, j | 0 <= i < j < |fs| ensures Before(fs[i].Largest(), fs[j].Smallest()) {
        if j < n {
          assert Before(fs[..n][i].Largest(), fs[..n][j].Smallest());
        }
      }
    }
  }

  // The number of an output: the one taken when it was opened, or for those still to be opened the next ones.
  function OutputNumber(begun: seq<nat>, next: nat, i: nat): nat {
    if i < |begun| then begun[i] else next + i - |begun|
  }

  function NextAfter(begun: seq<nat>, next: nat, n: nat): nat {
    if n <= |begun| then next else next + n - |begun|
  }

  // Closes the open table before entry i when the grandparents say so.
  method StopIfNeeded(c: Compaction, ghost w: Work, ghost i: nat, e: Entry, outputs: seq<File>, building: seq<Entry>,
                      begun: seq<nat>, next: nat, tableSize: seq<Entry> -> nat)
    returns (outputs': seq<File>, building': seq<Entry>)
    requires c.Valid() && c.Passed(e.key) && c.maxOverlapBytes == 10 * w.maxFileSize && c.grandparents == w.grandparents
    requires i < |w.es| && w.es[i] == e && w.tableSize == tableSize
    requires Sorted(w.es) && forall x | x in w.es :: x.seqno < MAX_SEQUENCE
    requires Tracks(w, i, c.grandparentIndex, c.seenKey, c.overlappedBytes) && w.InProgress(outputs, building, i, i)
    requires forall j | 0 <= j < |outputs| :: outputs[j].number == OutputNumber(begun, next, j)
    modifies c`grandparentIndex, c`seenKey, c`overlappedBytes
    ensures c.Valid() && c.Passed(e.key)
    ensures Tracks(w, i + 1, c.grandparentIndex, c.seenKey, c.overlappedBytes)
    ensures w.InProgress(outputs', building', i, i + 1) && (building' == building || building' == [])
    ensures forall j | 0 <= j < |outputs'| :: outputs'[j].number == OutputNumber(begun, next, j)
  {
    hide Sorted, Before, OutputNumber, Compaction.Valid, Compaction.Passed, Work.InProgress, Work.Stops, Tracks, TotalFileSize;
    ghost var index, seen, bytes := c.grandparentIndex, c.seenKey, c.overlappedBytes;
    outputs', building' := outputs, building;
    var stop := c.ShouldStopBefore(e);
    StopDecided(w, i, index, seen, bytes, c, stop);
    if stop && building != [] {
      var f := FinishOutput(w, i, i, outputs, building, begun, next, tableSize);
      StopWithOutput(w, outputs, building, f, i);
      outputs', building' := outputs + [f], [];
    } else {
      NoStop(w, outputs, building, i);
    }
  }

  // Looks at entry i with what the last one has left behind.
  method ShouldDrop(c: Compaction, input: seq<Entry>, i: nat, floor: nat, key: Option<Key>, last: nat)
    returns (drop: bool, currentKey: Option<Key>, lastSequenceForKey: nat)
    requires i < |input| && c.Valid() && c.Passed(input[i].key) && floor < MAX_SEQUENCE
    requires if i > 0 then key == Some(input[i - 1].key) && last == input[i - 1].seqno else key == None
    modifies c`levelPtrs
    ensures c.Valid() && c.Passed(input[i].key)
    ensures drop == Dropped(c.version, c.level, input, i, floor)
    ensures currentKey == Some(input[i].key) && lastSequenceForKey == input[i].seqno
  {
    hide Compaction.Valid, Compaction.Passed, IsBase;
    var e := input[i];
    currentKey, lastSequenceForKey := key, last;
    if currentKey != Some(e.key) {
      currentKey := Some(e.key);
      lastSequenceForKey := MAX_SEQUENCE;
    }
    drop := false;
    if lastSequenceForKey <= floor {
      drop := true;  // (A)
    } else if e.op.Deletion? && e.seqno <= floor {
      drop := c.IsBaseLevelForKey(e.key);
    }
    lastSequenceForKey := e.seqno;
  }

  // kMaxSequenceNumber doubles as "no entry of this key seen yet", so the floor must stay below it.
  method DoCompactionWork(c: Compaction, input: seq<Entry>, floor: nat,
                          begun: seq<nat>, next: nat, maxFileSize: nat, tableSize: seq<Entry> -> nat)
    returns (outputs: seq<File>)
    requires c.Valid() && forall k :: c.Passed(k)
    requires c.grandparentIndex == 0 && !c.seenKey && c.overlappedBytes == 0 && c.maxOverlapBytes == 10 * maxFileSize
    requires Sorted(input) && forall e | e in input :: e.seqno < MAX_SEQUENCE
    requires floor < MAX_SEQUENCE
    modifies c
    ensures Flatten(outputs) == Kept(c.version, c.level, input, |input|, floor)
    ensures Work(c.version, c.level, c.grandparents, input, floor, maxFileSize, tableSize).CutsAreRight(outputs)
    ensures SortedLevel(outputs)
    ensures forall i | 0 <= i < |outputs| :: outputs[i].number == OutputNumber(begun, next, i)
  {
    hide Flatten, Kept, SortedLevel, Dropped, Sorted, OutputNumber, Before;
    hide Compaction.Valid, Compaction.Passed, Work.InProgress, Work.Stops, Work.CutsAreRight, Tracks;
    ghost var w := Work(c.version, c.level, c.grandparents, input, floor, maxFileSize, tableSize);
    NothingDone(w);
    outputs := [];
    var building := [];  // the entries of the open table; empty when none is open
    var currentKey: Option<Key> := None;
    var lastSequenceForKey := MAX_SEQUENCE;
    var i := 0;
    while i < |input|
      invariant 0 <= i <= |input|
      invariant c.Valid() && (i < |input| ==> c.Passed(input[i].key))
      invariant i > 0 ==> currentKey == Some(input[i - 1].key) && lastSequenceForKey == input[i - 1].seqno
      invariant i == 0 ==> currentKey == None
      invariant Tracks(w, i, c.grandparentIndex, c.seenKey, c.overlappedBytes)
      invariant w.InProgress(outputs, building, i, i) && (building != [] ==> tableSize(building) < maxFileSize)
      invariant forall j | 0 <= j < |outputs| :: outputs[j].number == OutputNumber(begun, next, j)
    {
      var e := input[i];
      outputs, building := StopIfNeeded(c, w, i, e, outputs, building, begun, next, tableSize);

      var drop;
      drop, currentKey, lastSequenceForKey := ShouldDrop(c, input, i, floor, currentKey, lastSequenceForKey);
      OneMoreKept(w, outputs, building, i, drop);
      assert building + [] == building;
      PassedLater(c, input, i);
      i := i + 1;

      if !drop {
        building := building + [e];
        if tableSize(building) >= maxFileSize {
          var f := FinishOutput(w, i, i, outputs, building, begun, next, tableSize);
          FullOutput(w, outputs, building, f, i);
          outputs, building := outputs + [f], [];
        }
      }
    }
    if building != [] {
      var f := FinishOutput(w, i, i, outputs, building, begun, next, tableSize);
      LastOutput(w, outputs, building, f);
      outputs := outputs + [f];
    } else {
      NoLastOutput(w, outputs);
    }
    RightCutsFlatten(w, outputs);
    KeptEntries(c.version, c.level, input, |input|, floor);
    CutOfSortedRun(outputs);
  }

  lemma NothingDone(w: Work)
    ensures w.InProgress([], [], 0, 0) && Tracks(w, 0, 0, false, 0)
  {
  }

  // What the cursor says is what a stateless look at the grandparents says.
  lemma StopDecided(w: Work, i: nat, index: nat, seen: bool, bytes: nat, c: Compaction, stop: bool)
    requires c.grandparents == w.grandparents && c.grandparentIndex <= |c.grandparents| && c.seenKey
    requires i < |w.es| && Sorted(w.es) && Tracks(w, i, index, seen, bytes) && index <= c.grandparentIndex
    requires forall k | index <= k < c.grandparentIndex :: Before(c.grandparents[k].Largest(), w.es[i])
    requires c.grandparentIndex < |c.grandparents| ==> !Before(c.grandparents[c.grandparentIndex].Largest(), w.es[i])
    requires var bytes' := bytes + if seen then TotalFileSize(c.grandparents[index..c.grandparentIndex]) else 0;
      (stop <==> bytes' > 10 * w.maxFileSize) && c.overlappedBytes == if stop then 0 else bytes'
    ensures stop <==> w.Stops(i)
    ensures Tracks(w, i + 1, c.grandparentIndex, c.seenKey, c.overlappedBytes)
  {
    hide Sorted, Before, TotalFileSize, Tracks, Work.Stops;
    TrackStep(w, i, index, seen, bytes, c.grandparentIndex,
              bytes + if seen then TotalFileSize(c.grandparents[index..c.grandparentIndex]) else 0);
  }

  lemma MoreStops(w: Work, outputs: seq<File>, f: File, k: nat, stops: nat, more: nat)
    requires k < |outputs| && stops <= more <= |w.es| && w.Ended(outputs, k, stops)
    ensures w.Ended(outputs, k, more) && w.Ended(outputs + [f], k, more)
  {
    hide Kept, Flatten, StopsBefore;
    assert (outputs + [f])[..k + 1] == outputs[..k + 1];
  }

  lemma CutStays(outputs: seq<File>, f: File, i: nat)
    requires CutAt(outputs, i)
    ensures CutAt(outputs + [f], i)
  {
    hide Flatten;
    var n: nat :| n <= |outputs| && |Flatten(outputs[..n])| == i;
    assert (outputs + [f])[..n] == outputs[..n];
  }

  lemma CutAtEnd(outputs: seq<File>)
    ensures CutAt(outputs, |Flatten(outputs)|)
  {
    hide Flatten;
    assert outputs[..|outputs|] == outputs;
  }

  lemma CutsStay(w: Work, outputs: seq<File>, f: File, stops: nat)
    requires stops <= |w.es| && w.CutAtStops(outputs, stops)
    ensures w.CutAtStops(outputs + [f], stops)
  {
    hide CutAt, Kept, StopsBefore;
    forall i: nat | i < stops && w.Stops(i) ensures CutAt(outputs + [f], |w.KeptOf(i)|) {
      CutStays(outputs, f, |w.KeptOf(i)|);
    }
  }

  lemma NoStop(w: Work, outputs: seq<File>, building: seq<Entry>, i: nat)
    requires i < |w.es| && w.InProgress(outputs, building, i, i) && (w.Stops(i) ==> building == [])
    ensures w.InProgress(outputs, building, i, i + 1)
  {
    hide Flatten, Kept, StopsBefore, CutAt, Work.Ended, Work.Sized, Work.Stops, StaysBelow;
    forall k | 0 <= k < |outputs| ensures w.Sized(outputs[k]) && w.Ended(outputs, k, i + 1) {
      MoreStops(w, outputs, outputs[k], k, i, i + 1);
    }
    if w.Stops(i) {
      assert Flatten(outputs) + [] == Flatten(outputs);
      CutAtEnd(outputs);
    }
  }

  // One more output holds what was in the open table.
  lemma OutputClosed(w: Work, outputs: seq<File>, building: seq<Entry>, f: File, n: nat, stops: nat, more: nat)
    requires n <= |w.es| && stops <= more <= |w.es| && w.InProgress(outputs, building, n, stops)
    requires f.entries == building && f.size == w.tableSize(building)
    ensures Flatten(outputs + [f]) == w.KeptOf(n) && w.CutAtStops(outputs + [f], stops)
    ensures forall k | 0 <= k < |outputs + [f]| :: w.Sized((outputs + [f])[k])
    ensures forall k | 0 <= k < |outputs| :: w.Ended(outputs + [f], k, more)
  {
    hide Flatten, Kept, StopsBefore, CutAt, Work.Ended, Work.CutAtStops, StaysBelow;
    FlattenMore(outputs, f);
    CutsStay(w, outputs, f, stops);
    forall k | 0 <= k < |outputs| ensures w.Ended(outputs + [f], k, more) {
      MoreStops(w, outputs, f, k, stops, more);
    }
  }

  lemma StopWithOutput(w: Work, outputs: seq<File>, building: seq<Entry>, f: File, i: nat)
    requires i < |w.es| && w.InProgress(outputs, building, i, i) && w.Stops(i)
    requires f.entries == building && f.size == w.tableSize(building)
    ensures w.InProgress(outputs + [f], [], i, i + 1)
  {
    hide Flatten, Kept, StopsBefore, CutAt, Work.Sized, Work.Stops;
    OutputClosed(w, outputs, building, f, i, i, i + 1);
    var all := outputs + [f];
    CutAtEnd(all);
    assert Flatten(all) + [] == Flatten(all);
    assert all[..|outputs| + 1] == all;
    assert w.StopsAfter(|Flatten(all)|, i + 1);
    assert w.Ended(all, |outputs|, i + 1);
  }

  lemma FullOutput(w: Work, outputs: seq<File>, building: seq<Entry>, f: File, i: nat)
    requires i <= |w.es| && w.InProgress(outputs, building, i, i) && w.tableSize(building) >= w.maxFileSize
    requires f.entries == building && f.size == w.tableSize(building)
    ensures w.InProgress(outputs + [f], [], i, i)
  {
    hide Flatten, Kept, StopsBefore, CutAt, Work.Sized, Work.Stops, Work.CutAtStops;
    OutputClosed(w, outputs, building, f, i, i, i);
    var all := outputs + [f];
    assert Flatten(all) + [] == Flatten(all);
    assert w.Ended(all, |outputs|, i);
  }

  lemma LastOutput(w: Work, outputs: seq<File>, building: seq<Entry>, f: File)
    requires w.InProgress(outputs, building, |w.es|, |w.es|)
    requires f.entries == building && f.size == w.tableSize(building)
    ensures w.CutsAreRight(outputs + [f])
  {
    hide Flatten, Kept, StopsBefore, CutAt, Work.Sized, Work.Stops, Work.Ended, Work.CutAtStops;
    OutputClosed(w, outputs, building, f, |w.es|, |w.es|, |w.es|);
  }

  lemma NoLastOutput(w: Work, outputs: seq<File>)
    requires w.InProgress(outputs, [], |w.es|, |w.es|)
    ensures w.CutsAreRight(outputs)
  {
    hide Flatten, Kept, StopsBefore, CutAt, Work.Sized, Work.Stops, Work.Ended, Work.CutAtStops;
    assert Flatten(outputs) + [] == Flatten(outputs);
  }

  lemma RightCutsFlatten(w: Work, outputs: seq<File>)
    requires w.CutsAreRight(outputs)
    ensures Flatten(outputs) == Kept(w.version, w.level, w.es, |w.es|, w.floor)
  {
  }

  lemma OneMoreKept(w: Work, outputs: seq<File>, building: seq<Entry>, i: nat, drop: bool)
    requires i < |w.es| && w.InProgress(outputs, building, i, i + 1) && drop == Dropped(w.version, w.level, w.es, i, w.floor)
    requires building != [] ==> w.tableSize(building) < w.maxFileSize
    ensures w.InProgress(outputs, building + if drop then [] else [w.es[i]], i + 1, i + 1)
  {
    hide Flatten, Dropped, StopsBefore, CutAt, Work.Sized, Work.Stops, Work.Ended, Work.CutAtStops;
    var more := building + if drop then [] else [w.es[i]];
    assert Flatten(outputs) + more == Flatten(outputs) + building + if drop then [] else [w.es[i]];
    forall m | 0 < m < |more| ensures w.tableSize(more[..m]) < w.maxFileSize {
      assert more[..m] == building[..m];
      if m == |building| {
        assert building[..m] == building;
      }
    }
  }

  lemma PassedLater(c: Compaction, es: seq<Entry>, i: nat)
    requires i < |es| && Sorted(es) && c.Valid() && c.Passed(es[i].key)
    ensures i + 1 < |es| ==> c.Passed(es[i + 1].key)
  {
    assert i + 1 < |es| ==> Before(es[i], es[i + 1]);
  }

  lemma TailIsRun(done: seq<Entry>, building: seq<Entry>)
    requires Sorted(done + building) && forall e | e in done + building :: e.seqno < MAX_SEQUENCE
    ensures Sorted(building) && forall e | e in building :: e.seqno < MAX_SEQUENCE
  {
    assert building == (done + building)[|done|..];
  }

  lemma FlattenMore(outputs: seq<File>, f: File)
    ensures Flatten(outputs + [f]) == Flatten(outputs) + f.entries
  {
    assert (outputs + [f])[..|outputs|] == outputs;
  }

  // FinishCompactionOutputFile
  method FinishOutput(ghost w: Work, ghost n: nat, ghost stops: nat, outputs: seq<File>, building: seq<Entry>,
                      begun: seq<nat>, next: nat, tableSize: seq<Entry> -> nat)
    returns (f: File)
    requires Sorted(w.es) && (forall e | e in w.es :: e.seqno < MAX_SEQUENCE) && n <= |w.es| && stops <= |w.es|
    requires building != [] && w.InProgress(outputs, building, n, stops)
    ensures f.entries == building && f.size == tableSize(building) && f.number == OutputNumber(begun, next, |outputs|)
  {
    hide Kept, Sorted, Flatten, Work.Sized, Work.Ended, Work.CutAtStops, StaysBelow;
    KeptEntries(w.version, w.level, w.es, n, w.floor);
    TailIsRun(Flatten(outputs), building);
    f := Table(OutputNumber(begun, next, |outputs|), tableSize(building), building);
  }
}
