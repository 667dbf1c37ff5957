/** Table files, levels, and point lookups through them. */
module Versions {
  import opened Options
  import opened InternalKeys

  // config::kNumLevels
  const NUM_LEVELS: nat := 7

  // A table is the sorted run of entries stored under a file number; `size` is its length in bytes.
  datatype Table = Table(number: nat, size: nat, entries: seq<Entry>) {
    function Smallest(): Entry
      requires entries != []
    {
      entries[0]
    }

    function Largest(): Entry
      requires entries != []
    {
      entries[|entries| - 1]
    }

    ghost predicate Valid() {
      && entries != []
      && Sorted(entries)
      && forall e | e in entries :: e.seqno < MAX_SEQUENCE
    }

    // The user keys a file may hold, judged from its metadata alone.
    predicate Covers(k: Key)
      requires entries != []
    {
      Smallest().key <= k <= Largest().key
    }
  }

  type File = t: Table | t.Valid() witness Table(0, 0, [Entry(0.0, 0, Deletion)])

  type Levels = seq<seq<File>>

  ghost predicate InFiles(fs: seq<File>, e: Entry) {
    exists f | f in fs :: e in f.entries
  }

  ghost function ContentsOf(fs: seq<File>): Contents {
    iset e | InFiles(fs, e)
  }

  ghost predicate InLevels(v: Levels, l: nat, e: Entry) {
    exists i | l <= i < |v| :: InFiles(v[i], e)
  }

  ghost function ContentsFrom(v: Levels, l: nat): Contents {
    iset e | InLevels(v, l, e)
  }

  // Levels 1 and up: one sorted run, cut into files.
  ghost predicate SortedLevel(fs: seq<File>)
  {
    forall i, j | 0 <= i < j < |fs| :: Before(fs[i].Largest(), fs[j].Smallest())
  }

  // Level 0: files may overlap, and a higher file number means newer data.
  ghost predicate NumberedByAge(fs: seq<File>) {
    && (forall i, j | 0 <= i < j < |fs| :: fs[i].number != fs[j].number)
    && forall f, g | f in fs && g in fs && f.number > g.number :: Newer(Of(f.entries), Of(g.entries))
  }

  // What a version must satisfy for level-by-level search to be right.
  ghost predicate ValidVersion(v: Levels) {
    && |v| == NUM_LEVELS
    && (forall l | 1 <= l < |v| :: SortedLevel(v[l]))
    && NumberedByAge(v[0])
    && (forall l, m | 0 <= l < m < |v| :: Newer(ContentsOf(v[l]), ContentsOf(v[m])))
  }

  lemma EntriesLieInRange(f: File, e: Entry)
    requires e in f.entries
    ensures e == f.Smallest() || Before(f.Smallest(), e)
    ensures e == f.Largest() || Before(e, f.Largest())
    ensures f.Covers(e.key)
  {
    var i :| 0 <= i < |f.entries| && f.entries[i] == e;
  }

  // FindFile: binary search for the first file whose largest key is at or after (k, s).
  method FindFile(files: seq<File>, k: Key, s: nat) returns (right: nat)
    requires SortedLevel(files)
    ensures right <= |files|
    ensures forall i | 0 <= i < right :: !AtOrAfter(files[i].Largest(), k, s)
    ensures forall i | right <= i < |files| :: AtOrAfter(files[i].Largest(), k, s)
  {
    var left := 0;
    right := |files|;
    while left < right
      invariant 0 <= left <= right <= |files|
      invariant forall i | 0 <= i < left :: !AtOrAfter(files[i].Largest(), k, s)
      invariant forall i | right <= i < |files| :: AtOrAfter(files[i].Largest(), k, s)
    {
      var mid := (left + right) / 2;
      forall i | 0 <= i < |files| && i != mid
        ensures if i < mid then Before(files[i].Largest(), files[mid].Largest())
                else Before(files[mid].Largest(), files[i].Largest())
      {
        EntriesLieInRange(files[mid], files[mid].Largest());
        EntriesLieInRange(files[i], files[i].Largest());
      }
      if !AtOrAfter(files[mid].Largest(), k, s) {
        left := mid + 1;
      } else {
        right := mid;
      }
    }
  }

  // nullptr stands for a bound beyond all keys
  predicate AfterFile(k: Option<Key>, f: File)
  {
    k.Some? && k.value > f.Largest().key
  }

  predicate BeforeFile(k: Option<Key>, f: File)
  {
    k.Some? && k.value < f.Smallest().key
  }

  predicate Meets(f: File, lo: Option<Key>, hi: Option<Key>)
  {
    !AfterFile(lo, f) && !BeforeFile(hi, f)
  }

  // SomeFileOverlapsRange: the binary search on a sorted level answers what the scan answers.
  method SomeFileOverlapsRange(disjointSorted: bool, files: seq<File>, lo: Option<Key>, hi: Option<Key>)
    returns (overlaps: bool)
    requires disjointSorted ==> SortedLevel(files)
    ensures overlaps <==> exists f | f in files :: Meets(f, lo, hi)
  {
    if !disjointSorted {
      for i := 0 to |files|
        invariant forall f | f in files[..i] :: !Meets(f, lo, hi)
      {
        if AfterFile(lo, files[i]) || BeforeFile(hi, files[i]) {
        } else {
          assert files[i] in files;
          return true;
        }
      }
      assert files[..|files|] == files;
      return false;
    }
    var index := 0;
    if lo.Some? {
      index := FindFile(files, lo.value, MAX_SEQUENCE);
      forall i | 0 <= i < index ensures !Meets(files[i], lo, hi) {
        assert files[i].Largest() in files[i].entries;
      }
    }
    if index >= |files| {
      return false;
    }
    assert lo.Some? ==> files[index].Largest().key >= lo.value;
    assert files[index] in files;
    forall i | index < i < |files| && BeforeFile(hi, files[index]) ensures !Meets(files[i], lo, hi) {
      assert Before(files[index].Largest(), files[i].Smallest());
      EntriesLieInRange(files[index], files[index].Largest());
    }
    return !BeforeFile(hi, files[index]);
  }

  // ----- point lookups -----

  lemma NewestIsInFoundFile(fs: seq<File>, k: Key, s: nat, i: nat, j: nat, e: Entry)
    requires SortedLevel(fs) && i <= |fs|
    requires forall h | 0 <= h < i :: !AtOrAfter(fs[h].Largest(), k, s)
    requires i < |fs| ==> AtOrAfter(fs[i].Largest(), k, s)
    requires j < |fs| && e in fs[j].entries && Matches(e, k, s)
    ensures i < |fs| && Dominates(Of(fs[i].entries), k, s, e)
  {
    EntriesLieInRange(fs[j], e);
    assert i <= j;
    if i < j {
      EntriesLieInRange(fs[i], fs[i].Largest());
      assert Before(fs[i].Largest(), fs[j].Smallest());
      assert fs[i].Largest() in Of(fs[i].entries) && Matches(fs[i].Largest(), k, s);
    } else {
      assert e in Of(fs[i].entries);
    }
  }

  // A sorted level answers from the one file FindFile names.
  lemma LevelRead(fs: seq<File>, k: Key, s: nat, i: nat)
    requires SortedLevel(fs) && Unique(ContentsOf(fs))
    requires i <= |fs|
    requires forall j | 0 <= j < i :: !AtOrAfter(fs[j].Largest(), k, s)
    requires i < |fs| ==> AtOrAfter(fs[i].Largest(), k, s)
    ensures i == |fs| ==> forall e | e in ContentsOf(fs) :: !Matches(e, k, s)
    ensures i < |fs| ==>
      && (PointGet(fs[i].entries, k, s).Missing? <==> forall e | e in ContentsOf(fs) :: !Matches(e, k, s))
      && HitValue(PointGet(fs[i].entries, k, s)) == Read(ContentsOf(fs), k, s)
  {
    hide Read, PointGet, HitValue, SortedLevel, Before, AtOrAfter, Dominates;
    var c := ContentsOf(fs);
    forall e | e in c && Matches(e, k, s) ensures i < |fs| && Dominates(Of(fs[i].entries), k, s, e) {
      var f :| f in fs && e in f.entries;
      var j :| 0 <= j < |fs| && fs[j] == f;
      NewestIsInFoundFile(fs, k, s, i, j, e);
    }
    if i < |fs| {
      assert Of(fs[i].entries) <= c;
      DominatedRead(c, Of(fs[i].entries), k, s);
      TableIsSorted(fs[i]);
      PointGetReads(fs[i].entries, k, s);
    }
  }

  lemma TableIsSorted(f: File)
    ensures Sorted(f.entries)
  {
  }

  // Keeps the candidate files of level 0 ordered by falling file number.
  function InsertNewestFirst(fs: seq<File>, f: File): seq<File> {
    if fs == [] || f.number > fs[0].number then [f] + fs else [fs[0]] + InsertNewestFirst(fs[1..], f)
  }

  ghost predicate NewestFirst(fs: seq<File>) {
    forall i, j | 0 <= i < j < |fs| :: fs[i].number > fs[j].number
  }

  lemma {:induction false} InsertNewestFirstIsSorted(fs: seq<File>, f: File)
    requires NewestFirst(fs) && forall g | g in fs :: g.number != f.number
    ensures NewestFirst(InsertNewestFirst(fs, f))
    ensures forall g :: g in InsertNewestFirst(fs, f) <==> g == f || g in fs
  {
    hide Table.Valid;
    if fs != [] && !(f.number > fs[0].number) {
      InsertNewestFirstIsSorted(fs[1..], f);
      assert fs == [fs[0]] + fs[1..];
      assert forall g | g in InsertNewestFirst(fs[1..], f) :: fs[0].number > g.number;
    }
  }

  lemma ContentsSplit(fs: seq<File>)
    requires fs != []
    ensures ContentsOf(fs) == Of(fs[0].entries) + ContentsOf(fs[1..])
  {
    assert fs == [fs[0]] + fs[1..];
    assert forall f :: f in fs <==> f == fs[0] || f in fs[1..];
  }

  // Level 0: the files whose range covers k, newest first.
  method CandidatesNewestFirst(files: seq<File>, k: Key) returns (tmp: seq<File>)
    requires NumberedByAge(files)
    ensures NewestFirst(tmp)
    ensures forall f :: f in tmp <==> f in files && f.Covers(k)
  {
    tmp := [];
    for i := 0 to |files|
      invariant NewestFirst(tmp)
      invariant forall f :: f in tmp <==> f in files[..i] && f.Covers(k)
    {
      if files[i].Covers(k) {
        InsertNewestFirstIsSorted(tmp, files[i]);
        tmp := InsertNewestFirst(tmp, files[i]);
      }
      assert files[..i + 1] == files[..i] + [files[i]];
    }
    assert files[..|files|] == files;
  }

  ghost predicate FallingAge(fs: seq<File>) {
    forall i, j | 0 <= i < j < |fs| :: Newer(Of(fs[i].entries), Of(fs[j].entries))
  }

  lemma FirstIsNewer(fs: seq<File>)
    requires fs != [] && FallingAge(fs)
    ensures Newer(Of(fs[0].entries), ContentsOf(fs[1..])) && FallingAge(fs[1..])
  {
    forall x, y | x in Of(fs[0].entries) && y in ContentsOf(fs[1..]) && x.key == y.key ensures x.seqno > y.seqno {
      var f :| f in fs[1..] && y in f.entries;
      var j :| 1 <= j < |fs| && fs[j] == f;
      assert Newer(Of(fs[0].entries), Of(fs[j].entries));
      assert y in Of(fs[j].entries);
    }
  }

  // The first file that knows k holds its newest visible version.
  method SearchInOrder(tmp: seq<File>, k: Key, s: nat) returns (h: Hit)
    requires FallingAge(tmp) && Unique(ContentsOf(tmp))
    ensures h.Missing? <==> forall e | e in ContentsOf(tmp) :: !Matches(e, k, s)
    ensures HitValue(h) == Read(ContentsOf(tmp), k, s)
  {
    hide Newer, FallingAge, InFiles, Table.Valid;
    ghost var all := ContentsOf(tmp);
    h := Missing;
    var i := 0;
    while i < |tmp|
      invariant 0 <= i <= |tmp|
      invariant h.Missing?
      invariant FallingAge(tmp[i..]) && ContentsOf(tmp[i..]) <= all
      invariant forall e | e in all && Matches(e, k, s) :: e in ContentsOf(tmp[i..])
      invariant Read(all, k, s) == Read(ContentsOf(tmp[i..]), k, s)
    {
      ghost var here, rest := Of(tmp[i].entries), ContentsOf(tmp[i + 1..]);
      ContentsSplit(tmp[i..]);
      FirstIsNewer(tmp[i..]);
      assert tmp[i..][1..] == tmp[i + 1..];
      TableIsSorted(tmp[i]);
      PointGetReads(tmp[i].entries, k, s);
      ReadInOrder(here, rest, k, s);
      h := PointGet(tmp[i].entries, k, s);
      if h != Missing {
        return;
      }
      i := i + 1;
    }
    NoFilesNoContents(tmp[i..]);
    ReadAbsent(all, k, s);
  }

  lemma NoFilesNoContents(fs: seq<File>)
    requires fs == []
    ensures ContentsOf(fs) == iset{}
  {
  }

  lemma CandidatesFall(files: seq<File>, tmp: seq<File>)
    requires NumberedByAge(files) && NewestFirst(tmp) && forall f | f in tmp :: f in files
    ensures FallingAge(tmp)
  {
    hide Newer, Table.Valid;
    forall i, j | 0 <= i < j < |tmp| ensures Newer(Of(tmp[i].entries), Of(tmp[j].entries)) {
      assert tmp[i] in files && tmp[j] in files;
    }
  }

  lemma CandidatesSuffice(files: seq<File>, tmp: seq<File>, k: Key, s: nat)
    requires Unique(ContentsOf(files))
    requires forall f :: f in tmp <==> f in files && f.Covers(k)
    ensures Unique(ContentsOf(tmp))
    ensures Read(ContentsOf(files), k, s) == Read(ContentsOf(tmp), k, s)
    ensures (forall e | e in ContentsOf(files) :: !Matches(e, k, s)) <==> (forall e | e in ContentsOf(tmp) :: !Matches(e, k, s))
  {
    hide Read, Table.Valid, Table.Covers, Dominates;
    forall e | e in ContentsOf(files) && Matches(e, k, s) ensures Dominates(ContentsOf(tmp), k, s, e) {
      var f :| f in files && e in f.entries;
      EntriesLieInRange(f, e);
      DominatesItself(ContentsOf(tmp), k, s, e);
    }
    assert ContentsOf(tmp) <= ContentsOf(files);
    DominatedRead(ContentsOf(files), ContentsOf(tmp), k, s);
  }

  method GetFromLevel0(files: seq<File>, k: Key, s: nat) returns (h: Hit)
    requires NumberedByAge(files) && Unique(ContentsOf(files))
    ensures h.Missing? <==> forall e | e in ContentsOf(files) :: !Matches(e, k, s)
    ensures HitValue(h) == Read(ContentsOf(files), k, s)
  {
    var tmp := CandidatesNewestFirst(files, k);
    CandidatesFall(files, tmp);
    CandidatesSuffice(files, tmp, k, s);
    h := SearchInOrder(tmp, k, s);
  }

  lemma ContentsFromSplit(v: Levels, l: nat)
    requires l < |v|
    ensures ContentsFrom(v, l) == ContentsOf(v[l]) + ContentsFrom(v, l + 1)
  {
  }

  // Levels 1 and up: the one file that can hold the newest visible version.
  method GetFromSortedLevel(fs: seq<File>, k: Key, s: nat) returns (h: Hit)
    requires SortedLevel(fs) && Unique(ContentsOf(fs))
    ensures h.Missing? <==> forall e | e in ContentsOf(fs) :: !Matches(e, k, s)
    ensures HitValue(h) == Read(ContentsOf(fs), k, s)
  {
    h := Missing;
    var index := FindFile(fs, k, s);
    LevelRead(fs, k, s, index);
    if index >= |fs| {
      ReadAbsent(ContentsOf(fs), k, s);
    } else if k < fs[index].Smallest().key {
      // all of this file is past any data for k
      forall e | e in fs[index].entries ensures !Matches(e, k, s) {
        EntriesLieInRange(fs[index], e);
      }
      PointGetMisses(fs[index].entries, k, s);
    } else {
      h := PointGet(fs[index].entries, k, s);
    }
  }

  lemma PointGetMisses(es: seq<Entry>, k: Key, s: nat)
    requires forall e | e in es :: !Matches(e, k, s)
    ensures PointGet(es, k, s) == Missing
  {
    var i := SeekIndex(es, k, s);
    if i < |es| {
      assert es[i] in es;
    }
  }

  // Version::Get: the first level that knows the key answers, and that answer is the newest
  // visible version in the whole tree.
  method Get(v: Levels, k: Key, s: nat) returns (h: Hit)
    requires ValidVersion(v) && Unique(ContentsFrom(v, 0))
    ensures h.Missing? <==> forall e | e in ContentsFrom(v, 0) :: !Matches(e, k, s)
    ensures HitValue(h) == Read(ContentsFrom(v, 0), k, s)
  {
    hide Newer, NumberedByAge, InLevels, InFiles;
    ghost var all := ContentsFrom(v, 0);
    h := Missing;
    var level := 0;
    while level < NUM_LEVELS
      invariant 0 <= level <= NUM_LEVELS
      invariant h.Missing?
      invariant ContentsFrom(v, level) <= all
      invariant forall e | e in all && Matches(e, k, s) :: e in ContentsFrom(v, level)
      invariant Read(all, k, s) == Read(ContentsFrom(v, level), k, s)
    {
      ghost var here, rest := ContentsOf(v[level]), ContentsFrom(v, level + 1);
      ContentsFromSplit(v, level);
      LevelIsNewer(v, level);
      ReadInOrder(here, rest, k, s);
      if level == 0 {
        h := GetFromLevel0(v[0], k, s);
      } else {
        h := GetFromSortedLevel(v[level], k, s);
      }
      if h != Missing {
        return;
      }
      level := level + 1;
    }
    NothingBelow(v);
    ReadAbsent(all, k, s);
  }

  lemma NothingBelow(v: Levels)
    ensures ContentsFrom(v, |v|) == iset{}
  {
  }

  lemma LevelIsNewer(v: Levels, l: nat)
    requires ValidVersion(v) && l < |v|
    ensures Newer(ContentsOf(v[l]), ContentsFrom(v, l + 1))
  {
    forall x, y | x in ContentsOf(v[l]) && y in ContentsFrom(v, l + 1) && x.key == y.key ensures x.seqno > y.seqno {
      var m :| l + 1 <= m < |v| && InFiles(v[m], y);
      assert Newer(ContentsOf(v[l]), ContentsOf(v[m]));
      assert y in ContentsOf(v[m]);
    }
  }
}
