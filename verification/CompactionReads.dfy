/** What a compaction does to reads.

    Rewriting the inputs leaves every read at or above the floor unchanged, with one exception that
    comes from SetupOtherInputs: it looks for boundary files in the upper level only.  A deletion
    marker at the right edge of inputs_[1] can be dropped as obsolete while the next, unselected,
    file of the same level still holds older versions of its key. */
module CompactionReads {
  import opened InternalKeys
  import opened Versions
  import opened CompactionInputs
  import opened Compactions

  datatype Job = Job(level: nat, inputs0: seq<File>, inputs1: seq<File>) {
    predicate Takes(l: nat, f: File) {
      (l == level && f in inputs0) || (l == level + 1 && f in inputs1)
    }
  }

  ghost predicate InRest(v: Levels, j: Job, e: Entry) {
    exists l: nat, f | l < |v| && f in v[l] && !j.Takes(l, f) :: e in f.entries
  }

  // What the tree holds outside the inputs.
  ghost function Rest(v: Levels, j: Job): Contents {
    iset e | InRest(v, j, e)
  }

  ghost function Taken(j: Job): Contents {
    ContentsOf(j.inputs0 + j.inputs1)
  }

  // A store at the moment a compaction is set up: memtables above a valid version.
  ghost predicate Setting(mem: Contents, v: Levels, j: Job) {
    && ValidVersion(v)
    && Unique(mem + ContentsFrom(v, 0))
    && Newer(mem, ContentsFrom(v, 0))
    && j.level + 1 < NUM_LEVELS
    && Selects(v, j.level, j.inputs0, j.inputs1)
  }

  lemma InputsAreInLevels(v: Levels, j: Job)
    requires j.level + 1 < |v| && Selects(v, j.level, j.inputs0, j.inputs1)
    ensures forall f | f in j.inputs0 :: f in v[j.level]
    ensures forall f | f in j.inputs1 :: f in v[j.level + 1]
  {
    hide LeavesNewer;
    OverlappingMembers(v[j.level + 1], Hull(j.inputs0));
  }

  lemma SettingSelects(mem: Contents, v: Levels, j: Job)
    requires Setting(mem, v, j)
    ensures j.level + 1 < |v| && Selects(v, j.level, j.inputs0, j.inputs1)
  {
    hide Unique, Newer, Selects, SortedLevel, NumberedByAge;
  }

  lemma TakenFile(j: Job, e: Entry) returns (f: File)
    requires e in Taken(j)
    ensures (f in j.inputs0 || f in j.inputs1) && e in f.entries
  {
    f :| f in j.inputs0 + j.inputs1 && e in f.entries;
  }

  lemma InSomeLevel(v: Levels, l: nat, f: File, e: Entry)
    requires l < |v| && f in v[l] && e in f.entries
    ensures e in ContentsFrom(v, 0)
  {
    assert InFiles(v[l], e);
  }

  lemma WhereTaken(mem: Contents, v: Levels, j: Job, e: Entry) returns (l: nat, f: File)
    requires Setting(mem, v, j) && e in Taken(j)
    ensures l < |v| && f in v[l] && e in f.entries && j.Takes(l, f) && e in ContentsFrom(v, 0)
    ensures l == j.level || l == j.level + 1
  {
    hide Setting, Selects, Taken, ContentsFrom;
    SettingSelects(mem, v, j);
    InputsAreInLevels(v, j);
    f := TakenFile(j, e);
    l := if f in j.inputs0 then j.level else j.level + 1;
    InSomeLevel(v, l, f, e);
  }

  lemma TakenOrRest(mem: Contents, v: Levels, j: Job)
    requires Setting(mem, v, j)
    ensures ContentsFrom(v, 0) == Rest(v, j) + Taken(j)
  {
    hide Setting;
    forall e | e in ContentsFrom(v, 0) ensures e in Rest(v, j) + Taken(j) {
      var l :| 0 <= l < |v| && InFiles(v[l], e);
      var f :| f in v[l] && e in f.entries;
      if j.Takes(l, f) {
        assert f in j.inputs0 + j.inputs1;
      }
    }
    forall e | e in Taken(j) ensures e in ContentsFrom(v, 0) {
      var l, f := WhereTaken(mem, v, j, e);
    }
    forall e | e in Rest(v, j) ensures e in ContentsFrom(v, 0) {
      var l: nat, f :| l < |v| && f in v[l] && !j.Takes(l, f) && e in f.entries;
      assert InFiles(v[l], e);
    }
  }

  // `next` is the file of the output level right after the inputs, and it goes on with the user key
  // the inputs end with.
  ghost predicate Straddles(v: Levels, j: Job, i: nat, next: File) {
    && j.level + 1 < |v|
    && var fs := v[j.level + 1];
       && i + 1 < |fs| && next == fs[i + 1]
       && fs[i] in j.inputs1 && next !in j.inputs1
       && fs[i].Largest().key == next.Smallest().key
  }

  // The one way a compaction changes a read: the newest version every reader sees is a deletion
  // marker in inputs_[1], no deeper file covers its key, and the file after inputs_[1] goes on
  // with the key, with a value.
  ghost predicate Resurrects(mem: Contents, v: Levels, j: Job, floor: nat, i: nat, next: File, t: Entry) {
    && Straddles(v, j, i, next)
    && next.Smallest().key == t.key && next.Smallest().op.Put?
    && t.op.Deletion? && t in ContentsOf(j.inputs1)
    && Shows(mem + ContentsFrom(v, 0), t.key, floor, t)
    && IsBase(v, j.level, t.key)
  }

  lemma ShallowerIsNewer(v: Levels, l: nat, m: nat, x: Entry, y: Entry)
    requires ValidVersion(v) && l < m < |v|
    requires InFiles(v[l], x) && InFiles(v[m], y) && x.key == y.key
    ensures x.seqno > y.seqno
  {
    hide NumberedByAge, SortedLevel;
    assert x in ContentsOf(v[l]) && y in ContentsOf(v[m]);
  }

  // Against a file of the upper level that is taken, what stays in its own level is newer and what
  // stays in the output level shares no key.
  lemma BesideUpperInputs(v: Levels, j: Job, t: Entry, x: Entry, g: File, xl: nat, f: File)
    requires j.level + 1 < |v| && Selects(v, j.level, j.inputs0, j.inputs1)
    requires g in j.inputs0 && t in g.entries && x.key == t.key
    requires xl == j.level || xl == j.level + 1
    requires f in v[xl] && x in f.entries && !j.Takes(xl, f)
    ensures xl == j.level && x.seqno > t.seqno
  {
    EntriesLieInRange(f, x);
    EntriesLieInRange(g, t);
    HullIsTight(j.inputs0);
    OverlappingMembers(v[j.level + 1], Hull(j.inputs0));
    if xl == j.level + 1 {
      assert Hull(j.inputs0).Touches(f);
    } else {
      assert Newer(Of(f.entries), Of(g.entries));
      assert x in Of(f.entries) && t in Of(g.entries);
    }
  }

  // Below or beside the inputs: older versions can remain only in the output level.
  lemma OlderOnlyBeside(v: Levels, j: Job, t: Entry, x: Entry, tl: nat, g: File, xl: nat, f: File)
    requires j.level + 1 < |v| && ValidVersion(v) && Selects(v, j.level, j.inputs0, j.inputs1)
    requires IsBase(v, j.level, t.key)
    requires x.key == t.key && x.seqno <= t.seqno
    requires tl < |v| && g in v[tl] && t in g.entries && j.Takes(tl, g)
    requires xl < |v| && f in v[xl] && x in f.entries && !j.Takes(xl, f)
    ensures xl == tl == j.level + 1
  {
    hide ValidVersion, Selects;
    assert InFiles(v[xl], x) && InFiles(v[tl], t);
    EntriesLieInRange(f, x);
    if xl < tl {
      ShallowerIsNewer(v, xl, tl, x, t);
    } else if xl >= j.level + 2 {
    } else if tl == j.level {
      BesideUpperInputs(v, j, t, x, g, xl, f);
    }
  }

  lemma InputsAreRun(v: Levels, j: Job) returns (a: nat, b: nat)
    requires j.level + 1 < |v| && SortedLevel(v[j.level + 1])
    requires j.inputs0 != [] && j.inputs1 == Overlapping(v[j.level + 1], Hull(j.inputs0)) != []
    ensures IsRun(v[j.level + 1], j.inputs1, a, b)
  {
    hide SortedLevel;
    OverlappingIsRun(v[j.level + 1], Hull(j.inputs0));
    a, b :| IsRun(v[j.level + 1], j.inputs1, a, b);
  }

  // The only place is the file right after inputs_[1].
  lemma RightEdge(v: Levels, j: Job, t: Entry, x: Entry, g: File, f: File)
    returns (i: nat, next: File)
    requires j.level + 1 < |v| && SortedLevel(v[j.level + 1]) && Unique(ContentsOf(v[j.level + 1]))
    requires j.inputs0 != [] && j.inputs1 == Overlapping(v[j.level + 1], Hull(j.inputs0))
    requires x.key == t.key && x.seqno <= t.seqno
    requires g in v[j.level + 1] && g in j.inputs1 && t in g.entries
    requires f in v[j.level + 1] && f !in j.inputs1 && x in f.entries
    ensures Straddles(v, j, i, next) && next in v[j.level + 1] && next.Smallest().key == t.key
    ensures x.seqno <= next.Smallest().seqno < t.seqno
  {
    hide SortedLevel, Unique, Overlapping, Hull, IsRun;
    var fs := v[j.level + 1];
    var a, b := InputsAreRun(v, j);
    RunIsPart(fs, j.inputs1, a, b);
    var fi, gi := OutsideAndInside(fs, a, b, f, g);
    if fi < a {
      EarlierFileIsNewer(fs, fi, gi);
    }
    i := b - 1;
    next := fs[b];
    NextAfterRun(fs, b, fi, gi, x, t);
    assert fs[i] in fs[a..b];
    NextIsOutside(fs, a, b);
  }

  lemma SettingFacts(mem: Contents, v: Levels, j: Job)
    requires Setting(mem, v, j)
    ensures j.level + 1 < |v|
    ensures SortedLevel(v[j.level + 1]) && Unique(ContentsOf(v[j.level + 1]))
    ensures j.inputs0 != [] && j.inputs1 == Overlapping(v[j.level + 1], Hull(j.inputs0))
    ensures ValidVersion(v) && Selects(v, j.level, j.inputs0, j.inputs1)
  {
    hide NumberedByAge, Newer, LeavesNewer, SortedLevel;
    assert ContentsOf(v[j.level + 1]) <= ContentsFrom(v, 0);
  }

  // When no deeper level covers the key of a taken entry, every older version outside the inputs
  // lies at or after the file that carries the key past inputs_[1].
  lemma OlderRest(mem: Contents, v: Levels, j: Job, t: Entry, x: Entry)
    returns (i: nat, next: File)
    requires Setting(mem, v, j) && IsBase(v, j.level, t.key)
    requires t in Taken(j) && x in mem + Rest(v, j) && x.key == t.key && x.seqno <= t.seqno
    ensures t in ContentsOf(j.inputs1)
    ensures Straddles(v, j, i, next) && next.Smallest() in Rest(v, j) && next.Smallest().key == t.key
    ensures x.seqno <= next.Smallest().seqno < t.seqno
  {
    hide Setting, ValidVersion, Selects, IsBase, InFiles, SortedLevel, Straddles;
    SettingFacts(mem, v, j);
    var tl, g := WhereTaken(mem, v, j, t);
    OlderIsNotInMemory(mem, v, j, t, x);
    var xl: nat, f :| xl < |v| && f in v[xl] && !j.Takes(xl, f) && x in f.entries;
    OlderOnlyBeside(v, j, t, x, tl, g, xl, f);
    i, next := RightEdge(v, j, t, x, g, f);
    FileOutsideIsRest(v, j, i, next);
    FileHolds(j.inputs1, g, t);
  }

  lemma OlderIsNotInMemory(mem: Contents, v: Levels, j: Job, t: Entry, x: Entry)
    requires Setting(mem, v, j) && t in Taken(j)
    requires x.key == t.key && x.seqno <= t.seqno
    ensures x !in mem
  {
    hide ValidVersion, Selects;
    var tl, g := WhereTaken(mem, v, j, t);
  }

  lemma FileHolds(fs: seq<File>, f: File, e: Entry)
    requires f in fs && e in f.entries
    ensures e in ContentsOf(fs)
  {
  }

  lemma FileOutsideIsRest(v: Levels, j: Job, i: nat, f: File)
    requires Straddles(v, j, i, f)
    ensures f.Smallest() in Rest(v, j)
  {
    assert !j.Takes(j.level + 1, f) && f.Smallest() in f.entries;
  }

  lemma NextIsOutside(fs: seq<File>, a: nat, b: nat)
    requires SortedLevel(fs) && a < b < |fs|
    ensures fs[b] !in fs[a..b]
  {
    if fs[b] in fs[a..b] {
      var h :| a <= h < b && fs[h] == fs[b];
      EntriesLieInRange(fs[b], fs[b].Largest());
    }
  }

  lemma KeysAscend(fs: seq<File>, i: nat, j: nat)
    requires SortedLevel(fs) && i <= j < |fs|
    ensures fs[i].Smallest().key <= fs[i].Largest().key
    ensures i < j ==> fs[i].Largest().key <= fs[j].Smallest().key
  {
    EntriesLieInRange(fs[i], fs[i].Largest());
  }

  lemma NewerEntry(f: File, g: File, x: Entry, y: Entry)
    requires Newer(Of(f.entries), Of(g.entries)) && x in f.entries && y in g.entries && x.key == y.key
    ensures x.seqno > y.seqno
  {
    assert x in Of(f.entries) && y in Of(g.entries);
  }

  lemma SmallestIsNewest(f: File, x: Entry)
    requires x in f.entries && x.key == f.Smallest().key
    ensures x.seqno <= f.Smallest().seqno && f.Smallest() in f.entries
  {
    EntriesLieInRange(f, x);
  }

  lemma NextAfterRun(fs: seq<File>, b: nat, fi: nat, gi: nat, x: Entry, t: Entry)
    requires SortedLevel(fs) && Unique(ContentsOf(fs))
    requires gi < b <= fi < |fs| && x in fs[fi].entries && t in fs[gi].entries && x.key == t.key
    ensures fs[b - 1].Largest().key == t.key == fs[b].Smallest().key
    ensures x.seqno <= fs[b].Smallest().seqno < t.seqno
  {
    hide Unique, SortedLevel, Before, Newer;
    EntriesLieInRange(fs[fi], x);
    EntriesLieInRange(fs[gi], t);
    KeysAscend(fs, gi, b - 1);
    KeysAscend(fs, b - 1, b);
    KeysAscend(fs, b, fi);
    var first := fs[b].Smallest();
    assert first in fs[b].entries;
    EarlierFileIsNewer(fs, gi, b);
    NewerEntry(fs[gi], fs[b], t, first);
    if b < fi {
      EarlierFileIsNewer(fs, b, fi);
      NewerEntry(fs[b], fs[fi], first, x);
    } else {
      SmallestIsNewest(fs[b], x);
    }
  }

  // ----- the theorem -----

  ghost function Whole(mem: Contents, v: Levels): Contents {
    mem + ContentsFrom(v, 0)
  }

  // The store once the inputs es are replaced by what the compaction keeps of them.
  ghost function After(mem: Contents, v: Levels, j: Job, es: seq<Entry>, floor: nat): Contents {
    mem + Rest(v, j) + Of(Kept(v, j.level, es, |es|, floor))
  }

  ghost predicate IsInput(j: Job, es: seq<Entry>) {
    Sorted(es) && Of(es) == Taken(j)
  }

  lemma KeptOrDropped(v: Levels, level: nat, es: seq<Entry>, floor: nat, i: nat)
    requires Sorted(es) && i < |es|
    ensures es[i] in Kept(v, level, es, |es|, floor) <==> !Dropped(v, level, es, i, floor)
  {
    KeptEntries(v, level, es, |es|, floor);
    if es[i] in Kept(v, level, es, |es|, floor) {
      var h :| 0 <= h < |es| && es[h] == es[i] && !Dropped(v, level, es, h, floor);
      SortedPair(es, i, h);
    }
  }

  // Rule (A) reaches every version older than one at or below the floor.
  lemma OlderIsHidden(es: seq<Entry>, floor: nat, i: nat, h: nat)
    requires Sorted(es) && Unique(Of(es)) && i < |es| && h < |es|
    requires es[i].key == es[h].key && es[h].seqno < es[i].seqno <= floor
    ensures Hidden(es, h, floor)
  {
    SortedPair(es, i, h);
    if i < h - 1 {
      SortedPair(es, i, h - 1);
      SortedPair(es, h - 1, h);
    }
  }

  lemma AfterIsPart(mem: Contents, v: Levels, j: Job, es: seq<Entry>, floor: nat)
    requires Setting(mem, v, j) && IsInput(j, es)
    ensures After(mem, v, j, es, floor) <= Whole(mem, v)
    ensures Unique(Whole(mem, v)) && Unique(After(mem, v, j, es, floor)) && Unique(Of(es))
  {
    hide ValidVersion, Selects, Newer;
    TakenOrRest(mem, v, j);
    KeptEntries(v, j.level, es, |es|, floor);
    forall e | e in Kept(v, j.level, es, |es|, floor) ensures e in Of(es) {
    }
  }

  // A dropped entry that was the answer of a read was a deletion marker for every reader.
  lemma DroppedAnswerIsObsolete(mem: Contents, v: Levels, j: Job, es: seq<Entry>, floor: nat, k: Key, s: nat, top: Entry)
    requires Setting(mem, v, j) && IsInput(j, es) && floor <= s
    requires Shows(Whole(mem, v), k, s, top) && top !in After(mem, v, j, es, floor)
    ensures top in Taken(j) && Obsolete(v, j.level, top, floor)
    ensures Shows(Whole(mem, v), k, floor, top)
  {
    hide Setting, IsBase;
    AfterIsPart(mem, v, j, es, floor);
    TakenOrRest(mem, v, j);
    assert top in Of(es);
    var i: nat :| i < |es| && es[i] == top;
    KeptOrDropped(v, j.level, es, floor, i);
    if Hidden(es, i, floor) {
      HiddenByNewer(es, floor, i);
    }
  }

  lemma HiddenByNewer(es: seq<Entry>, floor: nat, i: nat)
    requires Sorted(es) && Unique(Of(es)) && i < |es| && Hidden(es, i, floor)
    ensures es[i - 1] in Of(es) && es[i - 1].key == es[i].key && es[i].seqno < es[i - 1].seqno <= floor
  {
    SortedPair(es, i - 1, i);
    assert es[i] in Of(es);
  }

  // What still shows behind a dropped answer is the first entry of the next file.
  lemma BehindObsolete(mem: Contents, v: Levels, j: Job, es: seq<Entry>, floor: nat, s: nat, t: Entry, x: Entry)
    returns (i: nat, next: File)
    requires Setting(mem, v, j) && IsInput(j, es) && floor <= s
    requires t in Taken(j) && Obsolete(v, j.level, t, floor) && Shows(Whole(mem, v), t.key, s, t)
    requires Shows(After(mem, v, j, es, floor), t.key, s, x)
    ensures t in ContentsOf(j.inputs1)
    ensures Straddles(v, j, i, next) && x == next.Smallest()
  {
    hide Setting, IsBase, Straddles;
    AfterIsPart(mem, v, j, es, floor);
    assert t in Of(es);
    var ti: nat :| ti < |es| && es[ti] == t;
    KeptOrDropped(v, j.level, es, floor, ti);
    var kept := Kept(v, j.level, es, |es|, floor);
    if x in kept {
      KeptEntries(v, j.level, es, |es|, floor);
      var xi: nat :| xi < |es| && es[xi] == x && !Dropped(v, j.level, es, xi, floor);
      assert x in Of(es) && x != t;
      OlderIsHidden(es, floor, ti, xi);
    }
    i, next := OlderRest(mem, v, j, t, x);
    assert next.Smallest() in After(mem, v, j, es, floor);
  }

  lemma ReadSurvives(mem: Contents, v: Levels, j: Job, es: seq<Entry>, floor: nat, k: Key, s: nat)
    requires Setting(mem, v, j) && IsInput(j, es) && floor <= s
    requires forall i, next, t :: !Resurrects(mem, v, j, floor, i, next, t)
    ensures Read(After(mem, v, j, es, floor), k, s) == Read(Whole(mem, v), k, s)
  {
    hide Setting, Obsolete, Read, After, Straddles;
    var before, after := Whole(mem, v), After(mem, v, j, es, floor);
    AfterIsPart(mem, v, j, es, floor);
    if e :| e in before && Matches(e, k, s) {
      var top := SomethingShows(before, k, s, e);
      ReadShown(before, k, s, top);
      if top in after {
        ReadShown(after, k, s, top);
      } else {
        DroppedAnswerIsObsolete(mem, v, j, es, floor, k, s, top);
        if y :| y in after && Matches(y, k, s) {
          var x := SomethingShows(after, k, s, y);
          var i, next := BehindObsolete(mem, v, j, es, floor, s, top, x);
          assert !Resurrects(mem, v, j, floor, i, next, top);
          ObsoleteMeans(v, j.level, top, floor);
          ReadShown(after, k, s, x);
        } else {
          ObsoleteMeans(v, j.level, top, floor);
          ReadAbsent(after, k, s);
        }
      }
    } else {
      ReadAbsent(before, k, s);
      ReadAbsent(after, k, s);
    }
  }

  lemma ObsoleteMeans(v: Levels, level: nat, t: Entry, floor: nat)
    ensures Obsolete(v, level, t, floor) <==> t.op.Deletion? && t.seqno <= floor && IsBase(v, level, t.key)
  {
  }

  // Only the end of a stretch has a member followed by a non-member.
  lemma OneRunEnd(fs: seq<File>, a: nat, b: nat, h: nat)
    requires SortedLevel(fs) && a < b <= |fs| && h + 1 < |fs|
    requires fs[h] in fs[a..b] && fs[h + 1] !in fs[a..b]
    ensures h + 1 == b
  {
    hide SortedLevel;
    SortedIsDistinct(fs);
    var p :| a <= p < b && fs[p] == fs[h];
    assert p == h;
  }

  lemma InputsEndAt(v: Levels, j: Job, a: nat, b: nat, i: nat, next: File)
    requires Straddles(v, j, i, next) && SortedLevel(v[j.level + 1])
    requires IsRun(v[j.level + 1], j.inputs1, a, b)
    ensures i + 1 == b < |v[j.level + 1]| && next == v[j.level + 1][b]
  {
    OneRunEnd(v[j.level + 1], a, b, i);
  }

  lemma StraddleIsUnique(v: Levels, j: Job, i: nat, next: File, h: nat, other: File)
    requires Straddles(v, j, i, next) && Straddles(v, j, h, other)
    requires SortedLevel(v[j.level + 1])
    requires j.inputs0 != [] && j.inputs1 == Overlapping(v[j.level + 1], Hull(j.inputs0))
    ensures next == other
  {
    hide SortedLevel;
    var a, b := InputsAreRun(v, j);
    InputsEndAt(v, j, a, b, i, next);
    InputsEndAt(v, j, a, b, h, other);
  }

  lemma StraddleIsOlder(v: Levels, j: Job, i: nat, next: File, t: Entry)
    requires Straddles(v, j, i, next) && t in ContentsOf(j.inputs1)
    requires SortedLevel(v[j.level + 1]) && Unique(ContentsOf(v[j.level + 1]))
    requires j.inputs0 != [] && j.inputs1 == Overlapping(v[j.level + 1], Hull(j.inputs0))
    requires next.Smallest().key == t.key
    ensures next.Smallest().seqno < t.seqno
  {
    hide SortedLevel, Unique;
    var fs := v[j.level + 1];
    var a, b := InputsAreRun(v, j);
    InputsEndAt(v, j, a, b, i, next);
    var g :| g in j.inputs1 && t in g.entries;
    var q: nat :| a <= q < b && fs[q] == g;
    EarlierFileIsNewer(fs, q, b);
    assert t in Of(fs[q].entries) && next.Smallest() in Of(fs[b].entries);
  }

  lemma ResurrectionIsSeen(mem: Contents, v: Levels, j: Job, es: seq<Entry>, floor: nat, i: nat, next: File, t: Entry)
    requires Setting(mem, v, j) && IsInput(j, es)
    requires Resurrects(mem, v, j, floor, i, next, t)
    ensures Read(After(mem, v, j, es, floor), t.key, floor) != Read(Whole(mem, v), t.key, floor)
  {
    hide Setting, IsBase, Read, Straddles, InFiles, SortedLevel, Unique, ValidVersion, Selects, InRest;
    var before, after := Whole(mem, v), After(mem, v, j, es, floor);
    AfterIsPart(mem, v, j, es, floor);
    ReadShown(before, t.key, floor, t);
    SettingFacts(mem, v, j);
    StraddleIsOlder(v, j, i, next, t);
    FileOutsideIsRest(v, j, i, next);
    UpperIsTaken(j, t);
    var x := SomethingShows(after, t.key, floor, next.Smallest());
    var h, next' := BehindObsolete(mem, v, j, es, floor, floor, t, x);
    StraddleIsUnique(v, j, i, next, h, next');
    ReadShown(after, t.key, floor, x);
  }

  lemma UpperIsTaken(j: Job, t: Entry)
    requires t in ContentsOf(j.inputs1)
    ensures t in Taken(j)
  {
    var f :| f in j.inputs1 && t in f.entries;
    assert f in j.inputs0 + j.inputs1;
  }

  // Compaction preserves every read at or above the floor, unless a deletion marker is dropped from
  // the edge of inputs_[1] -- and then it does not.
  lemma CompactionKeepsReads(mem: Contents, v: Levels, j: Job, es: seq<Entry>, floor: nat)
    requires Setting(mem, v, j) && IsInput(j, es)
    ensures (forall k, s | floor <= s :: Read(After(mem, v, j, es, floor), k, s) == Read(Whole(mem, v), k, s))
            <==> (forall i, next, t :: !Resurrects(mem, v, j, floor, i, next, t))
  {
    hide Setting, IsInput, Read, After, Whole, Resurrects;
    if forall i, next, t :: !Resurrects(mem, v, j, floor, i, next, t) {
      forall k, s: nat | floor <= s ensures Read(After(mem, v, j, es, floor), k, s) == Read(Whole(mem, v), k, s) {
        ReadSurvives(mem, v, j, es, floor, k, s);
      }
    } else {
      var i: nat, next, t :| Resurrects(mem, v, j, floor, i, next, t);
      ResurrectionIsSeen(mem, v, j, es, floor, i, next, t);
    }
  }

  // ----- the merging iterator yields the inputs in order -----

  lemma NewerHasNoTies(f: File, g: File)
    requires Newer(Of(f.entries), Of(g.entries)) || Newer(Of(g.entries), Of(f.entries))
    ensures NoTies(f.entries, g.entries)
  {
    forall x, y | x in f.entries && y in g.entries && x.key == y.key ensures x.seqno != y.seqno {
      assert x in Of(f.entries) && y in Of(g.entries);
    }
  }

  lemma SameLevelHasNoTies(v: Levels, l: nat, f: File, g: File)
    requires ValidVersion(v) && l < |v| && Unique(ContentsOf(v[l]))
    requires f in v[l] && g in v[l] && f != g
    ensures NoTies(f.entries, g.entries)
  {
    hide Newer, Unique, SortedLevel, NoTies;
    var p: nat, q: nat :| p < |v[l]| && q < |v[l]| && v[l][p] == f && v[l][q] == g;
    if l > 0 && p < q {
      EarlierFileIsNewer(v[l], p, q);
    } else if l > 0 {
      EarlierFileIsNewer(v[l], q, p);
    }
    NewerHasNoTies(f, g);
  }

  lemma LevelsHaveNoTies(v: Levels, l: nat, f: File, g: File)
    requires ValidVersion(v) && l + 1 < |v| && f in v[l] && g in v[l + 1]
    ensures NoTies(f.entries, g.entries)
  {
    hide ValidVersion;
    forall x, y | x in f.entries && y in g.entries && x.key == y.key ensures x.seqno != y.seqno {
      ShallowerIsNewer(v, l, l + 1, x, y);
    }
  }

  lemma InputsDiffer(mem: Contents, v: Levels, j: Job)
    requires Setting(mem, v, j)
    ensures AllDiffer(j.inputs0 + j.inputs1)
  {
    hide Setting, Selects, Distinct, ValidVersion, NoTies, SortedLevel, Unique, Overlapping, Hull;
    SettingSelects(mem, v, j);
    SettingFacts(mem, v, j);
    SettingIsValid(mem, v, j);
    LevelIsUnique(mem, v, j);
    InputsAreInLevels(v, j);
    InputsAreDistinct(v, j);
    var fs, n := j.inputs0 + j.inputs1, |j.inputs0|;
    forall p, q | 0 <= p < q < |fs| ensures NoTies(fs[p].entries, fs[q].entries) {
      if q < n {
        DistinctAt(j.inputs0, p, q);
        SameLevelHasNoTies(v, j.level, j.inputs0[p], j.inputs0[q]);
      } else if p < n {
        assert j.inputs0[p] in j.inputs0 && j.inputs1[q - n] in j.inputs1;
        LevelsHaveNoTies(v, j.level, j.inputs0[p], j.inputs1[q - n]);
      } else {
        assert j.inputs1[p - n] in j.inputs1 && j.inputs1[q - n] in j.inputs1;
        DistinctAt(j.inputs1, p - n, q - n);
        SameLevelHasNoTies(v, j.level + 1, j.inputs1[p - n], j.inputs1[q - n]);
      }
    }
  }

  lemma SettingIsValid(mem: Contents, v: Levels, j: Job)
    requires Setting(mem, v, j)
    ensures ValidVersion(v)
  {
    hide ValidVersion, Selects, Unique, Newer;
  }

  lemma InputsAreDistinct(v: Levels, j: Job)
    requires j.level + 1 < |v| && Selects(v, j.level, j.inputs0, j.inputs1) && SortedLevel(v[j.level + 1])
    ensures Distinct(j.inputs0) && Distinct(j.inputs1)
  {
    hide Distinct, LeavesNewer, SortedLevel, Overlapping;
    SortedIsDistinct(v[j.level + 1]);
    OverlappingIsDistinct(v[j.level + 1], Hull(j.inputs0));
  }

  lemma DistinctAt(fs: seq<File>, p: nat, q: nat)
    requires Distinct(fs) && p < q < |fs|
    ensures fs[p] != fs[q]
  {
  }

  lemma LevelIsUnique(mem: Contents, v: Levels, j: Job)
    requires Setting(mem, v, j)
    ensures Unique(ContentsOf(v[j.level]))
  {
    hide Selects, Newer, SortedLevel, NumberedByAge;
    assert ContentsOf(v[j.level]) <= ContentsFrom(v, 0);
  }

  lemma MergedInputs(mem: Contents, v: Levels, j: Job)
    requires Setting(mem, v, j)
    ensures IsInput(j, MergeFiles(j.inputs0 + j.inputs1))
  {
    hide Setting, AllDiffer, InFiles, Sorted;
    InputsDiffer(mem, v, j);
    MergeFilesIsSorted(j.inputs0 + j.inputs1);
  }
}
