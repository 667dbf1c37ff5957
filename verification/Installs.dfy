/** Installing a new version: what the three edits of the engine do to a valid version. */
module Installs {
  import opened Options
  import opened InternalKeys
  import opened Versions
  import opened VersionEdits
  import opened CompactionInputs
  import opened CompactionReads

  // File numbers name files: no two places of a version share one.
  ghost predicate NumbersAreUnique(v: Levels) {
    forall l, m, f, g | 0 <= l < |v| && 0 <= m < |v| && f in v[l] && g in v[m] && f.number == g.number :: l == m && f == g
  }

  ghost predicate NumbersBelow(v: Levels, next: nat) {
    forall l, f | 0 <= l < |v| && f in v[l] :: f.number < next
  }

  // A version between edits.
  ghost predicate Settled(v: Levels, next: nat) {
    |v| == NUM_LEVELS && ValidVersion(v) && AllInOrder(v) && NumbersAreUnique(v) && NumbersBelow(v, next)
  }

  // The members of the next version, level by level.
  lemma AppliedMembers(v: Levels, e: Edit, l: nat)
    requires |v| == NUM_LEVELS && AllInOrder(v) && e.Valid() && AddsOnce(e) && l < NUM_LEVELS
    requires forall f: File, g: File | Adds(e, l, f) && g in v[l] :: f.number != g.number
    ensures InOrder(Applied(v, e)[l])
    ensures forall f: File :: f in Applied(v, e)[l] <==> Adds(e, l, f) || (f in v[l] && (l, f.number) !in e.deleted)
  {
    hide InOrder, Adds, ApplyEdit, SaveLevel;
    EmptyIsInOrder();
    var p := NothingPending();
    ApplyEditMembers(p, e, l);
    SaveLevelMembers(v[l], ApplyEdit(p, e).deleted[l], ApplyEdit(p, e).added[l]);
    forall f: File ensures f in Applied(v, e)[l] <==> Adds(e, l, f) || (f in v[l] && (l, f.number) !in e.deleted) {
      if Adds(e, l, f) {
        assert AddsNumber(e, l, f.number);
      } else if f in v[l] {
        assert !AddsNumber(e, l, f.number);
      }
    }
  }

  // The next version is the one with these members.
  lemma AppliedIs(v: Levels, e: Edit, v': Levels)
    requires |v| == |v'| == NUM_LEVELS && AllInOrder(v) && AllInOrder(v') && e.Valid() && AddsOnce(e)
    requires forall l: nat, f: File, g: File | l < NUM_LEVELS && Adds(e, l, f) && g in v[l] :: f.number != g.number
    requires forall l: nat, f: File | l < NUM_LEVELS :: f in v'[l] <==> Adds(e, l, f) || (f in v[l] && (l, f.number) !in e.deleted)
    ensures Applied(v, e) == v'
  {
    hide Adds, Applied, InOrder, Edit.Valid, AddsOnce;
    forall l: nat | l < NUM_LEVELS ensures Applied(v, e)[l] == v'[l] {
      AppliedMembers(v, e, l);
      InOrderIsCanonical(Applied(v, e)[l], v'[l]);
    }
  }

  ghost predicate Apart(f: File, g: File) {
    Before(f.Largest(), g.Smallest()) || Before(g.Largest(), f.Smallest())
  }

  lemma ApartInOrder(f: File, g: File)
    requires Apart(f, g) && FileBefore(f, g)
    ensures Before(f.Largest(), g.Smallest())
  {
    hide Sorted;
    EntriesLieInRange(f, f.Largest());
    EntriesLieInRange(g, g.Largest());
  }

  lemma OrderedApartIsSorted(fs: seq<File>)
    requires InOrder(fs)
    requires forall f, g | f in fs && g in fs && f != g :: Apart(f, g)
    ensures SortedLevel(fs)
  {
    hide Apart, Before;
    forall i, j | 0 <= i < j < |fs| ensures Before(fs[i].Largest(), fs[j].Smallest()) {
      OrderIsStrict(fs[i], fs[j]);
      ApartInOrder(fs[i], fs[j]);
    }
  }

  lemma OrderIsStrict(f: File, g: File)
    requires FileBefore(f, g)
    ensures f != g
  {
  }

  lemma SortedFilesAreApart(fs: seq<File>, f: File, g: File)
    requires SortedLevel(fs) && f in fs && g in fs && f != g
    ensures Apart(f, g)
  {
    hide Before;
  }

  // Files whose user-key ranges do not meet.
  lemma DisjointKeysAreApart(f: File, g: File)
    requires f.Largest().key < g.Smallest().key || g.Largest().key < f.Smallest().key
    ensures Apart(f, g)
  {
  }

  lemma {:induction false} LevelsFromMembers(v: Levels)
    requires |v| == NUM_LEVELS && AllInOrder(v)
    requires forall l, f, g | 1 <= l < NUM_LEVELS && f in v[l] && g in v[l] && f != g :: Apart(f, g)
    requires forall f, g | f in v[0] && g in v[0] && f != g :: f.number != g.number
    requires forall f, g | f in v[0] && g in v[0] && f.number > g.number :: Newer(Of(f.entries), Of(g.entries))
    requires forall l, m, x, y | 0 <= l < m < NUM_LEVELS && InFiles(v[l], x) && InFiles(v[m], y) && x.key == y.key ::
      x.seqno > y.seqno
    ensures ValidVersion(v)
  {
    hide Apart, FileBefore, InFiles;
    forall l | 1 <= l < NUM_LEVELS ensures SortedLevel(v[l]) {
      OrderedApartIsSorted(v[l]);
    }
    forall i, j | 0 <= i < j < |v[0]| ensures v[0][i].number != v[0][j].number {
      OrderIsStrict(v[0][i], v[0][j]);
    }
  }

  // ----- tables flushed while a compaction runs -----

  // A table of v that was not there in b.
  ghost predicate Flushed(b: Levels, v: Levels, l: nat, f: File) {
    l < |b| && l < |v| && f in v[l] && f !in b[l]
  }

  // `v` is the version `b` the compaction was set up on, with tables flushed since: each is newer than all
  // of b, and went to a place that was free.
  ghost predicate Overlaid(b: Levels, v: Levels) {
    && |b| == |v| == NUM_LEVELS
    && (forall l: nat, f: File {:trigger f in b[l]} | l < NUM_LEVELS && f in b[l] :: f in v[l])
    && forall l: nat, f: File | Flushed(b, v, l, f) :: FreePlace(b, l, f) && Newer(Of(f.entries), ContentsFrom(b, 0))
  }

  ghost predicate InFlushed(b: Levels, v: Levels, e: Entry) {
    exists l: nat, f: File | Flushed(b, v, l, f) :: e in f.entries
  }

  // What those tables hold.
  ghost function Since(b: Levels, v: Levels): Contents {
    iset e | InFlushed(b, v, e)
  }

  lemma OverlaidLength(b: Levels, v: Levels)
    requires Overlaid(b, v)
    ensures |b| == |v| == NUM_LEVELS
  {
    hide FreePlace, Newer;
  }

  lemma OverlaidItself(v: Levels)
    requires |v| == NUM_LEVELS
    ensures Overlaid(v, v) && Since(v, v) == iset{}
  {
    hide FreePlace, Newer, ContentsFrom;
  }

  lemma OverlaidContents(b: Levels, v: Levels)
    requires Overlaid(b, v)
    ensures ContentsFrom(v, 0) == Since(b, v) + ContentsFrom(b, 0)
  {
    hide FreePlace, Newer;
    forall e | e in ContentsFrom(v, 0) ensures e in Since(b, v) + ContentsFrom(b, 0) {
      var l: nat :| l < |v| && InFiles(v[l], e);
      var f :| f in v[l] && e in f.entries;
      if f in b[l] {
        assert InFiles(b[l], e);
      } else {
        assert Flushed(b, v, l, f);
      }
    }
    forall e | e in ContentsFrom(b, 0) ensures e in ContentsFrom(v, 0) {
      var l: nat :| l < |b| && InFiles(b[l], e);
      var f :| f in b[l] && e in f.entries;
      assert InFiles(v[l], e);
    }
    forall e | e in Since(b, v) ensures e in ContentsFrom(v, 0) {
      var l: nat, f: File :| Flushed(b, v, l, f) && e in f.entries;
      assert InFiles(v[l], e);
    }
  }

  // The inputs are in b, so none of those tables is taken.
  lemma OverlaidRest(b: Levels, v: Levels, j: Job)
    requires Overlaid(b, v) && j.level + 1 < NUM_LEVELS
    requires (forall f | f in j.inputs0 :: f in b[j.level]) && forall f | f in j.inputs1 :: f in b[j.level + 1]
    ensures Rest(v, j) == Since(b, v) + Rest(b, j)
  {
    hide FreePlace, Newer, ContentsFrom;
    forall e | e in Rest(v, j) ensures e in Since(b, v) + Rest(b, j) {
      var l: nat, f :| l < |v| && f in v[l] && !j.Takes(l, f) && e in f.entries;
      assert f in b[l] || Flushed(b, v, l, f);
    }
    forall e | e in Rest(b, j) ensures e in Rest(v, j) {
      var l: nat, f :| l < |b| && f in b[l] && !j.Takes(l, f) && e in f.entries;
      assert f in v[l];
    }
    forall e | e in Since(b, v) ensures e in Rest(v, j) {
      var l: nat, f: File :| Flushed(b, v, l, f) && e in f.entries;
      assert !j.Takes(l, f);
    }
  }

  // One more flush.
  lemma OverlaidMore(b: Levels, v: Levels, v': Levels, at: nat, f: File)
    requires Overlaid(b, v) && Extends(v, v', at, f) && FreePlace(v, at, f) && Newer(Of(f.entries), ContentsFrom(v, 0))
    ensures Overlaid(b, v')
  {
    hide AllInOrder, FreePlace, Newer, ContentsFrom;
    OverlaidContents(b, v);
    FreeBefore(b, v, at, f);
    NewerThanPart(Of(f.entries), Since(b, v), ContentsFrom(b, 0));
    forall l: nat, g: File | Flushed(b, v', l, g) ensures FreePlace(b, l, g) && Newer(Of(g.entries), ContentsFrom(b, 0)) {
      if g in v[l] {
        assert Flushed(b, v, l, g);
      }
    }
  }

  lemma NewerThanPart(a: Contents, other: Contents, part: Contents)
    requires Newer(a, other + part)
    ensures Newer(a, part)
  {
  }

  lemma FreeBefore(b: Levels, v: Levels, at: nat, f: File)
    requires Overlaid(b, v) && FreePlace(v, at, f)
    ensures FreePlace(b, at, f)
  {
    hide Newer, Meets, ContentsFrom;
    assert forall l: nat, g: File {:trigger g in b[l]} | l <= at && l < |b| && g in b[l] :: g in v[l];
  }

  // ----- replacing the inputs of a compaction by its outputs -----

  ghost predicate Replaces(v: Levels, v': Levels, j: Job, outputs: seq<File>) {
    && |v| == |v'| == NUM_LEVELS
    && AllInOrder(v')
    && forall l: nat, f: File {:trigger f in v'[l]} {:trigger f in v[l]} | l < NUM_LEVELS ::
         f in v'[l] <==> (f in v[l] && !j.Takes(l, f)) || (l == j.level + 1 && f in outputs)
  }

  lemma ReplacedMember(v: Levels, v': Levels, j: Job, outputs: seq<File>, l: nat, f: File)
    requires Replaces(v, v', j, outputs) && l < NUM_LEVELS && f in v'[l]
    ensures (f in v[l] && !j.Takes(l, f)) || (l == j.level + 1 && f in outputs)
  {
    hide AllInOrder;
  }

  ghost predicate Outputs(j: Job, outputs: seq<File>) {
    SortedLevel(outputs) && ContentsOf(outputs) <= Taken(j)
  }

  // A file left in the output level does not meet the hull of the upper inputs; one that is taken does.
  lemma BesideHull(v: Levels, j: Job, f: File)
    requires j.level + 1 < |v| && Selects(v, j.level, j.inputs0, j.inputs1) && f in v[j.level + 1]
    ensures f !in j.inputs1 ==> f.Largest().key < LowKey(j.inputs0) || HighKey(j.inputs0) < f.Smallest().key
    ensures f in j.inputs1 ==> LowKey(j.inputs0) <= f.Largest().key && f.Smallest().key <= HighKey(j.inputs0)
  {
    hide Distinct, LeavesNewer, LowKey, HighKey, Overlapping;
    OverlappingMembers(v[j.level + 1], Hull(j.inputs0));
  }

  // A file left in the output level lies wholly on one side of all inputs.
  lemma OutsideOutputs(mem: Contents, v: Levels, j: Job, f: File, e: Entry)
    requires Setting(mem, v, j) && j.level + 1 < |v|
    requires f in v[j.level + 1] && f !in j.inputs1 && e in Taken(j)
    ensures f.Largest().key < LowKey(j.inputs0) ==> Before(f.Largest(), e)
    ensures f.Largest().key >= LowKey(j.inputs0) ==> Before(e, f.Smallest())
  {
    hide Setting, Selects, SortedLevel, InFiles, LowKey, HighKey, Taken;
    SettingFacts(mem, v, j);
    SettingSelects(mem, v, j);
    BesideHull(v, j, f);
    var g := TakenFile(j, e);
    EntriesLieInRange(g, e);
    EntriesLieInRange(f, f.Largest());
    if g in j.inputs0 {
      HullReached(j.inputs0, g);
    } else {
      InputsAreInLevels(v, j);
      BesideHull(v, j, g);
      SortedFilesAreApart(v[j.level + 1], f, g);
      EntriesLieInRange(g, g.Largest());
    }
  }

  lemma OutputIsApart(mem: Contents, v: Levels, j: Job, outputs: seq<File>, f: File, g: File)
    requires Setting(mem, v, j) && j.level + 1 < |v| && Outputs(j, outputs)
    requires f in v[j.level + 1] && f !in j.inputs1 && g in outputs
    ensures Apart(f, g)
  {
    hide Setting, SortedLevel, Before;
    FileHolds(outputs, g, g.Smallest());
    FileHolds(outputs, g, g.Largest());
    OutsideOutputs(mem, v, j, f, g.Smallest());
    OutsideOutputs(mem, v, j, f, g.Largest());
  }

  // What an input of the compaction sits above, and below.
  lemma AroundTaken(mem: Contents, v: Levels, j: Job, e: Entry, l: nat, f: File, x: Entry)
    requires Setting(mem, v, j) && e in Taken(j)
    requires l < |v| && f in v[l] && !j.Takes(l, f) && x in f.entries && x.key == e.key
    ensures l <= j.level ==> x.seqno > e.seqno
    ensures l > j.level + 1 ==> x.seqno < e.seqno
  {
    hide Setting, ValidVersion, Selects;
    SettingFacts(mem, v, j);
    var tl, g := WhereTaken(mem, v, j, e);
    assert InFiles(v[l], x) && InFiles(v[tl], e);
    if l < tl {
      ShallowerIsNewer(v, l, tl, x, e);
    } else if tl < l {
      ShallowerIsNewer(v, tl, l, e, x);
    } else if l == j.level {
      BesideUpperInputs(v, j, e, x, g, l, f);
    }
  }

  // A table flushed since is newer than every input, and is not below the outputs when it shares a key.
  lemma FlushedAround(mem: Contents, b: Levels, v: Levels, j: Job, e: Entry, l: nat, f: File, x: Entry)
    requires Setting(mem, b, j) && Overlaid(b, v) && e in Taken(j)
    requires Flushed(b, v, l, f) && x in f.entries && x.key == e.key
    ensures l <= j.level + 1 && x.seqno > e.seqno
  {
    hide Setting, FreePlace, Taken, ContentsFrom;
    var tl, g := WhereTaken(mem, b, j, e);
    NewerThan(Of(f.entries), ContentsFrom(b, 0), x, e);
    EntriesLieInRange(f, x);
    EntriesLieInRange(g, e);
    if l > j.level + 1 {
      FreeSharesNoKey(b, l, f, tl, g);
    }
  }

  lemma NewerThan(a: Contents, b: Contents, x: Entry, y: Entry)
    requires Newer(a, b) && x in a && y in b && x.key == y.key
    ensures x.seqno > y.seqno
  {
  }

  lemma AroundTakenNow(mem: Contents, b: Levels, v: Levels, j: Job, e: Entry, l: nat, f: File, x: Entry)
    requires Setting(mem, b, j) && Overlaid(b, v) && e in Taken(j)
    requires l < |v| && f in v[l] && !j.Takes(l, f) && x in f.entries && x.key == e.key
    ensures l <= j.level ==> x.seqno > e.seqno
    ensures l > j.level + 1 ==> x.seqno < e.seqno
  {
    hide Setting, FreePlace, Taken, ContentsFrom, Newer;
    if f in b[l] {
      AroundTaken(mem, b, j, e, l, f, x);
    } else {
      FlushedAround(mem, b, v, j, e, l, f, x);
    }
  }

  lemma ReplacedLevelsAreNewer(mem: Contents, b: Levels, v: Levels, v': Levels, j: Job, outputs: seq<File>,
                               l: nat, m: nat, x: Entry, y: Entry)
    requires Setting(mem, b, j) && Overlaid(b, v) && ValidVersion(v) && Replaces(v, v', j, outputs) && Outputs(j, outputs)
    requires l < m < NUM_LEVELS && InFiles(v'[l], x) && InFiles(v'[m], y) && x.key == y.key
    ensures x.seqno > y.seqno
  {
    var f :| f in v'[l] && x in f.entries;
    var g :| g in v'[m] && y in g.entries;
    hide Setting, ValidVersion, SortedLevel, AllInOrder, Replaces, InFiles, Overlaid;
    ReplacedMember(v, v', j, outputs, l, f);
    ReplacedMember(v, v', j, outputs, m, g);
    OverlaidLength(b, v);
    if f in v[l] && !j.Takes(l, f) {
      if g in v[m] && !j.Takes(m, g) {
        assert InFiles(v[l], x) && InFiles(v[m], y) by {
          FileHolds(v[l], f, x);
          FileHolds(v[m], g, y);
        }
        ShallowerIsNewer(v, l, m, x, y);
      } else {
        FileHolds(outputs, g, y);
        AroundTakenNow(mem, b, v, j, y, l, f, x);
      }
    } else {
      FileHolds(outputs, f, x);
      AroundTakenNow(mem, b, v, j, x, m, g, y);
    }
  }

  // A table that was flushed into the level of the outputs, where an output now overlaps it.
  ghost predicate Collides(b: Levels, v: Levels, j: Job, outputs: seq<File>) {
    exists f, g | Flushed(b, v, j.level + 1, f) && g in outputs :: !Apart(f, g)
  }

  lemma OutputIsApartNow(mem: Contents, b: Levels, v: Levels, j: Job, outputs: seq<File>, f: File, g: File)
    requires Setting(mem, b, j) && Overlaid(b, v) && j.level + 1 < |v| && Outputs(j, outputs) && !Collides(b, v, j, outputs)
    requires f in v[j.level + 1] && f !in j.inputs1 && g in outputs
    ensures Apart(f, g)
  {
    hide Setting, SortedLevel, Apart, FreePlace, Newer;
    if f in b[j.level + 1] {
      OutputIsApart(mem, b, j, outputs, f, g);
    } else {
      assert Flushed(b, v, j.level + 1, f);
    }
  }

  lemma ReplacedFilesAreApart(mem: Contents, b: Levels, v: Levels, v': Levels, j: Job, outputs: seq<File>,
                              l: nat, f: File, g: File)
    requires Setting(mem, b, j) && Overlaid(b, v) && ValidVersion(v) && Replaces(v, v', j, outputs) && Outputs(j, outputs)
    requires !Collides(b, v, j, outputs)
    requires 1 <= l < NUM_LEVELS && f in v'[l] && g in v'[l] && f != g
    ensures Apart(f, g)
  {
    hide Setting, Overlaid, Collides, SortedLevel, Apart, Newer, NumberedByAge, Replaces;
    ReplacedMember(v, v', j, outputs, l, f);
    ReplacedMember(v, v', j, outputs, l, g);
    if f in v[l] && !j.Takes(l, f) {
      if g in v[l] && !j.Takes(l, g) {
        SortedFilesAreApart(v[l], f, g);
      } else {
        OutputIsApartNow(mem, b, v, j, outputs, f, g);
      }
    } else if g in v[l] && !j.Takes(l, g) {
      OutputIsApartNow(mem, b, v, j, outputs, g, f);
      ApartIsSymmetric(g, f);
    } else {
      SortedFilesAreApart(outputs, f, g);
    }
  }

  lemma ApartIsSymmetric(f: File, g: File)
    ensures Apart(f, g) == Apart(g, f)
  {
  }

  lemma ReplacedStaysValid(mem: Contents, b: Levels, v: Levels, v': Levels, j: Job, outputs: seq<File>)
    requires Setting(mem, b, j) && Overlaid(b, v) && ValidVersion(v) && Replaces(v, v', j, outputs) && Outputs(j, outputs)
    requires !Collides(b, v, j, outputs)
    ensures ValidVersion(v')
  {
    hide Setting, Overlaid, Collides, Outputs, Apart, InFiles, SortedLevel, ValidVersion;
    forall l, f, g | 1 <= l < NUM_LEVELS && f in v'[l] && g in v'[l] && f != g ensures Apart(f, g) {
      ReplacedFilesAreApart(mem, b, v, v', j, outputs, l, f, g);
    }
    forall l, m, x, y | 0 <= l < m < NUM_LEVELS && InFiles(v'[l], x) && InFiles(v'[m], y) && x.key == y.key
      ensures x.seqno > y.seqno
    {
      ReplacedLevelsAreNewer(mem, b, v, v', j, outputs, l, m, x, y);
    }
    ReplacedLevel0(v, v', j, outputs);
    LevelsFromMembers(v');
  }

  lemma CollisionIsSeen(b: Levels, v: Levels, v': Levels, j: Job, outputs: seq<File>)
    requires Replaces(v, v', j, outputs) && Collides(b, v, j, outputs) && j.level + 1 < NUM_LEVELS
    requires forall f | f in j.inputs1 :: j.level + 1 < |b| && f in b[j.level + 1]
    requires forall f | f in outputs :: f !in v[j.level + 1]
    ensures !ValidVersion(v')
  {
    hide AllInOrder, Newer, NumberedByAge, SortedLevel, Apart;
    var f, g :| Flushed(b, v, j.level + 1, f) && g in outputs && !Apart(f, g);
    assert f in v'[j.level + 1] && g in v'[j.level + 1] && f != g;
    if ValidVersion(v') {
      SortedFilesAreApart(v'[j.level + 1], f, g);
    }
  }

  // Between inputs without a gap no table can have been flushed, so nothing collides.
  lemma GaplessNeverCollides(mem: Contents, b: Levels, v: Levels, j: Job, outputs: seq<File>)
    requires Setting(mem, b, j) && Overlaid(b, v) && Outputs(j, outputs) && Gapless(j.inputs0 + j.inputs1)
    ensures !Collides(b, v, j, outputs)
  {
    hide Setting, Apart, Overlaid, Outputs, Gapless;
    forall f, g | Flushed(b, v, j.level + 1, f) && g in outputs ensures Apart(f, g) {
      GaplessIsApart(mem, b, v, j, outputs, f, g);
    }
  }

  lemma GaplessIsApart(mem: Contents, b: Levels, v: Levels, j: Job, outputs: seq<File>, f: File, g: File)
    requires Setting(mem, b, j) && Overlaid(b, v) && Outputs(j, outputs) && Gapless(j.inputs0 + j.inputs1)
    requires Flushed(b, v, j.level + 1, f) && g in outputs
    ensures Apart(f, g)
  {
    hide Setting, SortedLevel, Taken, LowKey, HighKey, Before;
    FileHolds(outputs, g, g.Smallest());
    FileHolds(outputs, g, g.Largest());
    var all := j.inputs0 + j.inputs1;
    var p := BesideInput(mem, b, v, j, f, g.Smallest());
    var q := BesideInput(mem, b, v, j, f, g.Largest());
    if p.Largest().key < f.Smallest().key && f.Largest().key < q.Smallest().key {
      HullReached(all, p);
      HullReached(all, q);
      EntriesLieInRange(f, f.Largest());
      EntriesLieInRange(p, p.Largest());
      EntriesLieInRange(q, q.Largest());
      assert CoveredBy(all, f.Smallest().key);
      var r :| r in all && r.Covers(f.Smallest().key);
      InputSharesNoKey(mem, b, v, j, f, r);
    } else {
      DisjointKeysAreApart(f, g);
    }
  }

  // Every input lies on one side of a table flushed into the level of the outputs.
  lemma InputSharesNoKey(mem: Contents, b: Levels, v: Levels, j: Job, f: File, r: File)
    requires Setting(mem, b, j) && Overlaid(b, v) && Flushed(b, v, j.level + 1, f) && (r in j.inputs0 || r in j.inputs1)
    ensures f.Largest().key < r.Smallest().key || r.Largest().key < f.Smallest().key
  {
    hide Setting, Selects, Newer, FreePlace;
    SettingSelects(mem, b, j);
    InputsAreInLevels(b, j);
    FreeSharesNoKey(b, j.level + 1, f, if r in j.inputs0 then j.level else j.level + 1, r);
  }

  lemma BesideInput(mem: Contents, b: Levels, v: Levels, j: Job, f: File, e: Entry) returns (p: File)
    requires Setting(mem, b, j) && Overlaid(b, v) && Flushed(b, v, j.level + 1, f) && e in Taken(j)
    ensures p in j.inputs0 + j.inputs1
    ensures (f.Largest().key < p.Smallest().key <= e.key) || (e.key <= p.Largest().key < f.Smallest().key)
  {
    hide Setting, Overlaid, Taken, Flushed;
    p := TakenFile(j, e);
    InputSharesNoKey(mem, b, v, j, f, p);
    EntriesLieInRange(p, e);
  }

  // The new version is valid exactly when no output meets a table that was flushed into its level while
  // the compaction ran.
  lemma ReplacedIsValid(mem: Contents, b: Levels, v: Levels, v': Levels, j: Job, outputs: seq<File>)
    requires Setting(mem, b, j) && Overlaid(b, v) && ValidVersion(v) && Replaces(v, v', j, outputs) && Outputs(j, outputs)
    requires forall f | f in outputs :: j.level + 1 < |v| && f !in v[j.level + 1]
    ensures ValidVersion(v') <==> !Collides(b, v, j, outputs)
  {
    hide Overlaid, Selects, Collides, ValidVersion, Replaces, Outputs;
    OverlaidLength(b, v);
    InputsAreInLevels(b, j);
    if Collides(b, v, j, outputs) {
      CollisionIsSeen(b, v, v', j, outputs);
    } else {
      ReplacedStaysValid(mem, b, v, v', j, outputs);
    }
  }

  lemma ReplacedLevel0(v: Levels, v': Levels, j: Job, outputs: seq<File>)
    requires ValidVersion(v) && Replaces(v, v', j, outputs)
    ensures forall f, g | f in v'[0] && g in v'[0] && f != g :: f.number != g.number
    ensures forall f, g | f in v'[0] && g in v'[0] && f.number > g.number :: Newer(Of(f.entries), Of(g.entries))
  {
    hide Newer, SortedLevel;
    forall f | f in v'[0] ensures f in v[0] {
      ReplacedMember(v, v', j, outputs, 0, f);
    }
  }

  lemma ReplacedContents(v: Levels, v': Levels, j: Job, outputs: seq<File>)
    requires Replaces(v, v', j, outputs) && j.level + 1 < NUM_LEVELS
    ensures ContentsFrom(v', 0) == Rest(v, j) + ContentsOf(outputs)
  {
    hide AllInOrder;
    forall e | e in ContentsFrom(v', 0) ensures e in Rest(v, j) + ContentsOf(outputs) {
      var l: nat :| l < |v'| && InFiles(v'[l], e);
      var f :| f in v'[l] && e in f.entries;
    }
    forall e | e in Rest(v, j) ensures e in ContentsFrom(v', 0) {
      var l: nat, f :| l < |v| && f in v[l] && !j.Takes(l, f) && e in f.entries;
      assert f in v'[l] && InFiles(v'[l], e);
    }
    forall e | e in ContentsOf(outputs) ensures e in ContentsFrom(v', 0) {
      var f :| f in outputs && e in f.entries;
      assert f in v'[j.level + 1] && InFiles(v'[j.level + 1], e);
    }
  }

  // ----- adding the table of a flushed memtable -----

  ghost predicate Extends(v: Levels, v': Levels, at: nat, f: File) {
    && |v| == |v'| == NUM_LEVELS
    && AllInOrder(v')
    && at < NUM_LEVELS
    && forall l: nat, g: File {:trigger g in v'[l]} {:trigger g in v[l]} | l < NUM_LEVELS ::
         g in v'[l] <==> g in v[l] || (l == at && g == f)
  }

  // Nothing at or above the target level holds any key of the new table, unless it goes to level 0.
  ghost predicate FreePlace(v: Levels, at: nat, f: File) {
    at == 0 || forall l: nat, g: File {:trigger g in v[l]} | l <= at && l < |v| && g in v[l] ::
      !Meets(g, Some(f.Smallest().key), Some(f.Largest().key))
  }

  lemma ExtendedMember(v: Levels, v': Levels, at: nat, f: File, l: nat, g: File)
    requires Extends(v, v', at, f) && l < NUM_LEVELS && g in v'[l]
    ensures g in v[l] || (l == at && g == f)
  {
    hide AllInOrder;
  }

  lemma FreeSharesNoKey(v: Levels, at: nat, f: File, l: nat, g: File)
    requires FreePlace(v, at, f) && 0 < at && l <= at && l < |v| && g in v[l]
    ensures f.Largest().key < g.Smallest().key || g.Largest().key < f.Smallest().key
  {
  }

  lemma ExtendedFilesAreApart(v: Levels, v': Levels, at: nat, f: File, l: nat, g: File, h: File)
    requires ValidVersion(v) && Extends(v, v', at, f) && FreePlace(v, at, f)
    requires 1 <= l < NUM_LEVELS && g in v'[l] && h in v'[l] && g != h
    ensures Apart(g, h)
  {
    hide Extends, FreePlace, SortedLevel, Newer, NumberedByAge;
    ExtendedMember(v, v', at, f, l, g);
    ExtendedMember(v, v', at, f, l, h);
    if g in v[l] && h in v[l] {
      SortedFilesAreApart(v[l], g, h);
    } else {
      FreeSharesNoKey(v, at, f, l, if g in v[l] then g else h);
      DisjointKeysAreApart(g, h);
    }
  }

  lemma ExtendedLevelsAreNewer(v: Levels, v': Levels, at: nat, f: File, l: nat, m: nat, x: Entry, y: Entry)
    requires ValidVersion(v) && Extends(v, v', at, f) && FreePlace(v, at, f)
    requires Newer(Of(f.entries), ContentsFrom(v, 0))
    requires l < m < NUM_LEVELS && InFiles(v'[l], x) && InFiles(v'[m], y) && x.key == y.key
    ensures x.seqno > y.seqno
  {
    var g :| g in v'[l] && x in g.entries;
    var h :| h in v'[m] && y in h.entries;
    hide ValidVersion, Extends, FreePlace, Table.Valid, InFiles;
    ExtendedMember(v, v', at, f, l, g);
    ExtendedMember(v, v', at, f, m, h);
    if h in v[m] {
      FileHolds(v[m], h, y);
      assert InFiles(v[m], y);
      if g in v[l] {
        FileHolds(v[l], g, x);
        ShallowerIsNewer(v, l, m, x, y);
      } else {
        assert x in Of(f.entries) && y in ContentsFrom(v, 0);
      }
    } else {
      EntriesLieInRange(g, x);
      EntriesLieInRange(h, y);
      FreeSharesNoKey(v, at, f, l, g);
    }
  }

  lemma ExtendedLevel0(v: Levels, v': Levels, at: nat, f: File)
    requires ValidVersion(v) && Extends(v, v', at, f)
    requires Newer(Of(f.entries), ContentsFrom(v, 0)) && NumbersBelow(v, f.number)
    ensures forall g, h | g in v'[0] && h in v'[0] && g != h :: g.number != h.number
    ensures forall g, h | g in v'[0] && h in v'[0] && g.number > h.number :: Newer(Of(g.entries), Of(h.entries))
  {
    hide SortedLevel, AllInOrder, Newer;
    forall g: File, h: File | g in v'[0] && h in v'[0] && g != h
      ensures g.number != h.number && (g.number > h.number ==> Newer(Of(g.entries), Of(h.entries)))
    {
      ExtendedMember(v, v', at, f, 0, g);
      ExtendedMember(v, v', at, f, 0, h);
      if g == f && h in v[0] {
        NewerThanFile(v, f, h);
      }
    }
  }

  lemma NewerThanFile(v: Levels, f: File, h: File)
    requires Newer(Of(f.entries), ContentsFrom(v, 0)) && |v| > 0 && h in v[0]
    ensures Newer(Of(f.entries), Of(h.entries))
  {
    forall y | y in h.entries ensures y in ContentsFrom(v, 0) {
      assert InFiles(v[0], y);
    }
  }

  lemma ExtendedIsValid(v: Levels, v': Levels, at: nat, f: File)
    requires ValidVersion(v) && Extends(v, v', at, f) && FreePlace(v, at, f)
    requires Newer(Of(f.entries), ContentsFrom(v, 0)) && NumbersBelow(v, f.number)
    ensures ValidVersion(v')
  {
    hide ValidVersion, FreePlace, Apart, InFiles, Newer, NumbersBelow;
    forall l, g, h | 1 <= l < NUM_LEVELS && g in v'[l] && h in v'[l] && g != h ensures Apart(g, h) {
      ExtendedFilesAreApart(v, v', at, f, l, g, h);
    }
    forall l, m, x, y | 0 <= l < m < NUM_LEVELS && InFiles(v'[l], x) && InFiles(v'[m], y) && x.key == y.key
      ensures x.seqno > y.seqno
    {
      ExtendedLevelsAreNewer(v, v', at, f, l, m, x, y);
    }
    ExtendedLevel0(v, v', at, f);
    LevelsFromMembers(v');
  }

  lemma ExtendedContents(v: Levels, v': Levels, at: nat, f: File)
    requires Extends(v, v', at, f)
    ensures ContentsFrom(v', 0) == Of(f.entries) + ContentsFrom(v, 0)
  {
    hide AllInOrder;
    forall e | e in ContentsFrom(v', 0) ensures e in Of(f.entries) + ContentsFrom(v, 0) {
      var l: nat :| l < |v'| && InFiles(v'[l], e);
      var g :| g in v'[l] && e in g.entries;
      if g in v[l] {
        assert InFiles(v[l], e);
      }
    }
    forall e | e in ContentsFrom(v, 0) ensures e in ContentsFrom(v', 0) {
      var l: nat :| l < |v| && InFiles(v[l], e);
      var g :| g in v[l] && e in g.entries;
      assert g in v'[l] && InFiles(v'[l], e);
    }
    forall e | e in f.entries ensures e in ContentsFrom(v', 0) {
      assert f in v'[at] && InFiles(v'[at], e);
    }
  }
}
