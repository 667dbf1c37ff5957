/** Concrete runs of the engine: what a step needs when all the data is known. */
module Stories {
  import opened Options
  import opened InternalKeys
  import opened Versions
  import opened VersionEdits
  import opened CompactionInputs
  import opened Compactions
  import opened CompactionReads
  import opened Installs
  import opened Engine
  import opened EngineRuns

  // A version with files in levels 1 and 2.
  function Two(upper: seq<File>, lower: seq<File>): (v: Levels)
    ensures |v| == NUM_LEVELS && v[1] == upper && v[2] == lower
    ensures forall l | 0 <= l < NUM_LEVELS && l != 1 && l != 2 :: v[l] == []
  {
    [[], upper, lower, [], [], [], []]
  }

  // The size of a table, in these runs.
  function CountEntries(es: seq<Entry>): nat {
    |es|
  }

  // What the engine leaves open is done as the code does it: tables are flushed where they are picked to
  // go, compactions take what a picked file or a range of keys leads to, and outputs are cut where they have to be.
  ghost predicate AsTheCodeDoes(s: State, a: Action, maxFileSize: nat) {
    match a
    case Flush(at, size) => s.imm.Some? && size == |s.imm.value| && GoesWherePicked(s, at, size, maxFileSize)
    case StartCompaction(j) =>
      && j.level + 1 < |s.v|
      && ((ComesFromPick(s.v, j, maxFileSize) && !IsMove(s.v, j, maxFileSize)) || ComesFromRange(s.v, j, maxFileSize))
    case Move(j) => j.level + 1 < |s.v| && ComesFromPick(s.v, j, maxFileSize) && IsMove(s.v, j, maxFileSize)
    case FinishCompaction(outputs) => s.running.Some? && WorkOf(s, maxFileSize, CountEntries).CutsAreRight(outputs)
    case _ => true
  }

  ghost predicate ComesFromPick(v: Levels, j: Job, maxFileSize: nat)
    requires j.level + 1 < |v|
  {
    exists f, seed ::
      f in v[j.level] && IsPickedSeed(v, j.level, f, seed) && IsSetUp(v, j.level, seed, maxFileSize, j.inputs0, j.inputs1)
  }

  ghost predicate ComesFromRange(v: Levels, j: Job, maxFileSize: nat)
    requires j.level + 1 < |v|
  {
    exists asked, seed ::
      seed != [] && IsRangeSeed(v, j.level, asked, maxFileSize, seed)
      && IsSetUp(v, j.level, seed, maxFileSize, j.inputs0, j.inputs1)
  }

  predicate IsMove(v: Levels, j: Job, maxFileSize: nat) {
    |j.inputs0| == 1 && j.inputs1 == [] && TotalFileSize(GrandparentsOf(v, j)) <= 10 * maxFileSize
  }

  ghost predicate CutBySize(outputs: seq<File>, maxFileSize: nat) {
    forall i | 0 <= i < |outputs| ::
      outputs[i].size == |outputs[i].entries| <= maxFileSize && (i < |outputs| - 1 ==> outputs[i].size == maxFileSize)
  }

  // ----- steps -----

  lemma WriteNext(s: State, ops: seq<(Key, Op)>, es: seq<Entry>, mem: seq<Entry>, hist: seq<Entry>, s': State)
    requires s.mem == [] && s.lastSequence + |ops| < MAX_SEQUENCE
    requires es == Stamp(s.lastSequence, ops) && mem == InsertAll([], es) && hist == s.hist + es
    requires s' == s.(mem := mem, hist := hist, lastSequence := s.lastSequence + |ops|)
    ensures Next(s, Write(ops), s')
  {
    hide Stamp, InsertAll;
  }

  lemma OneInserted(last: nat, k: Key, op: Op)
    ensures Stamp(last, [(k, op)]) == [Entry(k, last + 1, op)]
    ensures InsertAll([], [Entry(k, last + 1, op)]) == [Entry(k, last + 1, op)]
  {
    var es := [Entry(k, last + 1, op)];
    assert es[..0] == [];
    assert InsertAll([], es) == Insert(InsertAll([], []), es[0]);
  }

  lemma WriteOne(s: State, k: Key, op: Op, e: Entry, hist: seq<Entry>, s': State)
    requires s.mem == [] && s.lastSequence + 1 < MAX_SEQUENCE
    requires e == Entry(k, s.lastSequence + 1, op) && hist == s.hist + [e]
    requires s' == s.(mem := [e], hist := hist, lastSequence := s.lastSequence + 1)
    ensures Next(s, Write([(k, op)]), s')
  {
    hide Stamp, InsertAll;
    OneInserted(s.lastSequence, k, op);
    WriteNext(s, [(k, op)], [e], [e], hist, s');
  }

  lemma FlushTo(s: State, at: nat, f: File, s': State)
    requires s.imm == Some(f.entries) && f == Table(s.nextFile, |f.entries|, f.entries)
    requires at < NUM_LEVELS == |s.v| && FreePlace(s.v, at, f)
    requires FlushEdit(at, f).Valid() && Applied(s.v, FlushEdit(at, f)) == s'.v
    requires s' == s.(imm := None, nextFile := s.nextFile + 1, v := s'.v, edits := s.edits + [FlushEdit(at, f)])
    ensures Next(s, Flush(at, |f.entries|), s')
  {
    hide FreePlace, Applied, Edit.Valid;
  }

  lemma PickedTo(s: State, at: nat, f: File, maxFileSize: nat)
    requires s.imm == Some(f.entries) && f == Table(s.nextFile, |f.entries|, f.entries)
    requires IsPicked(s.v, f, maxFileSize, at)
    ensures AsTheCodeDoes(s, Flush(at, |f.entries|), maxFileSize)
  {
    hide IsPicked;
  }

  // ----- compactions -----

  lemma {:induction false} AllOverlap(fs: seq<File>, r: Range)
    requires forall f | f in fs :: r.Touches(f)
    ensures Overlapping(fs, r) == fs
  {
    hide Range.Touches;
    if fs != [] {
      var n := |fs| - 1;
      assert fs == fs[..n] + [fs[n]];
      AllOverlap(fs[..n], r);
    }
  }

  // Nothing in a level carries on all of it.
  lemma WholeIsComplete(fs: seq<File>)
    ensures Completes(fs, fs, fs)
  {
    forall f | f in fs ensures !CarriesOn(fs, fs, f) {
      EntriesLieInRange(f, f.Largest());
    }
  }

  // A compaction that starts with the whole of level 1 takes just that and what it meets below.
  lemma WholeLevelIsSetUp(upper: seq<File>, lower: seq<File>, maxFileSize: nat)
    requires upper != [] && Overlapping(lower, Hull(upper)) != []
    ensures IsSetUp(Two(upper, lower), 1, upper, maxFileSize, upper, Overlapping(lower, Hull(upper)))
  {
    hide Overlapping, Hull, LowKey, HighKey, Completes, TotalFileSize;
    var v, b := Two(upper, lower), Overlapping(lower, Hull(upper));
    var reach := Hull(upper + b);
    WholeIsComplete(upper);
    forall f | f in upper ensures reach.Touches(f) {
      assert f in upper + b;
      HullReached(upper + b, f);
    }
    HullIs(upper + b);
    AllOverlap(upper, reach);
    assert SetsUp(v, 1, upper, maxFileSize, upper, reach, upper, upper, b);
  }

  lemma HullIs(fs: seq<File>)
    requires fs != []
    ensures Hull(fs) == Range(Some(LowKey(fs)), Some(HighKey(fs)))
  {
  }

  // A compaction of the one file of level 1 and what it meets below.
  lemma OnePicked(s: State, f: File, lower: seq<File>, below: seq<File>, maxFileSize: nat)
    requires s.v == Two([f], lower) && below == Overlapping(lower, Hull([f])) != []
    ensures AsTheCodeDoes(s, StartCompaction(Job(1, [f], below)), maxFileSize)
  {
    hide IsSetUp, Overlapping, Hull, TotalFileSize;
    WholeLevelIsSetUp([f], lower, maxFileSize);
    assert f in s.v[1] && IsPickedSeed(s.v, 1, f, [f]);
  }

  // A manual compaction of all of level 1, which just makes up one file.
  lemma WholeRange(s: State, upper: seq<File>, lower: seq<File>, below: seq<File>, maxFileSize: nat)
    requires s.v == Two(upper, lower) && upper != [] && below == Overlapping(lower, Hull(upper)) != []
    requires IsOneFilesWorth(upper, maxFileSize, upper)
    ensures AsTheCodeDoes(s, StartCompaction(Job(1, upper, below)), maxFileSize)
  {
    hide IsSetUp, Overlapping, Hull, TotalFileSize, IsOneFilesWorth;
    WholeLevelIsSetUp(upper, lower, maxFileSize);
    var all := Range(None, None);
    AllOverlap(upper, all);
    assert IsReach(s.v[1], 1, all, all);
    assert IsRangeSeed(s.v, 1, all, maxFileSize, upper);
  }

  lemma NoStops(w: Work, i: nat)
    requires i < |w.es| && w.grandparents == []
    ensures !w.Stops(i)
  {
    hide LastStop;
    NoFilesNoSize();
  }

  // Without grandparents, outputs are cut right when they are cut by size.
  lemma CutsBySize(w: Work, outputs: seq<File>)
    requires w.grandparents == [] && (forall es :: w.tableSize(es) == |es|) && CutBySize(outputs, w.maxFileSize)
    requires Flatten(outputs) == w.KeptOf(|w.es|)
    ensures w.CutsAreRight(outputs)
  {
    hide Flatten, Kept, Work.Stops, CutAt;
    forall i: nat | i < |w.es| ensures !w.Stops(i) {
      NoStops(w, i);
    }
  }

  lemma FinishedBySize(s: State, upper: seq<File>, lower: seq<File>, outputs: seq<File>, maxFileSize: nat)
    requires s.running.Some? && s.running.value.level == 1 && s.inputVersion == Two(upper, lower)
    requires CutBySize(outputs, maxFileSize) && Flatten(outputs) == KeptBy(s)
    ensures AsTheCodeDoes(s, FinishCompaction(outputs), maxFileSize)
  {
    hide Flatten, Kept, MergeFiles, GrandparentsOf, Work.CutsAreRight;
    NoGrandparents(upper, lower, s.running.value);
    CutsBySize(WorkOf(s, maxFileSize, CountEntries), outputs);
  }

  lemma NoGrandparents(upper: seq<File>, lower: seq<File>, j: Job)
    requires j.level == 1
    ensures GrandparentsOf(Two(upper, lower), j) == []
  {
  }

  // ----- versions -----

  lemma FlushedIs(v: Levels, at: nat, f: File, v': Levels)
    requires |v| == |v'| == NUM_LEVELS && AllInOrder(v) && AllInOrder(v') && at < NUM_LEVELS
    requires forall g: File | g in v[at] :: f.number != g.number
    requires forall l: nat, g: File | l < NUM_LEVELS :: g in v'[l] <==> g in v[l] || (l == at && g == f)
    ensures FlushEdit(at, f).Valid() && Applied(v, FlushEdit(at, f)) == v'
  {
    hide InOrder, Applied;
    forall l: nat, g: File ensures Adds(FlushEdit(at, f), l, g) <==> l == at && g == f {
      FlushAdds(at, f, l, g);
    }
    AppliedIs(v, FlushEdit(at, f), v');
  }

  lemma TwoInOrder(upper: seq<File>, lower: seq<File>)
    requires InOrder(upper) && InOrder(lower)
    ensures AllInOrder(Two(upper, lower))
  {
    hide FileBefore;
    EmptyIsInOrder();
    var v := Two(upper, lower);
    forall l | 0 <= l < |v| ensures InOrder(v[l]) {
    }
  }

  lemma OneInOrder(f: File)
    ensures InOrder([f])
  {
  }

  lemma PairInOrder(f: File, g: File)
    requires f.Smallest().key < g.Smallest().key
    ensures InOrder([f, g])
  {
    assert Before(f.Smallest(), g.Smallest());
  }

  lemma EmptyIsTwo()
    ensures Two([], []) == EmptyVersion() && AllInOrder(Two([], []))
  {
    hide InOrder;
    EmptyLevelsAreInOrder();
    assert Two([], []) == EmptyVersion();
  }

  lemma InTwo(upper: seq<File>, lower: seq<File>)
    ensures forall e :: e in ContentsFrom(Two(upper, lower), 0) <==> InFiles(upper, e) || InFiles(lower, e)
  {
    hide InFiles;
    var v := Two(upper, lower);
    NothingIn();
    forall e | InLevels(v, 0, e) ensures InFiles(upper, e) || InFiles(lower, e) {
      var l :| 0 <= l < |v| && InFiles(v[l], e);
    }
    forall e | InFiles(upper, e) || InFiles(lower, e) ensures InLevels(v, 0, e) {
      assert InFiles(v[1], e) || InFiles(v[2], e);
    }
  }

  // ----- where a table goes -----

  ghost predicate MeetsNone(fs: seq<File>, f: File) {
    forall g | g in fs :: !Meets(g, Some(f.Smallest().key), Some(f.Largest().key))
  }

  lemma {:induction false} OverlapIsSmaller(fs: seq<File>, r: Range)
    ensures TotalFileSize(Overlapping(fs, r)) <= TotalFileSize(fs)
  {
    hide TotalFileSize, Range.Touches;
    if fs != [] {
      var n := |fs| - 1;
      var part := Overlapping(fs[..n], r);
      OverlapIsSmaller(fs[..n], r);
      SizeSnoc(fs[..n], fs[n]);
      SizeSnoc(part, fs[n]);
      assert fs[..n] + [fs[n]] == fs && part + [] == part;
    }
  }

  // Past level 0, to level 1 when a file of level 2 is in the way.
  lemma GoesToOne(upper: seq<File>, lower: seq<File>, f: File, g: File, maxFileSize: nat)
    requires MeetsNone(upper, f) && g in lower && Meets(g, Some(f.Smallest().key), Some(f.Largest().key))
    requires TotalFileSize(lower) <= 10 * maxFileSize
    ensures FreePlace(Two(upper, lower), 1, f) && IsPicked(Two(upper, lower), f, maxFileSize, 1)
  {
    hide Overlapping, TotalFileSize, Meets;
    var v := Two(upper, lower);
    OverlapIsSmaller(lower, Range(Some(f.Smallest().key), Some(f.Largest().key)));
    assert CanSink(v, 0, f, maxFileSize);
    assert g in v[2];
  }

  // And to level 2 when nothing is.
  lemma GoesToTwo(upper: seq<File>, lower: seq<File>, f: File, maxFileSize: nat)
    requires MeetsNone(upper, f) && MeetsNone(lower, f) && TotalFileSize(lower) <= 10 * maxFileSize
    ensures FreePlace(Two(upper, lower), 2, f) && IsPicked(Two(upper, lower), f, maxFileSize, 2)
  {
    hide Overlapping, TotalFileSize, Meets;
    var v, r := Two(upper, lower), Range(Some(f.Smallest().key), Some(f.Largest().key));
    OverlapIsSmaller(lower, r);
    OverlapIsSmaller([], r);
    NoFilesNoSize();
    assert CanSink(v, 0, f, maxFileSize) && CanSink(v, 1, f, maxFileSize);
  }

  lemma FlattenedTwo(f: File, g: File)
    ensures Flatten([f]) == f.entries && Flatten([f, g]) == f.entries + g.entries
  {
    assert [f][..0] == [] && [f, g][..1] == [f];
  }
}
