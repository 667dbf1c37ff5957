/** The database object: its methods carry out the steps of the engine. */
module DbImpl {
  import opened Options
  import opened InternalKeys
  import opened Versions
  import opened VersionEdits
  import opened CompactionInputs
  import opened Compactions
  import opened CompactionReads
  import opened Installs
  import opened Cuts
  import opened Engine
  import opened EngineRuns

  method PickLevelForMemTableOutput(v: Levels, f: File, maxFileSize: nat) returns (level: nat)
    requires ValidVersion(v)
    ensures FreePlace(v, level, f) && IsPicked(v, f, maxFileSize, level)
  {
    hide Newer, NumberedByAge, Overlapping, SortedLevel, Range.Contains, Closed;
    level := 0;
    var lo, hi := Some(f.Smallest().key), Some(f.Largest().key);
    var overlaps := SomeFileOverlapsRange(false, v[0], lo, hi);
    if !overlaps {
      while level < MAX_MEM_COMPACT_LEVEL
        invariant level <= MAX_MEM_COMPACT_LEVEL && NothingMeets(v, 0, f)
        invariant forall l: nat, g: File {:trigger g in v[l]} | l <= level && g in v[l] :: !Meets(g, lo, hi)
        invariant forall l | 0 <= l < level :: CanSink(v, l, f, maxFileSize)
      {
        overlaps := SomeFileOverlapsRange(true, v[level + 1], lo, hi);
        if overlaps {
          break;
        }
        if level + 2 < NUM_LEVELS {
          var grandparents, reach := GetOverlappingInputs(v[level + 2], level + 2, lo, hi);
          if TotalFileSize(grandparents) > 10 * maxFileSize {
            break;
          }
        }
        level := level + 1;
      }
    }
  }

  // How many files reach the size of one output file; all of them when they do not.
  method OneFilesWorth(files: seq<File>, maxFileSize: nat) returns (n: nat)
    requires files != []
    ensures 0 < n <= |files| && IsOneFilesWorth(files, maxFileSize, files[..n])
  {
    var total := 0;
    n := 0;
    while n < |files|
      invariant 0 <= n <= |files| && total == TotalFileSize(files[..n])
      invariant n > 0 ==> total < maxFileSize
      invariant n > 1 ==> TotalFileSize(files[..n - 1]) < maxFileSize
    {
      TotalOfOneMore(files, n);
      total := total + files[n].size;
      n := n + 1;
      assert files[..n][..n - 1] == files[..n - 1] && (n == |files| ==> files[..n] == files);
      if total >= maxFileSize {
        return;
      }
    }
  }

  // What the loop of Write has inserted so far.
  lemma NothingInserted(mem: seq<Entry>, es: seq<Entry>)
    ensures InsertAll(mem, es[..0]) == mem
  {
  }

  lemma OneMoreInserted(mem: seq<Entry>, last: nat, ops: seq<(Key, Op)>, i: nat)
    requires i < |ops|
    ensures var es := Stamp(last, ops);
      InsertAll(mem, es[..i + 1]) == Insert(InsertAll(mem, es[..i]), Entry(ops[i].0, last + 1 + i, ops[i].1))
  {
    hide Insert;
    var es := Stamp(last, ops);
    assert es[..i + 1][..i] == es[..i];
  }

  class Database {
    var mem: seq<Entry>
    var imm: Option<seq<Entry>>
    var version: Levels
    var lastSequence: nat
    var snapshots: seq<nat>
    var nextFileNumber: nat
    var running: Option<Job>
    var begun: seq<nat>          // the numbers of its outputs so far
    var inputVersion: Levels     // of the compaction that runs
    var grandparents: seq<File>
    ghost var history: seq<Entry>
    var floor: nat  // smallest_snapshot of the latest compaction
    ghost var manifest: seq<Edit>

    ghost function Model(): State
      reads this
    {
      State(mem, imm, version, lastSequence, snapshots, nextFileNumber, running, inputVersion, history, floor, manifest,
            begun)
    }

    ghost predicate Valid()
      reads this
    {
      Structure(Model()) && (running.Some? ==> grandparents == GrandparentsOf(inputVersion, running.value))
    }

    constructor ()
      ensures Model() == Initial() && Valid() && ReadsRight(Model())
    {
      mem, imm, version, lastSequence := [], None, EmptyVersion(), 0;
      snapshots, nextFileNumber, running, grandparents := [], 2, None, [];
      inputVersion, begun, history, floor, manifest := EmptyVersion(), [], [], 0, [];
      new;
      InitialIsRight();
    }

    // A whole batch goes into the memtable before the last sequence number is published.
    method Write(ops: seq<(Key, Op)>)
      requires Valid() && lastSequence + |ops| < MAX_SEQUENCE
      modifies this
      ensures Next(old(Model()), Action.Write(ops), Model()) && Valid()
      ensures old(ReadsRight(Model())) ==> ReadsRight(Model())
    {
      hide Structure, ReadsRight, InsertAll, Insert, Stamp;
      ghost var before := Model();
      ghost var es := Stamp(lastSequence, ops);
      NothingInserted(mem, es);
      for i := 0 to |ops|
        invariant Model() == before.(mem := InsertAll(before.mem, es[..i])) && grandparents == old(grandparents)
      {
        OneMoreInserted(before.mem, before.lastSequence, ops, i);
        mem := Insert(mem, Entry(ops[i].0, lastSequence + 1 + i, ops[i].1));
      }
      assert es[..|ops|] == es;
      lastSequence := lastSequence + |ops|;
      history := history + es;
      StepKeepsStructure(before, Action.Write(ops), Model());
    }

    // The switch inside MakeRoomForWrite; one file number goes to the new log.
    method SwitchMemtable()
      requires Valid() && imm.None?
      modifies this
      ensures Next(old(Model()), Action.SwitchMemtable, Model()) && Valid()
      ensures old(ReadsRight(Model())) ==> ReadsRight(Model())
    {
      hide Structure, ReadsRight;
      ghost var before := Model();
      nextFileNumber := nextFileNumber + 1;
      imm, mem := Some(mem), [];
      StepKeepsStructure(before, Action.SwitchMemtable, Model());
    }

    // LogAndApply, with the write to the manifest succeeding
    method LogAndApply(e: Edit)
      requires |version| == NUM_LEVELS && e.Valid()
      modifies this`version, this`manifest
      ensures version == Applied(old(version), e) && manifest == old(manifest) + [e]
    {
      var builder := new Builder(version);
      builder.Apply(e);
      version := builder.SaveTo();
      manifest := manifest + [e];
    }

    // Also in the middle of a compaction, whose loop looks for an immutable memtable first.
    method CompactMemTable(size: nat, maxFileSize: nat) returns (level: nat)
      requires Valid() && imm.Some?
      modifies this
      ensures Next(old(Model()), Flush(level, size), Model()) && Valid()
      ensures GoesWherePicked(old(Model()), level, size, maxFileSize)
      ensures old(ReadsRight(Model())) ==> ReadsRight(Model())
    {
      hide Structure, ReadsRight, FreePlace, Applied, GoesWherePicked;
      ghost var before := Model();
      level := WriteLevel0Table(size, maxFileSize);
      nextFileNumber := nextFileNumber + 1;
      imm := None;
      StepKeepsStructure(before, Flush(level, size), Model());
    }

    // Builds the table, if there is anything to write, and installs it.
    method WriteLevel0Table(size: nat, maxFileSize: nat) returns (level: nat)
      requires Valid() && imm.Some?
      modifies this`version, this`manifest
      ensures FlushNext(old(Model()), level, size, Model().(imm := None, nextFile := nextFileNumber + 1))
      ensures GoesWherePicked(old(Model()), level, size, maxFileSize)
    {
      hide Structure, FreePlace, Applied, CanSink, NothingMeets, ValidVersion;
      ghost var before := Model();
      SettledAndLayered(before);
      level := 0;
      if imm.value == [] {
        EmptyEditKeeps(version, nextFileNumber);
        LogAndApply(Edit({}, []));
      } else {
        ImmIsTable(before, nextFileNumber, size);
        var f: File := Table(nextFileNumber, size, imm.value);
        level := PickLevelForMemTableOutput(version, f, maxFileSize);
        LogAndApply(FlushEdit(level, f));
      }
    }

    // Search the memtable, the immutable memtable, then the files.
    method Get(key: Key, snapshot: Option<nat>) returns (value: Option<Value>)
      requires Valid() && (snapshot.Some? ==> snapshot.value < |snapshots|)
      ensures var t := if snapshot.Some? then snapshots[snapshot.value] else lastSequence;
        && value == Read(All(Model()), key, t)
        && (ReadsRight(Model()) ==> value == Lookup(history, key, t))
    {
      hide Layered, Settled, Selects, ManifestMatches, Read, All;
      ghost var s := Model();
      var t := if snapshot.Some? then snapshots[snapshot.value] else lastSequence;
      SearchOrder(s, key, t);
      var h := PointGet(mem, key, t);
      if h == Missing && imm.Some? {
        h := PointGet(imm.value, key, t);
      }
      if h == Missing {
        TreeIsSearchable(s);
        h := Versions.Get(version, key, t);
      }
      value := HitValue(h);
    }

    method GetSnapshot() returns (index: nat)
      requires Valid()
      modifies this`snapshots
      ensures Next(old(Model()), TakeSnapshot, Model()) && Valid()
      ensures index < |snapshots| && snapshots[index] == lastSequence
      ensures old(ReadsRight(Model())) ==> ReadsRight(Model())
    {
      hide Structure, ReadsRight;
      ghost var before := Model();
      index := |snapshots|;
      snapshots := snapshots + [lastSequence];
      StepKeepsStructure(before, TakeSnapshot, Model());
    }

    method ReleaseSnapshot(index: nat)
      requires Valid() && index < |snapshots|
      modifies this`snapshots
      ensures Next(old(Model()), Action.ReleaseSnapshot(index), Model()) && Valid()
      ensures old(ReadsRight(Model())) ==> ReadsRight(Model())
    {
      hide Structure, ReadsRight;
      ghost var before := Model();
      snapshots := snapshots[..index] + snapshots[index + 1..];
      StepKeepsStructure(before, Action.ReleaseSnapshot(index), Model());
    }

    // PickCompaction: level 0 takes everything that overlaps the picked file.
    method SeedFromFile(level: nat, pick: nat) returns (seed: seq<File>)
      requires Valid() && level < |version| && pick < |version[level]|
      ensures IsPickedSeed(version, level, version[level][pick], seed) && version[level][pick] in seed
      ensures IsSeed(level, version[level], seed) && Gapless(seed)
    {
      hide Structure, Gapless, StaysFilled;
      var f := version[level][pick];
      seed := [f];
      OneFileIsGapless(f);
      if level == 0 {
        var reach;
        seed, reach := GetOverlappingInputs(version[0], 0, Some(f.Smallest().key), Some(f.Largest().key));
        PickedFileOverlaps(version[0], f, reach);
        ReachLeavesNoGap(version[0], [f], reach);
        PickedIsFound(version[0], f, reach);
        GaplessSame([f] + seed, seed);
      } else {
        assert version[level][pick..pick + 1] == [f];
        assert IsRun(version[level], seed, pick, pick + 1);
      }
    }

    // CompactRange: the files of a key range; below level 0 no more than one file's worth.
    method SeedFromRange(level: nat, begin: Option<Key>, end: Option<Key>, maxFileSize: nat) returns (seed: seq<File>)
      requires Valid() && level < |version|
      ensures IsRangeSeed(version, level, Range(begin, end), maxFileSize, seed)
      ensures seed == [] || IsSeed(level, version[level], seed)
    {
      hide Layered, SnapshotsAbove, JobFits, ManifestMatches, BegunFit, NumberedByAge, Newer, NumbersAreUnique, NumbersBelow,
        SortedLevel, TotalFileSize, Overlapping, Closed, Range.Contains, NoWiderThanNeeded, IsOneFilesWorth;
      var reach;
      seed, reach := GetOverlappingInputs(version[level], level, begin, end);
      ghost var found := seed;
      NoneIsWorthNothing(maxFileSize);
      if seed != [] && level > 0 {
        OverlappingIsRun(version[level], reach);
        var n := OneFilesWorth(seed, maxFileSize);
        RunPrefix(version[level], seed, n);
        seed := seed[..n];
      }
      if level == 0 {
        assert Closed(version[0], reach);
      }
      assert IsReach(version[level], level, Range(begin, end), reach);
    }

    // Sets the compaction up; a single file with nothing below it is moved as it is.
    method BackgroundCompaction(level: nat, seed: seq<File>, manual: bool, maxFileSize: nat)
      returns (action: Action)
      requires Valid() && imm.None? && running.None?
      requires level + 1 < NUM_LEVELS == |version| && IsSeed(level, version[level], seed)
      modifies this
      ensures action.Move? || action.StartCompaction?
      ensures Next(old(Model()), action, Model()) && Valid()
      ensures old(ReadsRight(Model())) ==> ReadsRight(Model())
      ensures action.job.level == level && action.job.inputs0 != [] && forall f | f in seed :: f in action.job.inputs0
      ensures IsSetUp(old(version), level, seed, maxFileSize, action.job.inputs0, action.job.inputs1)
      ensures grandparents == Grandparents(old(version), level, action.job.inputs0, action.job.inputs1)
      ensures Gapless(seed) ==> Gapless(action.job.inputs0 + action.job.inputs1)
      ensures action.Move? <==>
        !manual && |action.job.inputs0| == 1 && action.job.inputs1 == [] && TotalFileSize(grandparents) <= 10 * maxFileSize
    {
      hide Structure, ReadsRight, IsSeed, Selects, Applied, ValidVersion, Unique, Overlapping, Hull, Sorted, Grandparents,
        TotalFileSize, ContentsOf, CompactionEdit, Gapless, SetsUp;
      SettledAndLayered(Model());
      LevelsAreUnique(Model(), level);
      var inputs0, inputs1;
      inputs0, inputs1, grandparents := SetupOtherInputs(version, level, seed, maxFileSize);
      var j := Job(level, inputs0, inputs1);
      if !manual && |inputs0| == 1 && |inputs1| == 0 && TotalFileSize(grandparents) <= 10 * maxFileSize {
        action := Move(j);
        MoveFile(j);
      } else {
        action := StartCompaction(j);
        Begin(j);
      }
    }

    method MoveFile(j: Job)
      requires Valid() && CanSelect(Model(), j) && |j.inputs0| == 1 && j.inputs1 == []
      modifies this`version, this`manifest
      ensures Next(old(Model()), Move(j), Model()) && Valid()
      ensures old(ReadsRight(Model())) ==> ReadsRight(Model())
    {
      hide Structure, ReadsRight, Selects, Applied, CompactionEdit;
      ghost var before := Model();
      CompactionEditIsValid(j, j.inputs0);
      LogAndApply(CompactionEdit(j, j.inputs0));
      StepKeepsStructure(before, Move(j), Model());
    }

    method Begin(j: Job)
      requires Valid() && CanSelect(Model(), j) && grandparents == GrandparentsOf(version, j)
      modifies this`running, this`inputVersion, this`floor
      ensures Next(old(Model()), StartCompaction(j), Model()) && Valid()
      ensures old(ReadsRight(Model())) ==> ReadsRight(Model())
    {
      hide Structure, ReadsRight, Selects;
      ghost var before := Model();
      running, inputVersion := Some(j), version;
      floor := if snapshots == [] then lastSequence else snapshots[0];
      StepKeepsStructure(before, StartCompaction(j), Model());
    }

    // The number of an output is taken when it is opened, so flushes in between take others.
    method OpenCompactionOutputFile()
      requires Valid() && running.Some?
      modifies this`begun, this`nextFileNumber
      ensures Next(old(Model()), OpenOutput, Model()) && Valid()
      ensures begun == old(begun) + [old(nextFileNumber)] && nextFileNumber == old(nextFileNumber) + 1
      ensures old(ReadsRight(Model())) ==> ReadsRight(Model())
    {
      hide Structure, ReadsRight;
      ghost var before := Model();
      begun := begun + [nextFileNumber];
      nextFileNumber := nextFileNumber + 1;
      StepKeepsStructure(before, OpenOutput, Model());
    }

    // DoCompactionWork and InstallCompactionResults.  The levels stay in order unless the kept entries on both
    // sides of a table that was flushed into their level meanwhile are not cut apart.
    method FinishCompaction(maxFileSize: nat, tableSize: seq<Entry> -> nat)
      returns (outputs: seq<File>)
      requires Valid() && running.Some?
      modifies this
      ensures Next(old(Model()), Action.FinishCompaction(outputs), Model())
      ensures old(WorkOf(Model(), maxFileSize, tableSize)).CutsAreRight(outputs)
      ensures Valid() <==> !Bridges(old(inputVersion), old(version), old(running).value, old(KeptBy(Model())), outputs)
      ensures old(ClearOfFlushes(Model())) ==> Valid()
      ensures Gapless(old(running).value.inputs0 + old(running).value.inputs1) ==> Valid()
      ensures old(ReadsRight(Model())) ==> (ReadsRight(Model()) <==> !old(Resurrecting(Model())))
    {
      hide Structure, Layered, ReadsRight, Resurrecting, Applied, Kept, Flatten, SortedLevel, OutputNumber, NextAfter, Bridges,
        AllOneSide, Gapless, KeptBy, MergeFiles, CompactionEdit, ValidVersion, GrandparentsOf, Work.CutsAreRight;
      ghost var before := Model();
      SettledAndLayered(before);
      var j := running.value;
      var input := MergeFiles(j.inputs0 + j.inputs1);
      InputIsSorted(before, j);
      var c := new Compaction(inputVersion, j.level, grandparents, maxFileSize);
      outputs := DoCompactionWork(c, input, floor, begun, nextFileNumber, maxFileSize, tableSize);
      CompactionEditIsValid(j, outputs);
      LogAndApply(CompactionEdit(j, outputs));
      nextFileNumber := NextAfter(begun, nextFileNumber, |outputs|);
      running, begun := None, [];
      FinishedAs(before, outputs, Model());
    }
  }

  // ----- facts the methods use -----

  lemma NoneIsWorthNothing(maxFileSize: nat)
    ensures IsOneFilesWorth([], maxFileSize, [])
  {
  }

  lemma FinishedAs(s: State, outputs: seq<File>, s': State)
    requires Structure(s) && s.running.Some? && Next(s, FinishCompaction(outputs), s')
    ensures Structure(s') <==> !Bridges(s.inputVersion, s.v, s.running.value, KeptBy(s), outputs)
    ensures ClearOfFlushes(s) ==> Structure(s')
    ensures Gapless(s.running.value.inputs0 + s.running.value.inputs1) ==> Structure(s')
    ensures ReadsRight(s) ==> (ReadsRight(s') <==> !Resurrecting(s))
  {
    hide Structure, ReadsRight, Resurrecting, Bridges, AllOneSide, Gapless, KeptBy, FinishNext;
    var j := s.running.value;
    StepKeepsStructure(s, FinishCompaction(outputs), s');
    if Gapless(j.inputs0 + j.inputs1) {
      GaplessNeverBreaks(s, outputs, s');
    }
    if ClearOfFlushes(s) {
      OneSideIsClear(s.inputVersion, s.v, j, KeptBy(s), outputs);
    }
  }

  lemma ImmIsTable(s: State, number: nat, size: nat)
    requires Structure(s) && s.imm.Some? && s.imm.value != []
    ensures Table(number, size, s.imm.value).Valid()
    ensures ValidVersion(s.v) && number == s.nextFile ==> FlushEdit(0, Table(number, size, s.imm.value)).Valid()
  {
    hide ValidVersion, ManifestMatches, Sorted, Newer;
    forall e | e in s.imm.value ensures e.seqno < MAX_SEQUENCE {
      assert e in All(s) && e in Of(s.hist);
      HistoryIsUnique(s.hist);
    }
  }

  lemma SearchOrder(s: State, k: Key, t: nat)
    requires Structure(s)
    ensures var m, i := PointGet(s.mem, k, t), PointGet(ImmEntries(s), k, t);
      && (!m.Missing? ==> HitValue(m) == Read(All(s), k, t))
      && (m.Missing? && !i.Missing? ==> HitValue(i) == Read(All(s), k, t))
      && (m.Missing? && i.Missing? ==> Read(Tree(s), k, t) == Read(All(s), k, t))
  {
    hide Settled, SnapshotsAbove, JobFits, ManifestMatches, Read, ContentsFrom, PointGet, HitValue;
    AllIsUnique(s);
    var rest := Of(ImmEntries(s)) + Tree(s);
    assert All(s) == Of(s.mem) + rest;
    PointGetReads(s.mem, k, t);
    PointGetReads(ImmEntries(s), k, t);
    ReadInOrder(Of(s.mem), rest, k, t);
    ReadInOrder(Of(ImmEntries(s)), Tree(s), k, t);
  }

  lemma TreeIsSearchable(s: State)
    requires Structure(s)
    ensures ValidVersion(s.v) && Unique(ContentsFrom(s.v, 0))
  {
    hide ValidVersion, ManifestMatches, JobFits, SnapshotsAbove;
    AllIsUnique(s);
  }

  lemma LevelsAreUnique(s: State, l: nat)
    requires Structure(s) && l < |s.v|
    ensures ValidVersion(s.v) && Unique(ContentsOf(s.v[l]))
  {
    hide ValidVersion, ManifestMatches, JobFits, SnapshotsAbove;
    TreeIsSearchable(s);
    assert ContentsOf(s.v[l]) <= ContentsFrom(s.v, 0);
  }

  lemma PickedFileOverlaps(fs: seq<File>, f: File, reach: Range)
    requires f in fs && reach.Contains(Range(Some(f.Smallest().key), Some(f.Largest().key)))
    ensures Overlapping(fs, reach) != []
  {
    EntriesLieInRange(f, f.Largest());
    OverlappingMembers(fs, reach);
  }

  lemma OneFileIsGapless(f: File)
    ensures Gapless([f]) && Hull([f]) == Range(Some(f.Smallest().key), Some(f.Largest().key))
  {
    forall k: Key | f.Smallest().key <= k <= f.Largest().key ensures CoveredBy([f], k) {
      assert f in [f] && f.Covers(k);
    }
  }

  lemma PickedIsFound(fs: seq<File>, f: File, reach: Range)
    requires f in fs && reach.Contains(Range(Some(f.Smallest().key), Some(f.Largest().key)))
    ensures f in Overlapping(fs, reach)
  {
    EntriesLieInRange(f, f.Largest());
    OverlappingMembers(fs, reach);
  }

  lemma RunPrefix(level: seq<File>, files: seq<File>, n: nat)
    requires IsSomeRun(level, files) && 0 < n <= |files|
    ensures IsSomeRun(level, files[..n])
  {
    var a: nat, b: nat :| IsRun(level, files, a, b);
    assert IsRun(level, files[..n], a, a + n);
  }

  lemma CompactionEditIsValid(j: Job, outputs: seq<File>)
    requires j.level + 1 < NUM_LEVELS
    ensures CompactionEdit(j, outputs).Valid()
  {
  }

  lemma InputIsSorted(s: State, j: Job)
    requires Structure(s) && s.running == Some(j)
    ensures j.level + 1 < NUM_LEVELS && ValidVersion(s.inputVersion) && Sorted(MergeFiles(j.inputs0 + j.inputs1))
    ensures forall e | e in MergeFiles(j.inputs0 + j.inputs1) :: e.seqno < MAX_SEQUENCE
    ensures s.floor < MAX_SEQUENCE
  {
    hide Settled, Layered, ManifestMatches, Selects, Sorted, Setting, ValidVersion, Overlaid;
    SettledAndLayered(s);
    SettingOf(s, s.inputVersion, j);
    MergedInputs(Above(s), s.inputVersion, j);
    FloorIsSmall(s);
    forall e | e in MergeFiles(j.inputs0 + j.inputs1) ensures e.seqno < MAX_SEQUENCE {
      assert e in Of(MergeFiles(j.inputs0 + j.inputs1));
      var f :| f in j.inputs0 + j.inputs1 && e in f.entries;
      assert f.Valid();
    }
  }

  lemma FloorIsSmall(s: State)
    requires Layered(s) && SnapshotsAbove(s)
    ensures s.floor < MAX_SEQUENCE
  {
  }
}
