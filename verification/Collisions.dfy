/** A key that cannot be found any more: a run of the engine in which a table is flushed into the gap between the
    inputs of a manual compaction, and the output of the compaction reaches across it. */
module Collisions {
  import opened Options
  import opened InternalKeys
  import opened Versions
  import opened VersionEdits
  import opened CompactionInputs
  import opened Compactions
  import opened CompactionReads
  import opened Installs
  import opened Cuts
  import opened Engine
  import opened EngineRuns
  import opened Stories

  // The writes a := "a", z := "z", both once more, and m := "m".
  const A_OLD := Entry(0.0, 1, Put("a"))
  const Z_OLD := Entry(2.0, 2, Put("z"))
  const A_NEW := Entry(0.0, 3, Put("a"))
  const Z_NEW := Entry(2.0, 4, Put("z"))
  const M_VALUE := Entry(1.0, 5, Put("m"))

  // ----- files, versions and edits -----

  // A table of one entry.
  function Single(number: nat, e: Entry): (f: File)
    requires e.seqno < MAX_SEQUENCE
  {
    Table(number, 1, [e])
  }

  function Lower(): seq<File> {
    [Single(3, A_OLD), Single(5, Z_OLD)]
  }

  function Upper(): seq<File> {
    [Single(7, A_NEW), Single(9, Z_NEW)]
  }

  // What is flushed while the compaction runs.
  function Between(): File {
    Single(11, M_VALUE)
  }

  function Output(): File {
    Table(12, 2, [A_NEW, Z_NEW])
  }

  function Manual(): Job {
    Job(1, Upper(), Lower())
  }

  function ManualEdit(): Edit {
    CompactionEdit(Manual(), [Output()])
  }

  function Version(n: nat): Levels {
    if n == 0 then Two([], [])
    else if n == 1 then Two([], [Single(3, A_OLD)])
    else if n == 2 then Two([], Lower())
    else if n == 3 then Two([Single(7, A_NEW)], Lower())
    else if n == 4 then Two(Upper(), Lower())
    else if n == 5 then Two(Upper(), [Single(3, A_OLD), Between(), Single(5, Z_OLD)])
    else Two([], [Output(), Between()])
  }

  // The edits of the manifest: five flushes and the compaction.
  function Log(n: nat): seq<Edit> {
    if n == 0 then []
    else if n <= 5 then Log(n - 1) + [FlushEdit(Target(n - 1), Single(1 + 2 * n, Fresh(n - 1)))]
    else Log(5) + [ManualEdit()]
  }

  function Writes(n: nat): seq<Entry> {
    [A_OLD, Z_OLD, A_NEW, Z_NEW, M_VALUE][..if n < 5 then n else 5]
  }

  // ----- the run -----

  // The entries in the order they are written, each into a memtable of its own.
  function Fresh(k: nat): Entry {
    if k == 0 then A_OLD else if k == 1 then Z_OLD else if k == 2 then A_NEW else if k == 3 then Z_NEW else M_VALUE
  }

  // The level its table goes to.
  function Target(k: nat): nat {
    if k == 2 || k == 3 then 1 else 2
  }

  // When the entries before k are in tables.
  function Calm(k: nat): State {
    if k <= 4 then State([], None, Version(k), k, [], 2 + 2 * k, None, Version(0), Writes(k), 0, Log(k), []) else Running(5)
  }

  // While the compaction runs, before and after the last entry.
  function Running(n: nat): State {
    State([], None, Version(n), n, [], 2 + 2 * n, Some(Manual()), Version(4), Writes(n), 4, Log(n), [])
  }

  function Start(k: nat): State {
    if k < 4 then Calm(k) else Running(4)
  }

  // Entry k is written, its memtable is switched, and its table is flushed.
  function Moment(k: nat, phase: nat): State {
    var s := Start(k);
    if phase == 0 then s
    else if phase == 1 then s.(mem := [Fresh(k)], lastSequence := k + 1, hist := Writes(k + 1))
    else if phase == 2 then s.(imm := Some([Fresh(k)]), nextFile := 3 + 2 * k, lastSequence := k + 1, hist := Writes(k + 1))
    else Calm(k + 1)
  }

  function Finished(): State {
    Running(5).(running := None, v := Version(6), nextFile := 13, edits := Log(6))
  }

  function Deed(k: nat, phase: nat): Action {
    if phase == 0 then Write([(Fresh(k).key, Fresh(k).op)]) else if phase == 1 then SwitchMemtable else Flush(Target(k), 1)
  }

  // The compaction starts after four tables, and ends after five.
  function StateAt(i: nat): State {
    if i < 12 then Moment(i / 3, i % 3)
    else if i == 12 then Calm(4)
    else if i < 17 then Moment(4, i - 13)
    else Finished()
  }

  function DeedAt(i: nat): Action {
    if i < 12 then Deed(i / 3, i % 3)
    else if i == 12 then StartCompaction(Manual())
    else if i < 16 then Deed(4, i - 13)
    else FinishCompaction([Output()])
  }

  // ----- its steps -----

  // An output file is full with two entries.
  ghost predicate Follows(s: State, a: Action, s': State) {
    Next(s, a, s') && AsTheCodeDoes(s, a, 2)
  }

  lemma WritesGrow(k: nat)
    requires k < 5
    ensures Writes(k + 1) == Writes(k) + [Fresh(k)]
  {
  }

  lemma StartIs(k: nat)
    requires k < 5
    ensures var s := Start(k);
      && s.mem == [] && s.imm == None && s.v == Version(k) && s.lastSequence == k && s.nextFile == 2 + 2 * k
      && s.hist == Writes(k) && s.edits == Log(k)
    ensures Fresh(k).seqno == k + 1
  {
    hide Version, Writes, Log;
  }

  lemma WriteFollows(k: nat)
    requires k < 5
    ensures Follows(Moment(k, 0), Deed(k, 0), Moment(k, 1))
  {
    hide Start, Version, Writes, Log, Next;
    StartIs(k);
    WritesGrow(k);
    WriteOne(Start(k), Fresh(k).key, Fresh(k).op, Fresh(k), Writes(k + 1), Moment(k, 1));
  }

  lemma SwitchFollows(k: nat)
    requires k < 5
    ensures Follows(Moment(k, 1), Deed(k, 1), Moment(k, 2))
  {
    hide Start, Version, Writes, Log;
    StartIs(k);
  }

  // The table of entry k, in its place in the next version.
  ghost predicate Placed(k: nat)
    requires k < 5
  {
    var f: File := Single(3 + 2 * k, Fresh(k));
    && FreePlace(Version(k), Target(k), f) && IsPicked(Version(k), f, 2, Target(k)) && |Version(k)| == NUM_LEVELS
    && FlushEdit(Target(k), f).Valid() && Applied(Version(k), FlushEdit(Target(k), f)) == Version(k + 1)
    && Log(k + 1) == Log(k) + [FlushEdit(Target(k), f)]
  }

  lemma FlushFollows(k: nat)
    requires k < 5 && Placed(k)
    ensures Follows(Moment(k, 2), Deed(k, 2), Calm(k + 1))
  {
    hide Start, Calm, Version, Writes, Log, Next, FreePlace, IsPicked, Applied, Edit.Valid, AsTheCodeDoes;
    StartIs(k);
    CalmIs(k);
    var f: File := Single(3 + 2 * k, Fresh(k));
    FlushTo(Moment(k, 2), Target(k), f, Calm(k + 1));
    PickedTo(Moment(k, 2), Target(k), f, 2);
  }

  lemma CalmIs(k: nat)
    requires k < 5
    ensures Calm(k + 1)
         == Start(k).(nextFile := 4 + 2 * k, lastSequence := k + 1, hist := Writes(k + 1), v := Version(k + 1), edits := Log(k + 1))
  {
    hide Version, Writes, Log;
  }

  // ----- where the tables go -----

  lemma LevelsInOrder()
    ensures InOrder([Single(3, A_OLD)]) && InOrder(Lower()) && InOrder([Single(7, A_NEW)]) && InOrder(Upper())
    ensures InOrder([Single(3, A_OLD), Between(), Single(5, Z_OLD)]) && InOrder([Output(), Between()])
  {
    OneInOrder(Single(3, A_OLD));
    OneInOrder(Single(7, A_NEW));
    PairInOrder(Single(3, A_OLD), Single(5, Z_OLD));
    PairInOrder(Single(7, A_NEW), Single(9, Z_NEW));
    PairInOrder(Output(), Between());
    ThreeInOrder(Single(3, A_OLD), Between(), Single(5, Z_OLD));
  }

  lemma ThreeInOrder(f: File, g: File, h: File)
    requires f.Smallest().key < g.Smallest().key < h.Smallest().key
    ensures InOrder([f, g, h])
  {
    assert Before(f.Smallest(), g.Smallest()) && Before(g.Smallest(), h.Smallest()) && Before(f.Smallest(), h.Smallest());
  }

  lemma VersionInOrder(n: nat)
    requires n <= 6
    ensures AllInOrder(Version(n))
  {
    hide InOrder, Two, AllInOrder, Lower, Upper, Output, Between, Single;
    LevelsInOrder();
    EmptyIsInOrder();
    if n == 0 {
      TwoInOrder([], []);
    } else if n == 1 {
      TwoInOrder([], [Single(3, A_OLD)]);
    } else if n == 2 {
      TwoInOrder([], Lower());
    } else if n == 3 {
      TwoInOrder([Single(7, A_NEW)], Lower());
    } else if n == 4 {
      TwoInOrder(Upper(), Lower());
    } else if n == 5 {
      TwoInOrder(Upper(), [Single(3, A_OLD), Between(), Single(5, Z_OLD)]);
    } else {
      TwoInOrder([], [Output(), Between()]);
    }
  }

  // The members of the next version.
  lemma TableAdded(k: nat, l: nat, g: File)
    requires k < 5 && l < NUM_LEVELS
    ensures |Version(k)| == |Version(k + 1)| == NUM_LEVELS
    ensures g in Version(k + 1)[l] <==> g in Version(k)[l] || (l == Target(k) && g == Single(3 + 2 * k, Fresh(k)))
    ensures g in Version(k)[l] ==> g.number < 3 + 2 * k
  {
    hide Two;
  }

  lemma VersionSizes(n: nat)
    ensures |Version(n)| == NUM_LEVELS
  {
    hide Two;
  }

  lemma TableInstalled(k: nat)
    requires k < 5
    ensures var f: File := Single(3 + 2 * k, Fresh(k));
      && |Version(k)| == NUM_LEVELS && FlushEdit(Target(k), f).Valid()
      && Applied(Version(k), FlushEdit(Target(k), f)) == Version(k + 1)
  {
    hide Version, InOrder, AllInOrder, Applied, Edit.Valid;
    var f: File := Single(3 + 2 * k, Fresh(k));
    VersionInOrder(k);
    VersionInOrder(k + 1);
    VersionSizes(k);
    VersionSizes(k + 1);
    forall l: nat, g: File | l < NUM_LEVELS
      ensures g in Version(k + 1)[l] <==> g in Version(k)[l] || (l == Target(k) && g == f)
      ensures g in Version(k)[l] ==> g.number < 3 + 2 * k
    {
      TableAdded(k, l, g);
    }
    FlushedIs(Version(k), Target(k), f, Version(k + 1));
  }

  lemma LowerSize()
    ensures TotalFileSize([]) == 0 && TotalFileSize([Single(3, A_OLD)]) == 1 && TotalFileSize(Lower()) == 2
  {
    NoFilesNoSize();
    SizeSnoc([], Single(3, A_OLD));
    SizeSnoc([Single(3, A_OLD)], Single(5, Z_OLD));
    assert [] + [Single(3, A_OLD)] == [Single(3, A_OLD)];
    assert [Single(3, A_OLD)] + [Single(5, Z_OLD)] == Lower();
  }

  lemma PicksAreFree(k: nat)
    requires k < 5
    ensures FreePlace(Version(k), Target(k), Single(3 + 2 * k, Fresh(k)))
    ensures IsPicked(Version(k), Single(3 + 2 * k, Fresh(k)), 2, Target(k))
  {
    hide Two, FreePlace, IsPicked, TotalFileSize;
    LowerSize();
    var f: File := Single(3 + 2 * k, Fresh(k));
    if k == 0 {
      GoesToTwo([], [], f, 2);
    } else if k == 1 {
      GoesToTwo([], [Single(3, A_OLD)], f, 2);
    } else if k == 2 {
      assert Lower()[0] in Lower();
      GoesToOne([], Lower(), f, Lower()[0], 2);
    } else if k == 3 {
      assert Lower()[1] in Lower();
      GoesToOne([Single(7, A_NEW)], Lower(), f, Lower()[1], 2);
    } else {
      GoesToTwo(Upper(), Lower(), f, 2);
    }
  }

  lemma LogGrows(k: nat)
    requires k < 5
    ensures Log(k + 1) == Log(k) + [FlushEdit(Target(k), Single(3 + 2 * k, Fresh(k)))]
  {
    hide Single, Target, Fresh;
  }

  lemma AllPlaced(k: nat)
    requires k < 5
    ensures Placed(k)
  {
    hide Version, Log, FreePlace, IsPicked, Applied, Edit.Valid;
    TableInstalled(k);
    PicksAreFree(k);
    LogGrows(k);
  }

  // ----- the compaction -----

  lemma BothOverlap()
    ensures Overlapping(Lower(), Hull(Upper())) == Lower()
  {
    HullIsTight(Upper());
    assert Upper()[0] in Upper() && Upper()[1] in Upper();
    var r, fs := Hull(Upper()), Lower();
    assert r.Touches(fs[0]) && r.Touches(fs[1]);
    assert fs[..1] == [fs[0]] && [fs[0]][..0] == [];
    assert Overlapping([fs[0]], r) == [fs[0]];
  }

  lemma ManualIsSelected()
    ensures Selects(Version(4), 1, Upper(), Lower())
  {
    hide Newer, Hull, Overlapping;
    BothOverlap();
  }

  lemma StartFollows()
    ensures Follows(Calm(4), StartCompaction(Manual()), Running(4))
  {
    hide Selects, Version, Log, Writes, AsTheCodeDoes, Overlapping, Hull, Two;
    VersionSizes(4);
    ManualIsSelected();
    BothOverlap();
    UpperIsOneFile();
    assert Calm(4).v == Two(Upper(), Lower()) by { FourTables(); }
    WholeRange(Calm(4), Upper(), Lower(), Lower(), 2);
  }

  lemma FourTables()
    ensures Version(4) == Two(Upper(), Lower())
  {
  }

  lemma UpperIsOneFile()
    ensures IsOneFilesWorth(Upper(), 2, Upper())
  {
    var fs := Upper();
    assert fs[..1] == [fs[0]] && [fs[0]] + [fs[1]] == fs && [fs[0]][1..] == [];
    SizeSnoc([fs[0]], fs[1]);
  }

  lemma ManualMerges()
    ensures MergeFiles(Upper() + Lower()) == [A_NEW, A_OLD, Z_NEW, Z_OLD]
  {
    var fs := Upper() + Lower();
    assert fs[1..] == [fs[1], fs[2], fs[3]] && fs[1..][1..] == [fs[2], fs[3]] && [fs[2], fs[3]][1..] == [fs[3]]
           && [fs[3]][1..] == [];
    assert MergeFiles([]) == [];
    assert MergeFiles([fs[3]]) == Merge([Z_OLD], []) == [Z_OLD];
    assert [A_OLD][1..] == [] && [A_NEW][1..] == [] && [Z_NEW][1..] == [];
    assert MergeFiles([fs[2], fs[3]]) == [A_OLD] + Merge([], [Z_OLD]) == [A_OLD, Z_OLD];
    assert [A_OLD, Z_OLD][1..] == [Z_OLD];
    assert Merge([Z_NEW], [Z_OLD]) == [Z_NEW] + Merge([], [Z_OLD]) == [Z_NEW, Z_OLD];
    assert MergeFiles(fs[1..]) == [A_OLD] + Merge([Z_NEW], [Z_OLD]) == [A_OLD, Z_NEW, Z_OLD];
    assert Merge([A_NEW], [A_OLD, Z_NEW, Z_OLD]) == [A_NEW] + Merge([], [A_OLD, Z_NEW, Z_OLD]);
  }

  lemma ManualKept()
    ensures Kept(Version(4), 1, [A_NEW, A_OLD, Z_NEW, Z_OLD], 4, 4) == [A_NEW, Z_NEW]
  {
    hide Version;
    var v, es := Version(4), [A_NEW, A_OLD, Z_NEW, Z_OLD];
    assert !Dropped(v, 1, es, 0, 4) && Dropped(v, 1, es, 1, 4) && !Dropped(v, 1, es, 2, 4) && Dropped(v, 1, es, 3, 4);
    assert Kept(v, 1, es, 0, 4) == [];
    assert Kept(v, 1, es, 1, 4) == [A_NEW];
    assert Kept(v, 1, es, 2, 4) == [A_NEW];
    assert Kept(v, 1, es, 3, 4) == [A_NEW, Z_NEW];
  }

  lemma ManualDeletes()
    ensures ManualEdit().Valid()
    ensures forall l: nat, n: nat ::
              (l, n) in ManualEdit().deleted <==> (l == 1 && (n == 7 || n == 9)) || (l == 2 && (n == 3 || n == 5))
  {
    var j, d := Manual(), ManualEdit().deleted;
    assert j.inputs0[0].number == 7 && j.inputs0[1].number == 9 && j.inputs1[0].number == 3 && j.inputs1[1].number == 5;
    assert (1, j.inputs0[0].number) in d && (1, j.inputs0[1].number) in d;
    assert (2, j.inputs1[0].number) in d && (2, j.inputs1[1].number) in d;
  }

  lemma OutputPlaced(l: nat, f: File)
    requires l < NUM_LEVELS
    ensures |Version(5)| == |Version(6)| == NUM_LEVELS
    ensures f in Version(6)[l] <==> (l == 2 && f == Output()) || (f in Version(5)[l] && (l, f.number) !in ManualEdit().deleted)
    ensures f in Version(5)[l] ==> f.number < 12
  {
    hide Two, ManualEdit;
    ManualDeletes();
  }

  lemma ManualInstalled()
    ensures ManualEdit().Valid() && |Version(5)| == NUM_LEVELS && Applied(Version(5), ManualEdit()) == Version(6)
  {
    hide Version, InOrder, AllInOrder, Applied;
    VersionInOrder(5);
    VersionInOrder(6);
    VersionSizes(5);
    VersionSizes(6);
    ManualDeletes();
    forall l: nat, f: File ensures Adds(ManualEdit(), l, f) <==> l == 2 && f == Output() {
      CompactionAdds(Manual(), [Output()], l, f);
    }
    forall l: nat, f: File | l < NUM_LEVELS
      ensures f in Version(6)[l] <==> Adds(ManualEdit(), l, f) || (f in Version(5)[l] && (l, f.number) !in ManualEdit().deleted)
      ensures f in Version(5)[l] ==> f.number < 12
    {
      OutputPlaced(l, f);
    }
    AppliedIs(Version(5), ManualEdit(), Version(6));
  }

  lemma FinishFollows()
    ensures Follows(Running(5), FinishCompaction([Output()]), Finished())
  {
    hide Version, Applied, Kept, MergeFiles, Flatten, Writes, Edit.Valid, AsTheCodeDoes, Two;
    ManualInstalled();
    FourTables();
    ManualMerges();
    ManualKept();
    FlattenedTwo(Output(), Output());
    FinishedBySize(Running(5), Upper(), Lower(), [Output()], 2);
  }

  // Where the parts of the run meet.
  lemma Junctions(k: nat)
    requires k < 5
    ensures Moment(k, 3) == Calm(k + 1) && (k < 4 ==> Moment(k, 0) == Calm(k))
    ensures Moment(4, 0) == Running(4) && Calm(5) == Running(5)
  {
    hide Version, Writes, Log;
  }

  lemma FourTablesFollow(i: nat)
    requires i < 12
    ensures Follows(StateAt(i), DeedAt(i), StateAt(i + 1))
  {
    hide Follows, Moment, Deed, Start, Calm, Running, Finished, Placed;
    var k := i / 3;
    Phases(i);
    if i % 3 == 0 {
      WriteFollows(k);
    } else if i % 3 == 1 {
      SwitchFollows(k);
    } else {
      AllPlaced(k);
      FlushFollows(k);
      Junctions(k + 1);
    }
  }

  lemma Phases(i: nat)
    requires i < 12
    ensures i / 3 < 4 && (i % 3 == 2 ==> (i + 1) / 3 == i / 3 + 1 && (i + 1) % 3 == 0)
    ensures i % 3 < 2 ==> (i + 1) / 3 == i / 3 && (i + 1) % 3 == i % 3 + 1
  {
  }

  lemma CompactionFollows(i: nat)
    requires 12 <= i < 17
    ensures Follows(StateAt(i), DeedAt(i), StateAt(i + 1))
  {
    hide Follows, Moment, Deed, Start, Calm, Running, Finished, Placed;
    Junctions(4);
    if i == 12 {
      StartFollows();
    } else if i == 13 {
      WriteFollows(4);
    } else if i == 14 {
      SwitchFollows(4);
    } else if i == 15 {
      AllPlaced(4);
      FlushFollows(4);
    } else {
      FinishFollows();
    }
  }

  function Story(): (states: seq<State>)
    ensures |states| == 18
  {
    seq(18, i requires i >= 0 => StateAt(i))
  }

  function Plot(): (actions: seq<Action>)
    ensures |actions| == 17
  {
    seq(17, i requires i >= 0 => DeedAt(i))
  }

  lemma StoryIsRun()
    ensures IsRunOf(Story(), Plot())
    ensures forall i | 0 <= i < 17 :: AsTheCodeDoes(Story()[i], Plot()[i], 2)
    ensures NeverCollides(Story(), Plot(), 16)
  {
    hide Next, StateAt, DeedAt, AsTheCodeDoes, Colliding;
    Beginning();
    forall i | 0 <= i < 17 ensures Next(StateAt(i), DeedAt(i), StateAt(i + 1)) && AsTheCodeDoes(StateAt(i), DeedAt(i), 2) {
      if i < 12 {
        FourTablesFollow(i);
      } else {
        CompactionFollows(i);
      }
    }
    forall i | 0 <= i < 16 ensures !Colliding(StateAt(i), DeedAt(i)) {
      OnlyTheEndFinishes(i);
    }
  }

  lemma Beginning()
    ensures StateAt(0) == Initial()
  {
    EmptyIsTwo();
    assert Writes(0) == [];
  }

  lemma OnlyTheEndFinishes(i: nat)
    requires i < 16
    ensures !DeedAt(i).FinishCompaction? && !Colliding(StateAt(i), DeedAt(i))
  {
  }

  // ----- what can be found at the end -----

  lemma EndOfStory()
    ensures var s := Story()[17];
      && s.v == Two([], [Output(), Between()]) && s.mem == [] && s.imm == None && s.hist == Writes(5) && s.lastSequence == 5
    ensures var s := Story()[16];
      s.running == Some(Manual()) && s.inputVersion == Version(4) && s.v == Version(5)
    ensures Plot()[16] == FinishCompaction([Output()])
  {
    hide Log, Writes;
  }

  lemma BetweenIsFlushed()
    ensures Flushed(Version(4), Version(5), 2, Between())
  {
    assert Between() in Version(5)[2];
  }

  lemma NotCutApart()
    ensures Around([A_NEW, Z_NEW], 1, Between()) && !CutAt([Output()], 1)
  {
    hide CutAt, Flatten;
    NothingFlattened([Output()]);
    OneFlattened(Output());
    NoCutInside([Output()], 0, 1);
  }

  // The entries before and after m are kept, and are not cut apart.
  lemma OutputCollides()
    ensures Bridges(Version(4), Version(5), Manual(), [A_NEW, Z_NEW], [Output()])
  {
    hide Version, Flushed, Around, CutAt, Between, Output, Lower, Upper;
    BetweenIsFlushed();
    NotCutApart();
  }

  lemma KeptAtTheEnd()
    ensures Story()[16].running.Some? && KeptBy(Story()[16]) == [A_NEW, Z_NEW]
  {
    hide Kept, MergeFiles, Version, Writes, Log, Upper, Lower;
    ManualMerges();
    ManualKept();
  }

  lemma LevelIsBroken()
    ensures !SortedLevel([Output(), Between()])
  {
    var fs := [Output(), Between()];
    assert !Before(fs[0].Largest(), fs[1].Smallest());
  }

  lemma InLower()
    ensures forall e :: InFiles([Output(), Between()], e) <==> e == A_NEW || e == Z_NEW || e == M_VALUE
    ensures forall e :: !InFiles([], e)
  {
    var fs := [Output(), Between()];
    assert Output() in fs && Between() in fs;
    assert A_NEW in Output().entries && Z_NEW in Output().entries && M_VALUE in Between().entries;
  }

  lemma StillStored()
    ensures forall e :: e in All(Story()[17]) <==> e == A_NEW || e == Z_NEW || e == M_VALUE
  {
    hide Story, Plot, Two, ContentsFrom, InFiles, Version;
    EndOfStory();
    InLower();
    InTwo([], [Output(), Between()]);
  }

  lemma StillRead()
    ensures Read(All(Story()[17]), 1.0, 5) == Some("m")
  {
    hide Story, All, Read;
    StillStored();
    var c := All(Story()[17]);
    assert Unique(c);
    assert Shows(c, 1.0, 5, M_VALUE);
    ReadShown(c, 1.0, 5, M_VALUE);
  }

  // The search for m in its level: the first file that does not end before m is the output, and it has no m.
  lemma SearchMisses()
    ensures AtOrAfter(Output().Largest(), 1.0, 5) && Output().Smallest().key <= 1.0
    ensures PointGet(Output().entries, 1.0, 5) == Missing
  {
    var es := Output().entries;
    assert !Matches(A_NEW, 1.0, 5) && !Matches(Z_NEW, 1.0, 5);
    PointGetMisses(es, 1.0, 5);
  }

  // Levels do get out of order: a run from the beginning, with every table flushed and every output cut as
  // the code does it.  At its end m is stored, and the history says so, but level 2 is no longer sorted, and
  // the file that a binary search for m leads to does not hold it.
  lemma LevelsCanBreak()
    ensures IsRunOf(Story(), Plot()) && NeverCollides(Story(), Plot(), 16) && Colliding(Story()[16], Plot()[16])
    ensures forall i | 0 <= i < 17 :: AsTheCodeDoes(Story()[i], Plot()[i], 2)
    ensures Structure(Story()[16]) && !Structure(Story()[17])
    ensures var s := Story()[17];
      && s.v == Two([], [Output(), Between()]) && !SortedLevel(s.v[2])
      && Read(All(s), 1.0, 5) == Some("m") && M_VALUE in Between().entries
    ensures AtOrAfter(Output().Largest(), 1.0, 5) && Output().Smallest().key <= 1.0
    ensures PointGet(Output().entries, 1.0, 5) == Missing
  {
    hide Structure, IsRunOf, AsTheCodeDoes, Story, Plot, Next, Bridges, KeptBy, SortedLevel, Read, All, AtOrAfter, PointGet,
      Two;
    StoryIsRun();
    RunsAreRight(Story(), Plot(), 16);
    EndOfStory();
    OutputCollides();
    KeptAtTheEnd();
    LastStep();
    StepKeepsStructure(Story()[16], Plot()[16], Story()[17]);
    LevelIsBroken();
    StillRead();
    SearchMisses();
  }

  lemma LastStep()
    ensures Next(Story()[16], Plot()[16], Story()[17])
  {
    hide Next, StateAt, DeedAt;
    CompactionFollows(16);
  }
}
