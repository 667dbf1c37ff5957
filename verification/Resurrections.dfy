/** A deleted value that comes back: a run of the engine that ends with a compaction that drops the deletion
    marker and leaves the value in the next file. */
module Resurrections {
  import opened Options
  import opened InternalKeys
  import opened Versions
  import opened VersionEdits
  import opened CompactionInputs
  import opened Compactions
  import opened CompactionReads
  import opened Installs
  import opened Cuts
  import opened Engine
  import opened EngineRuns
  import opened Stories

  // The writes a := "old", b := "back again", delete b, a := "new".
  const A_OLD := Entry(0.0, 1, Put("old"))
  const B_VALUE := Entry(1.0, 2, Put("back again"))
  const B_DELETED := Entry(1.0, 3, Deletion)
  const A_NEW := Entry(0.0, 4, Put("new"))

  // ----- files, versions and edits -----

  // The first two tables that are flushed, and what their compaction makes of them: both versions of b stay,
  // because a snapshot still reads the older one.
  function Base(): File {
    Table(3, 2, [A_OLD, B_VALUE])
  }

  function Marker(): File {
    Table(5, 1, [B_DELETED])
  }

  function Left(): File {
    Table(6, 2, [A_OLD, B_DELETED])
  }

  function Right(): File {
    Table(7, 1, [B_VALUE])
  }

  // The third table, and the output of its compaction with the left file.
  function Upper(): File {
    Table(9, 1, [A_NEW])
  }

  function Merged(): File {
    Table(10, 1, [A_NEW])
  }

  // The user key b straddles two files, and only the left one meets the keys of the upper one.
  function Store(): Levels {
    Two([Upper()], [Left(), Right()])
  }

  function First(): Job {
    Job(1, [Marker()], [Base()])
  }

  function Second(): Job {
    Job(1, [Upper()], [Left()])
  }

  function FirstMerge(): Edit {
    CompactionEdit(First(), [Left(), Right()])
  }

  function SecondMerge(): Edit {
    CompactionEdit(Second(), [Merged()])
  }

  // The edits of the manifest, in turn.
  function Log(n: nat): seq<Edit> {
    if n == 0 then []
    else if n == 1 then [FlushEdit(2, Base())]
    else if n == 2 then Log(1) + [FlushEdit(1, Marker())]
    else if n == 3 then Log(2) + [FirstMerge()]
    else if n == 4 then Log(3) + [FlushEdit(1, Upper())]
    else Log(4) + [SecondMerge()]
  }

  function Writes(n: nat): seq<Entry> {
    if n == 2 then [A_OLD, B_VALUE] else if n == 3 then [A_OLD, B_VALUE, B_DELETED] else [A_OLD, B_VALUE, B_DELETED, A_NEW]
  }

  // ----- the run -----

  function FirstOps(): seq<(Key, Op)> {
    [(0.0, Put("old")), (1.0, Put("back again"))]
  }

  function Moment(i: nat): State {
    var none, base, marked, cut := Two([], []), Two([], [Base()]), Two([Marker()], [Base()]), Two([], [Left(), Right()]);
    if i == 0 then State([], None, none, 0, [], 2, None, none, [], 0, Log(0), [])
    else if i == 1 then State(Writes(2), None, none, 2, [], 2, None, none, Writes(2), 0, Log(0), [])
    else if i == 2 then State([], Some(Writes(2)), none, 2, [], 3, None, none, Writes(2), 0, Log(0), [])
    else if i == 3 then State([], None, base, 2, [], 4, None, none, Writes(2), 0, Log(1), [])
    else if i == 4 then State([], None, base, 2, [2], 4, None, none, Writes(2), 0, Log(1), [])
    else if i == 5 then State([B_DELETED], None, base, 3, [2], 4, None, none, Writes(3), 0, Log(1), [])
    else if i == 6 then State([], Some([B_DELETED]), base, 3, [2], 5, None, none, Writes(3), 0, Log(1), [])
    else if i == 7 then State([], None, marked, 3, [2], 6, None, none, Writes(3), 0, Log(2), [])
    else if i == 8 then State([], None, marked, 3, [2], 6, Some(First()), marked, Writes(3), 2, Log(2), [])
    else if i == 9 then State([], None, cut, 3, [2], 8, None, marked, Writes(3), 2, Log(3), [])
    else if i == 10 then State([], None, cut, 3, [], 8, None, marked, Writes(3), 2, Log(3), [])
    else if i == 11 then State([A_NEW], None, cut, 4, [], 8, None, marked, Writes(4), 2, Log(3), [])
    else if i == 12 then State([], Some([A_NEW]), cut, 4, [], 9, None, marked, Writes(4), 2, Log(3), [])
    else if i == 13 then State([], None, Store(), 4, [], 10, None, marked, Writes(4), 2, Log(4), [])
    else if i == 14 then State([], None, Store(), 4, [], 10, Some(Second()), Store(), Writes(4), 4, Log(4), [])
    else State([], None, Two([], [Merged(), Right()]), 4, [], 11, None, Store(), Writes(4), 4, Log(5), [])
  }

  function Deed(i: nat): Action {
    if i == 0 then Write(FirstOps())
    else if i == 1 then SwitchMemtable
    else if i == 2 then Flush(2, 2)
    else if i == 3 then TakeSnapshot
    else if i == 4 then Write([(1.0, Deletion)])
    else if i == 5 then SwitchMemtable
    else if i == 6 then Flush(1, 1)
    else if i == 7 then StartCompaction(First())
    else if i == 8 then FinishCompaction([Left(), Right()])
    else if i == 9 then ReleaseSnapshot(0)
    else if i == 10 then Write([(0.0, Put("new"))])
    else if i == 11 then SwitchMemtable
    else if i == 12 then Flush(1, 1)
    else if i == 13 then StartCompaction(Second())
    else FinishCompaction([Merged()])
  }

  // ----- its steps -----

  // An output file is full with two entries.
  ghost predicate Follows(i: nat) {
    Next(Moment(i), Deed(i), Moment(i + 1)) && AsTheCodeDoes(Moment(i), Deed(i), 2) && !Colliding(Moment(i), Deed(i))
  }

  lemma FirstBatch()
    ensures Stamp(0, FirstOps()) == Writes(2) && InsertAll([], Writes(2)) == Writes(2)
  {
    var es := Writes(2);
    assert Stamp(0, FirstOps()) == [A_OLD, B_VALUE];
    assert es[..1] == [A_OLD] && [A_OLD][..0] == [] && [A_OLD][1..] == [];
    assert InsertAll([], [A_OLD]) == Insert(InsertAll([], []), A_OLD) == [A_OLD];
    assert InsertAll([], es) == Insert(InsertAll([], es[..1]), B_VALUE);
  }

  lemma Step0()
    ensures Follows(0)
  {
    hide Stamp, InsertAll, Two, Log;
    FirstBatch();
    assert [] + Writes(2) == Writes(2);
    WriteNext(Moment(0), FirstOps(), Writes(2), Writes(2), Writes(2), Moment(1));
  }

  lemma Switches(i: nat)
    requires i == 1 || i == 5 || i == 11
    ensures Follows(i)
  {
    hide Two, Log, Writes;
  }

  lemma BaseIsFlushed()
    ensures FlushEdit(2, Base()).Valid() && Applied(Two([], []), FlushEdit(2, Base())) == Two([], [Base()])
  {
    hide InOrder, Applied;
    EmptyIsTwo();
    EmptyIsInOrder();
    OneInOrder(Base());
    TwoInOrder([], [Base()]);
    FlushedIs(Two([], []), 2, Base(), Two([], [Base()]));
  }

  lemma Step2()
    ensures Follows(2)
  {
    hide Two, Applied, FreePlace, IsPicked, Next, AsTheCodeDoes, Edit.Valid;
    BaseIsFlushed();
    NoFilesNoSize();
    GoesToTwo([], [], Base(), 2);
    assert [] + [FlushEdit(2, Base())] == [FlushEdit(2, Base())];
    FlushTo(Moment(2), 2, Base(), Moment(3));
    PickedTo(Moment(2), 2, Base(), 2);
  }

  lemma Step3()
    ensures Follows(3)
  {
    hide Two, Log, Writes;
  }

  lemma Step4()
    ensures Follows(4)
  {
    hide Two, Log, Next;
    assert Writes(2) + [B_DELETED] == Writes(3);
    WriteOne(Moment(4), 1.0, Deletion, B_DELETED, Writes(3), Moment(5));
  }

  lemma MarkerIsFlushed()
    ensures FlushEdit(1, Marker()).Valid() && Applied(Two([], [Base()]), FlushEdit(1, Marker())) == Two([Marker()], [Base()])
  {
    hide InOrder, Applied;
    EmptyIsInOrder();
    OneInOrder(Base());
    OneInOrder(Marker());
    TwoInOrder([], [Base()]);
    TwoInOrder([Marker()], [Base()]);
    FlushedIs(Two([], [Base()]), 1, Marker(), Two([Marker()], [Base()]));
  }

  lemma Step6()
    ensures Follows(6)
  {
    hide Two, Applied, FreePlace, IsPicked, Next, AsTheCodeDoes, Edit.Valid, Writes;
    MarkerIsFlushed();
    assert Base() in [Base()];
    OneSize(Base());
    GoesToOne([], [Base()], Marker(), Base(), 2);
    FlushTo(Moment(6), 1, Marker(), Moment(7));
    PickedTo(Moment(6), 1, Marker(), 2);
  }

  lemma OneSize(f: File)
    ensures TotalFileSize([f]) == f.size
  {
    assert [f][1..] == [];
  }

  lemma BaseOverlaps()
    ensures Overlapping([Base()], Hull([Marker()])) == [Base()]
  {
    hide Hull, Overlapping;
    HullOfOne(Marker());
    var r, fs := Hull([Marker()]), [Base()];
    assert r.Touches(fs[0]);
    OverlappingStep(fs, 0, r);
    NothingOverlaps(fs, r);
    assert fs[..1] == fs;
  }

  lemma FirstIsSelected()
    ensures Selects(Two([Marker()], [Base()]), 1, [Marker()], [Base()])
  {
    hide Hull, Overlapping, Distinct, LeavesNewer, Marker, Base;
    BaseOverlaps();
    AloneInLevel(Marker());
  }

  lemma Step7()
    ensures Follows(7)
  {
    hide Selects, Two, Log, Writes, AsTheCodeDoes, Overlapping, Hull;
    FirstIsSelected();
    BaseOverlaps();
    OnePicked(Moment(7), Marker(), [Base()], [Base()], 2);
  }

  lemma FirstMerges()
    ensures MergeFiles([Marker()] + [Base()]) == [A_OLD, B_DELETED, B_VALUE]
  {
    var fs := [Marker()] + [Base()];
    assert fs[1..] == [Base()] && [Base()][1..] == [];
    assert MergeFiles([]) == [];
    assert MergeFiles([Base()]) == Merge([A_OLD, B_VALUE], []) == [A_OLD, B_VALUE];
    assert [A_OLD, B_VALUE][1..] == [B_VALUE] && [B_DELETED][1..] == [];
    assert Merge([B_DELETED], [B_VALUE]) == [B_DELETED] + Merge([], [B_VALUE]);
    assert Merge([B_DELETED], [A_OLD, B_VALUE]) == [A_OLD] + Merge([B_DELETED], [B_VALUE]);
  }

  // The snapshot reads at 2, so the marker hides nothing from it and is kept.
  lemma FirstKept()
    ensures Kept(Two([Marker()], [Base()]), 1, [A_OLD, B_DELETED, B_VALUE], 3, 2) == [A_OLD, B_DELETED, B_VALUE]
  {
    hide Two;
    var v, es := Two([Marker()], [Base()]), [A_OLD, B_DELETED, B_VALUE];
    assert !Dropped(v, 1, es, 0, 2) && !Dropped(v, 1, es, 1, 2) && !Dropped(v, 1, es, 2, 2);
    assert Kept(v, 1, es, 0, 2) == [];
    assert Kept(v, 1, es, 1, 2) == [A_OLD];
    assert Kept(v, 1, es, 2, 2) == [A_OLD, B_DELETED];
  }

  lemma FirstDeletes()
    ensures FirstMerge().Valid()
    ensures forall l: nat, n: nat :: (l, n) in FirstMerge().deleted <==> (l == 1 && n == 5) || (l == 2 && n == 3)
  {
    var j := First();
    assert j.inputs0[0].number == 5 && j.inputs1[0].number == 3;
    assert (1, j.inputs0[0].number) in FirstMerge().deleted && (2, j.inputs1[0].number) in FirstMerge().deleted;
  }

  lemma FirstInstalled()
    ensures FirstMerge().Valid() && Applied(Two([Marker()], [Base()]), FirstMerge()) == Two([], [Left(), Right()])
  {
    hide InOrder, Applied;
    EmptyIsInOrder();
    OneInOrder(Base());
    OneInOrder(Marker());
    PairInOrder(Left(), Right());
    TwoInOrder([Marker()], [Base()]);
    TwoInOrder([], [Left(), Right()]);
    forall l: nat, f: File ensures Adds(FirstMerge(), l, f) <==> l == 2 && (f == Left() || f == Right()) {
      CompactionAdds(First(), [Left(), Right()], l, f);
    }
    FirstDeletes();
    AppliedIs(Two([Marker()], [Base()]), FirstMerge(), Two([], [Left(), Right()]));
  }

  lemma Step8()
    ensures Follows(8)
  {
    hide Two, Applied, Kept, MergeFiles, Flatten, Writes, Bridges, Edit.Valid, AsTheCodeDoes;
    FirstInstalled();
    FirstMerges();
    FirstKept();
    FlattenedTwo(Left(), Right());
    assert Left().entries + Right().entries == [A_OLD, B_DELETED, B_VALUE];
    FinishedBySize(Moment(8), [Marker()], [Base()], [Left(), Right()], 2);
    NothingCollides(Moment(8).v, First(), KeptBy(Moment(8)), [Left(), Right()]);
  }

  lemma Step9()
    ensures Follows(9)
  {
    hide Two, Log, Writes;
    assert [2][..0] + [2][1..] == [];
  }

  lemma Step10()
    ensures Follows(10)
  {
    hide Two, Log, Next;
    assert Writes(3) + [A_NEW] == Writes(4);
    WriteOne(Moment(10), 0.0, Put("new"), A_NEW, Writes(4), Moment(11));
  }

  lemma UpperIsFlushed()
    ensures FlushEdit(1, Upper()).Valid() && Applied(Two([], [Left(), Right()]), FlushEdit(1, Upper())) == Store()
  {
    hide InOrder, Applied;
    EmptyIsInOrder();
    OneInOrder(Upper());
    PairInOrder(Left(), Right());
    TwoInOrder([], [Left(), Right()]);
    TwoInOrder([Upper()], [Left(), Right()]);
    FlushedIs(Two([], [Left(), Right()]), 1, Upper(), Store());
  }

  lemma Step12()
    ensures Follows(12)
  {
    hide Two, Applied, FreePlace, IsPicked, Next, AsTheCodeDoes, Edit.Valid, Writes;
    UpperIsFlushed();
    assert Left() in [Left(), Right()];
    OneSize(Left());
    SizeSnoc([Left()], Right());
    assert [Left()] + [Right()] == [Left(), Right()];
    GoesToOne([], [Left(), Right()], Upper(), Left(), 2);
    FlushTo(Moment(12), 1, Upper(), Moment(13));
    PickedTo(Moment(12), 1, Upper(), 2);
  }

  lemma HullOfOne(f: File)
    ensures Hull([f]) == Range(Some(f.Smallest().key), Some(f.Largest().key))
  {
  }

  // The key of the upper file is in the left one only.
  lemma LeftOverlaps()
    ensures Overlapping([Left(), Right()], Hull([Upper()])) == [Left()]
  {
    hide Hull, Overlapping;
    HullOfOne(Upper());
    var r, fs := Hull([Upper()]), [Left(), Right()];
    assert r.Touches(fs[0]) && !r.Touches(fs[1]);
    OverlappingStep(fs, 0, r);
    OverlappingStep(fs, 1, r);
    NothingOverlaps(fs, r);
    assert fs[..2] == fs;
  }

  // A single file of its level leaves nothing behind.
  lemma AloneInLevel(f: File)
    ensures Distinct([f]) && LeavesNewer([f], [f]) && f in [f]
  {
    hide Newer;
  }

  lemma SecondIsSelected()
    ensures Selects(Store(), 1, Second().inputs0, Second().inputs1)
  {
    hide Hull, Overlapping, Distinct, LeavesNewer, Upper, Left, Right;
    LeftOverlaps();
    AloneInLevel(Upper());
  }

  lemma Step13()
    ensures Follows(13)
  {
    hide Selects, Two, Log, Writes, AsTheCodeDoes, Overlapping, Hull;
    SecondIsSelected();
    LeftOverlaps();
    OnePicked(Moment(13), Upper(), [Left(), Right()], [Left()], 2);
  }

  lemma SecondMerges()
    ensures MergeFiles([Upper()] + [Left()]) == [A_NEW, A_OLD, B_DELETED]
  {
    var fs := [Upper()] + [Left()];
    assert fs[1..] == [Left()] && [Left()][1..] == [];
    assert MergeFiles([]) == [];
    assert MergeFiles([Left()]) == Merge([A_OLD, B_DELETED], []) == [A_OLD, B_DELETED];
    assert [A_NEW][1..] == [];
    assert Merge([A_NEW], [A_OLD, B_DELETED]) == [A_NEW] + Merge([], [A_OLD, B_DELETED]);
  }

  // The older value of a is hidden, and nothing deeper than level 2 holds b.
  lemma SecondKept()
    ensures Kept(Store(), 1, [A_NEW, A_OLD, B_DELETED], 3, 4) == [A_NEW]
  {
    var es, v := [A_NEW, A_OLD, B_DELETED], Store();
    assert !Dropped(v, 1, es, 0, 4) && Dropped(v, 1, es, 1, 4);
    assert IsBase(v, 1, 1.0);
    assert Dropped(v, 1, es, 2, 4);
    assert Kept(v, 1, es, 0, 4) == [];
    assert Kept(v, 1, es, 1, 4) == [A_NEW];
    assert Kept(v, 1, es, 2, 4) == [A_NEW];
  }

  lemma SecondDeletes()
    ensures SecondMerge().Valid()
    ensures forall l: nat, n: nat :: (l, n) in SecondMerge().deleted <==> (l == 1 && n == 9) || (l == 2 && n == 6)
  {
    var j := Second();
    assert j.inputs0[0].number == 9 && j.inputs1[0].number == 6;
    assert (1, j.inputs0[0].number) in SecondMerge().deleted && (2, j.inputs1[0].number) in SecondMerge().deleted;
  }

  lemma SecondInstalled()
    ensures SecondMerge().Valid() && Applied(Store(), SecondMerge()) == Two([], [Merged(), Right()])
  {
    hide InOrder, Applied;
    EmptyIsInOrder();
    OneInOrder(Upper());
    PairInOrder(Left(), Right());
    PairInOrder(Merged(), Right());
    TwoInOrder([Upper()], [Left(), Right()]);
    TwoInOrder([], [Merged(), Right()]);
    forall l: nat, f: File ensures Adds(SecondMerge(), l, f) <==> l == 2 && f == Merged() {
      CompactionAdds(Second(), [Merged()], l, f);
    }
    SecondDeletes();
    AppliedIs(Store(), SecondMerge(), Two([], [Merged(), Right()]));
  }

  lemma Step14()
    ensures Follows(14)
  {
    hide Two, Applied, Kept, MergeFiles, Flatten, Writes, Bridges, Edit.Valid, AsTheCodeDoes;
    SecondInstalled();
    SecondMerges();
    SecondKept();
    FlattenedTwo(Merged(), Merged());
    FinishedBySize(Moment(14), [Upper()], [Left(), Right()], [Merged()], 2);
    NothingCollides(Moment(14).v, Second(), KeptBy(Moment(14)), [Merged()]);
  }

  lemma AllFollow(i: nat)
    requires i < 15
    ensures Follows(i)
  {
    hide Follows;
    if i == 0 { Step0(); } else if i == 2 { Step2(); } else if i == 3 { Step3(); } else if i == 4 { Step4(); }
    else if i == 6 { Step6(); } else if i == 7 { Step7(); } else if i == 8 { Step8(); } else if i == 9 { Step9(); }
    else if i == 10 { Step10(); } else if i == 12 { Step12(); } else if i == 13 { Step13(); } else if i == 14 { Step14(); }
    else { Switches(i); }
  }

  function Story(): (states: seq<State>)
    ensures |states| == 16
  {
    seq(16, i requires i >= 0 => Moment(i))
  }

  function Plot(): (actions: seq<Action>)
    ensures |actions| == 15
  {
    seq(15, i requires i >= 0 => Deed(i))
  }

  lemma StoryIsRun()
    ensures IsRunOf(Story(), Plot())
    ensures forall i | 0 <= i < 15 :: AsTheCodeDoes(Story()[i], Plot()[i], 2) && !Colliding(Story()[i], Plot()[i])
  {
    hide Next, Moment, Deed, Colliding, AsTheCodeDoes;
    assert Moment(0) == Initial() by { BeginsAtTheBeginning(); }
    forall i | 0 <= i < 15
      ensures Next(Moment(i), Deed(i), Moment(i + 1)) && AsTheCodeDoes(Moment(i), Deed(i), 2) && !Colliding(Moment(i), Deed(i))
    {
      AllFollow(i);
    }
  }

  lemma BeginsAtTheBeginning()
    ensures Moment(0) == Initial()
  {
    EmptyIsTwo();
  }

  // ----- what is read at the end -----

  lemma EndOfStory()
    ensures var s := Moment(15);
      && s.v == Two([], [Merged(), Right()]) && s.mem == [] && s.imm == None
      && s.hist == Writes(4) && s.floor == s.lastSequence == 4
  {
  }

  lemma InLower()
    ensures forall e :: InFiles([Merged(), Right()], e) <==> e == A_NEW || e == B_VALUE
    ensures forall e :: !InFiles([], e)
  {
    var fs := [Merged(), Right()];
    assert Merged() in fs && Right() in fs;
    assert A_NEW in Merged().entries && B_VALUE in Right().entries;
  }

  lemma AtTheEnd()
    ensures forall e :: e in All(Moment(15)) <==> e == A_NEW || e == B_VALUE
  {
    hide Moment, Two, ContentsFrom, InFiles;
    EndOfStory();
    InLower();
    InTwo([], [Merged(), Right()]);
  }

  lemma HistorySays()
    ensures Lookup(Writes(4), 1.0, 4) == None
  {
    var hist := Writes(4);
    assert hist[..3] == Writes(3);
    assert !Matches(A_NEW, 1.0, 4) && Matches(B_DELETED, 1.0, 4);
    assert Lookup(hist, 1.0, 4) == Lookup(Writes(3), 1.0, 4) == None;
  }

  lemma ReadAtTheEnd()
    requires Unique(All(Moment(15)))
    ensures Read(All(Moment(15)), 1.0, 4) == Some("back again")
  {
    hide Moment, All, Read;
    AtTheEnd();
    var c := All(Moment(15));
    assert Shows(c, 1.0, 4, B_VALUE);
    ReadShown(c, 1.0, 4, B_VALUE);
  }

  // Reads do go wrong: a run from the beginning, with every table flushed and every output cut as the code
  // does it, and at its end a reader of the present sees a value that the history has deleted.  So the
  // condition on the compactions of a run cannot be dropped.
  lemma ReadsCanGoWrong()
    ensures IsRunOf(Story(), Plot())
    ensures forall i | 0 <= i < 15 :: AsTheCodeDoes(Story()[i], Plot()[i], 2) && !Colliding(Story()[i], Plot()[i])
    ensures var s := Story()[15];
      && Structure(s) && s.floor <= s.lastSequence == 4
      && Lookup(s.hist, 1.0, 4) == None && Read(All(s), 1.0, 4) == Some("back again")
      && !ReadsRight(s)
    ensures !NeverResurrects(Story(), Plot())
  {
    hide Structure, Layered, Moment, All, Lookup, Read, NeverResurrects, IsRunOf, Unique, Colliding, AsTheCodeDoes;
    StoryIsRun();
    RunsAreRight(Story(), Plot(), 15);
    var s := Moment(15);
    assert Story()[15] == s;
    EndOfStory();
    HistorySays();
    StructureIsLayered(s);
    AllIsUnique(s);
    ReadAtTheEnd();
  }

  lemma StructureIsLayered(s: State)
    requires Structure(s)
    ensures Layered(s)
  {
    hide Layered, Settled, ManifestMatches, JobFits;
  }

  // ----- the compaction by itself -----

  lemma InStore()
    ensures forall e :: InFiles([Upper()], e) <==> e == A_NEW
    ensures forall e :: InFiles([Left(), Right()], e) <==> e == A_OLD || e == B_DELETED || e == B_VALUE
  {
    var lower := [Left(), Right()];
    assert Upper() in [Upper()] && Left() in lower && Right() in lower;
    assert A_NEW in Upper().entries && A_OLD in Left().entries && B_DELETED in Left().entries && B_VALUE in Right().entries;
  }

  lemma StoreContents()
    ensures forall e :: e in ContentsFrom(Store(), 0) <==> e == A_NEW || e == A_OLD || e == B_DELETED || e == B_VALUE
  {
    hide InFiles, ContentsFrom, Two;
    InStore();
    InTwo([Upper()], [Left(), Right()]);
  }

  // It is the version of the story before its last compaction.
  lemma StoreIsValid()
    ensures ValidVersion(Store())
    ensures forall e :: e in ContentsFrom(Store(), 0) <==> e == A_NEW || e == A_OLD || e == B_DELETED || e == B_VALUE
  {
    hide Structure, Moment, IsRunOf, Colliding, AsTheCodeDoes, ValidVersion, ReadsRight, Two, ContentsFrom;
    StoryIsRun();
    RunsAreRight(Story(), Plot(), 13);
    assert Story()[13] == Moment(13);
    BeforeTheEnd();
    StructureIsValid(Moment(13));
    StoreContents();
  }

  lemma BeforeTheEnd()
    ensures Moment(13).v == Store()
  {
  }

  lemma StructureIsValid(s: State)
    requires Structure(s)
    ensures ValidVersion(s.v)
  {
    hide ValidVersion, Layered, ManifestMatches, JobFits;
  }

  lemma JobIsSet()
    ensures Setting(iset{}, Store(), Second())
  {
    hide ValidVersion, Selects, InLevels;
    StoreIsValid();
    SecondIsSelected();
  }

  // A reader at 4 sees b deleted before the compaction of the upper file with the left one, and sees its old value
  // afterwards.
  lemma CompactionCanResurrect(es: seq<Entry>)
    requires IsInput(Second(), es)
    ensures Setting(iset{}, Store(), Second())
    ensures Read(Whole(iset{}, Store()), 1.0, 4) == None
    ensures Read(After(iset{}, Store(), Second(), es, 4), 1.0, 4) == Some("back again")
  {
    hide Setting, IsInput, Kept, Read, ContentsFrom, After, Straddles, IsBase, InFiles, ValidVersion;
    var before, after := Whole(iset{}, Store()), After(iset{}, Store(), Second(), es, 4);
    JobIsSet();
    ResurrectionIsHere();
    ResurrectionIsSeen(iset{}, Store(), Second(), es, 4, 0, Right(), B_DELETED);
    AfterIsPart(iset{}, Store(), Second(), es, 4);
    ReadShown(before, 1.0, 4, B_DELETED);
    StoreIsValid();
    if e :| e in after && Matches(e, 1.0, 4) {
      var x := SomethingShows(after, 1.0, 4, e);
      ReadShown(after, 1.0, 4, x);
    } else {
      ReadAbsent(after, 1.0, 4);
    }
  }

  lemma ResurrectionIsHere()
    ensures Resurrects(iset{}, Store(), Second(), 4, 0, Right(), B_DELETED)
  {
    hide ValidVersion, InLevels;
    StoreIsValid();
    assert Straddles(Store(), Second(), 0, Right());
    assert Left() in Second().inputs1 && B_DELETED in Left().entries;
    assert forall l | 3 <= l < NUM_LEVELS :: Store()[l] == [];
  }
}
