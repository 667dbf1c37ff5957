/** The logs of the two memtables along a run, and what the files hold by themselves: what a restart has to
    build on. */
module EngineLogs {
  import opened Naturals
  import opened Options
  import opened InternalKeys
  import opened Versions
  import opened VersionEdits
  import opened CompactionInputs
  import opened Compactions
  import opened CompactionReads
  import opened Installs
  import opened Engine
  import opened EngineRuns

  // ----- the logs -----

  // A batch in a log: its operations get the sequence numbers after `last`.
  datatype Logged = Logged(last: nat, ops: seq<(Key, Op)>)

  // What a log says was written.
  function EntriesOf(log: seq<Logged>): seq<Entry> {
    if log == [] then [] else
      var n := |log| - 1;
      EntriesOf(log[..n]) + Stamp(log[n].last, log[n].ops)
  }

  // How many writes are in files, and the logs of the other ones.
  datatype Durable = Durable(filed: nat, immLog: seq<Logged>, memLog: seq<Logged>)

  // A write goes to the log of the memtable; the switch begins a new log, and the old one is needed until
  // its memtable has been flushed.
  function Logs1(s: State, a: Action, d: Durable): Durable {
    match a
    case Write(ops) => d.(memLog := d.memLog + [Logged(s.lastSequence, ops)])
    case SwitchMemtable => Durable(d.filed, d.memLog, [])
    case Flush(_, _) => Durable(d.filed + |EntriesOf(d.immLog)|, [], d.memLog)
    case _ => d
  }

  ghost function LogsOf(states: seq<State>, actions: seq<Action>, n: nat): Durable
    requires n < |states| == |actions| + 1
  {
    if n == 0 then Durable(0, [], []) else Logs1(states[n - 1], actions[n - 1], LogsOf(states, actions, n - 1))
  }

  // Files and logs together hold the history, in this order.
  ghost predicate LogsFit(s: State, d: Durable) {
    && s.mem == InsertAll([], EntriesOf(d.memLog))
    && ImmEntries(s) == InsertAll([], EntriesOf(d.immLog)) && (s.imm.None? ==> d.immLog == [])
    && d.filed <= |s.hist| && s.hist == s.hist[..d.filed] + EntriesOf(d.immLog) + EntriesOf(d.memLog)
    && Tree(s) <= Of(s.hist[..d.filed])
  }

  // ----- entries of logs and memtables -----

  lemma EntriesOfOneMore(log: seq<Logged>, b: Logged)
    ensures EntriesOf(log + [b]) == EntriesOf(log) + Stamp(b.last, b.ops)
  {
    assert (log + [b])[..|log|] == log;
  }

  lemma {:induction false} InsertedBoth(mem: seq<Entry>, a: seq<Entry>, b: seq<Entry>)
    ensures InsertAll(mem, a + b) == InsertAll(InsertAll(mem, a), b)
    decreases b
  {
    hide Insert;
    if b == [] {
      assert a + b == a;
    } else {
      var n := |b| - 1;
      InsertedBoth(mem, a, b[..n]);
      assert (a + b)[..|a + b| - 1] == a + b[..n] && (a + b)[|a + b| - 1] == b[n];
    }
  }

  lemma {:induction false} InsertMembers(es: seq<Entry>, e: Entry)
    ensures Of(Insert(es, e)) == Of(es) + iset{e}
  {
    hide Before;
    if es != [] && !Before(e, es[0]) {
      InsertMembers(es[1..], e);
      assert es == [es[0]] + es[1..];
      assert forall x :: x in Insert(es[1..], e) <==> x in Of(Insert(es[1..], e));
    }
  }

  lemma {:induction false} InsertedMembers(es: seq<Entry>)
    ensures Of(InsertAll([], es)) == Of(es)
  {
    hide Insert;
    if es != [] {
      var n := |es| - 1;
      InsertedMembers(es[..n]);
      InsertMembers(InsertAll([], es[..n]), es[n]);
      OfSnoc(es[..n], es[n]);
      assert es == es[..n] + [es[n]];
    }
  }

  lemma OfBoth(a: seq<Entry>, b: seq<Entry>)
    ensures Of(a + b) == Of(a) + Of(b)
  {
  }

  lemma NothingOf()
    ensures Of([]) == iset{}
  {
  }

  // ----- what the steps do to the files -----

  lemma FlushTree(s: State, at: nat, size: nat, s': State)
    requires Structure(s) && FlushNext(s, at, size, s')
    ensures Tree(s') == Of(ImmEntries(s)) + Tree(s)
    ensures s' == s.(imm := None, nextFile := s'.nextFile, v := s'.v, edits := s'.edits)
  {
    hide Layered, ValidVersion, AllInOrder, NumbersBelow, NumbersAreUnique, FreePlace, Applied, ContentsFrom, ManifestMatches,
      SnapshotsAbove, JobFits, Extends, Sinks;
    if s.imm.value == [] {
      EmptyEditKeeps(s.v, s.nextFile);
      NothingOf();
    } else {
      var f: File := Table(s.nextFile, size, s.imm.value);
      FlushExtends(s.v, s.nextFile, at, f);
      ExtendedContents(s.v, s'.v, at, f);
    }
  }

  lemma MoveTree(s: State, j: Job, s': State)
    requires Structure(s) && MoveNext(s, j, s')
    ensures Tree(s') == Tree(s)
  {
    hide Structure, Selects, Logs, Fits, ContentsFrom, Rest, Taken, ContentsOf, Replaces;
    SettledAndLayered(s);
    StartFits(s, j);
    FitsInputs(j, s.v, s.v);
    MovedFiles(s, j, s');
    ReplacedContents(s.v, s'.v, j, j.inputs0);
    OverlaidItself(s.v);
    assert InMemory(s) + Since(s.v, s.v) == InMemory(s);
    SettingOf(s, s.v, j);
    TakenOrRest(InMemory(s), s.v, j);
    assert j.inputs0 + j.inputs1 == j.inputs0;
    assert Taken(j) == ContentsOf(j.inputs0) by { TakenIs(j); }
  }

  lemma TakenIs(j: Job)
    ensures Taken(j) == ContentsOf(j.inputs0 + j.inputs1)
  {
  }

  lemma MovedFiles(s: State, j: Job, s': State)
    requires Structure(s) && MoveNext(s, j, s')
    ensures Replaces(s.v, s'.v, j, j.inputs0)
  {
    hide Layered, ValidVersion, Selects, Fits, ManifestMatches, SnapshotsAbove, JobFits, Applied, AllInOrder, Replaces;
    SettledAndLayered(s);
    StartFits(s, j);
    FitsInputs(j, s.v, s.v);
    assert OutputNumbers(s.v, j, j.inputs0, s.begun, s.nextFile, s.nextFile);
    CompactionReplaces(s.v, j, j.inputs0, s.begun, s.nextFile, s.nextFile);
  }

  lemma FinishTree(s: State, outputs: seq<File>, s': State)
    requires Structure(s) && FinishNext(s, outputs, s')
    ensures var j, b := s.running.value, s.inputVersion;
      && Tree(s') == Since(b, s.v) + Rest(b, j) + Of(KeptBy(s)) && Tree(s) == Since(b, s.v) + ContentsFrom(b, 0)
      && Of(KeptBy(s)) <= Taken(j) && Setting(InMemory(s) + Since(b, s.v), b, j)
      && IsInput(j, MergeFiles(j.inputs0 + j.inputs1))
  {
    hide Layered, ValidVersion, Selects, Fits, ManifestMatches, SnapshotsAbove, Applied, AllInOrder, Replaces, KeptBy, Kept,
      Outputs, ContentsFrom, Rest, Since, Overlaid, Setting, Taken, IsInput, NumbersBelow, NumbersAreUnique;
    var j, b := s.running.value, s.inputVersion;
    SettledAndLayered(s);
    SettingOf(s, b, j);
    FinishOutputs(s, outputs, s');
    KeptAreInputs(s);
    FitsInputs(j, b, s.v);
    FitsOverlaid(j, b, s.v);
    NewNumbersOnly(s, j, outputs);
    CompactionReplaces(s.v, j, outputs, s.begun, s.nextFile, NextAfter(s.begun, s.nextFile, |outputs|));
    ReplacedContents(s.v, s'.v, j, outputs);
    OverlaidRest(b, s.v, j);
    OverlaidContents(b, s.v);
  }

  // ----- along a run -----

  lemma FinishKeepsWhole(s: State, outputs: seq<File>, s': State)
    requires Structure(s) && FinishNext(s, outputs, s')
    ensures Tree(s') <= Tree(s)
  {
    hide Structure, FinishNext, Since, Rest, ContentsFrom, KeptBy, Setting, Taken, IsInput;
    FinishRuns(s, outputs, s');
    FinishTree(s, outputs, s');
    var j, b := s.running.value, s.inputVersion;
    TakenOrRest(InMemory(s) + Since(b, s.v), b, j);
  }

  lemma WriteFits(s: State, ops: seq<(Key, Op)>, s': State, d: Durable)
    requires LogsFit(s, d) && Next(s, Write(ops), s')
    ensures LogsFit(s', Logs1(s, Write(ops), d))
  {
    hide Stamp, InsertAll, EntriesOf, ContentsFrom;
    var es := Stamp(s.lastSequence, ops);
    EntriesOfOneMore(d.memLog, Logged(s.lastSequence, ops));
    InsertedBoth([], EntriesOf(d.memLog), es);
    assert s'.hist[..d.filed] == s.hist[..d.filed];
    assert s.hist + es == s.hist[..d.filed] + EntriesOf(d.immLog) + (EntriesOf(d.memLog) + es);
  }

  lemma SwitchFits(s: State, s': State, d: Durable)
    requires LogsFit(s, d) && Next(s, SwitchMemtable, s')
    ensures LogsFit(s', Logs1(s, SwitchMemtable, d))
  {
    hide ContentsFrom;
    assert EntriesOf([]) == [];
    assert s.hist[..d.filed] + [] + EntriesOf(d.memLog) == s.hist[..d.filed] + EntriesOf(d.memLog) + [];
  }

  lemma FlushFits(s: State, at: nat, size: nat, s': State, d: Durable)
    requires Structure(s) && LogsFit(s, d) && FlushNext(s, at, size, s')
    ensures LogsFit(s', Logs1(s, Flush(at, size), d))
  {
    hide Structure, FlushNext, ContentsFrom, InsertAll;
    FlushTree(s, at, size, s');
    InsertedMembers(EntriesOf(d.immLog));
    NothingInserted();
    var filed, es := s.hist[..d.filed], EntriesOf(d.immLog);
    assert s.hist[..d.filed + |es|] == filed + es;
    OfBoth(filed, es);
    assert filed + es + EntriesOf([]) + EntriesOf(d.memLog) == filed + es + EntriesOf(d.memLog);
  }

  lemma NothingInserted()
    ensures InsertAll([], EntriesOf([])) == [] && EntriesOf([]) == []
  {
  }

  lemma SameLogs(s: State, s': State, d: Durable)
    requires LogsFit(s, d) && s'.mem == s.mem && s'.imm == s.imm && s'.hist == s.hist && Tree(s') <= Tree(s)
    ensures LogsFit(s', d)
  {
    hide ContentsFrom, InsertAll;
  }

  lemma StepLogsFit(s: State, a: Action, s': State, d: Durable)
    requires Structure(s) && Next(s, a, s') && LogsFit(s, d)
    ensures LogsFit(s', Logs1(s, a, d))
  {
    hide Structure, LogsFit, FlushNext, MoveNext, FinishNext, CanSelect, Tree;
    match a
    case Write(ops) => WriteFits(s, ops, s', d);
    case SwitchMemtable => SwitchFits(s, s', d);
    case Flush(at, size) => FlushFits(s, at, size, s', d);
    case Move(j) =>
      MoveTree(s, j, s');
      MoveFrame(s, j, s');
      SameLogs(s, s', d);
    case FinishCompaction(outputs) =>
      FinishKeepsWhole(s, outputs, s');
      FinishFrame(s, outputs, s');
      SameLogs(s, s', d);
    case _ =>
      SameTreeHere(s, s');
      SameLogs(s, s', d);
  }

  lemma SameTreeHere(s: State, s': State)
    requires s'.v == s.v
    ensures Tree(s') == Tree(s)
  {
  }

  lemma FinishFrame(s: State, outputs: seq<File>, s': State)
    requires FinishNext(s, outputs, s')
    ensures s'.hist == s.hist && s'.floor == s.floor && s'.mem == s.mem && s'.imm == s.imm
  {
  }

  // In every run, files and logs together hold the history.
  lemma {:induction false} RunLogsFit(states: seq<State>, actions: seq<Action>, n: nat)
    requires IsRunOf(states, actions) && n < |states| && NeverCollides(states, actions, n)
    ensures Structure(states[n]) && LogsFit(states[n], LogsOf(states, actions, n))
  {
    hide Structure, Next, Colliding, LogsFit, Logs1;
    if n == 0 {
      InitialIsRight();
      StartFits0();
    } else {
      RunLogsFit(states, actions, n - 1);
      StepKeepsStructure(states[n - 1], actions[n - 1], states[n]);
      StepLogsFit(states[n - 1], actions[n - 1], states[n], LogsOf(states, actions, n - 1));
    }
  }

  lemma StartFits0()
    ensures LogsFit(Initial(), Durable(0, [], []))
  {
    hide ContentsFrom;
    EmptyTree();
    NothingInserted();
  }

  // ----- reading what the files hold -----

  // A history on top of a store that answers for an earlier part of it.
  lemma ReadOnTop(c: Contents, h: seq<Entry>, es: seq<Entry>, k: Key, t: nat)
    requires IsHistory(h + es) && c <= Of(h) && Read(c, k, t) == Lookup(h, k, t)
    ensures Read(Of(es) + c, k, t) == Lookup(h + es, k, t)
  {
    hide Lookup, Read;
    var all := h + es;
    OfBoth(h, es);
    HistoryIsUnique(all);
    PrefixIsHistory(h, es);
    LookupIsRead(h, k, t);
    LookupIsRead(all, k, t);
    assert Of(all) == Of(es) + Of(h);
    LaterIsNewer(h, es);
    assert Newer(Of(es), c) && Unique(Of(es) + c);
    ReadInOrder(Of(es), Of(h), k, t);
    ReadInOrder(Of(es), c, k, t);
  }

  lemma PrefixIsHistory(h: seq<Entry>, es: seq<Entry>)
    requires IsHistory(h + es)
    ensures IsHistory(h)
  {
    assert forall i | 0 <= i < |h| :: (h + es)[i] == h[i];
  }

  lemma LaterIsNewer(h: seq<Entry>, es: seq<Entry>)
    requires IsHistory(h + es)
    ensures Newer(Of(es), Of(h)) && forall e | e in h :: e.seqno <= |h|
  {
    var all := h + es;
    forall e | e in h ensures e.seqno <= |h| {
      var i: nat :| i < |h| && h[i] == e;
      assert all[i] == e;
    }
    forall e | e in es ensures e.seqno > |h| {
      var i: nat :| i < |es| && es[i] == e;
      assert all[|h| + i] == e;
    }
  }

  // By themselves, the files answer for the writes that have reached them.
  ghost predicate FilesRight(s: State, filed: nat)
    requires filed <= |s.hist|
  {
    forall k, t: nat | Min(s.floor, filed) <= t :: Read(Tree(s), k, t) == Lookup(s.hist[..filed], k, t)
  }

  // A compaction that would bring an old value back, if the memtables were lost.
  ghost predicate FilesResurrect(s: State, filed: nat) {
    s.running.Some? && exists i, next, t ::
      Resurrects(Since(s.inputVersion, s.v), s.inputVersion, s.running.value, Min(s.floor, filed), i, next, t)
  }

  // A floor above all the entries drops what a floor at the last of them drops.
  lemma {:induction false} KeptAtLowerFloor(v: Levels, level: nat, es: seq<Entry>, n: nat, floor: nat, last: nat)
    requires n <= |es| && forall e | e in es :: e.seqno <= last
    ensures Kept(v, level, es, n, floor) == Kept(v, level, es, n, Min(floor, last))
  {
    hide IsBase;
    if n > 0 {
      KeptAtLowerFloor(v, level, es, n - 1, floor, last);
      assert forall i | 0 <= i < |es| :: es[i].seqno <= last;
      assert Dropped(v, level, es, n - 1, floor) == Dropped(v, level, es, n - 1, Min(floor, last));
    }
  }

  lemma FilesAreFiled(s: State, d: Durable, e: Entry)
    requires Structure(s) && LogsFit(s, d) && e in Tree(s)
    ensures e.seqno <= d.filed
  {
    hide Structure, InsertAll, Tree, EntriesOf;
    HistoryHere(s);
    var h, rest := s.hist[..d.filed], EntriesOf(d.immLog) + EntriesOf(d.memLog);
    assert s.hist == h + rest;
    LaterIsNewer(h, rest);
    assert e in Of(h);
  }

  lemma InputsAreInTree(mem: Contents, b: Levels, j: Job, es: seq<Entry>, e: Entry)
    requires Setting(mem, b, j) && IsInput(j, es) && e in es
    ensures e in ContentsFrom(b, 0)
  {
    hide Setting, Taken, ContentsFrom;
    assert e in Of(es);
    var l, f := WhereTaken(mem, b, j, e);
  }

  lemma SettingOfPart(mem: Contents, part: Contents, v: Levels, j: Job)
    requires Setting(mem, v, j) && part <= mem
    ensures Setting(part, v, j)
  {
    hide ValidVersion, Selects;
  }

  lemma FinishFiles(s: State, outputs: seq<File>, s': State, d: Durable)
    requires Structure(s) && FinishNext(s, outputs, s') && LogsFit(s, d) && FilesRight(s, d.filed)
    ensures s'.hist == s.hist && (FilesRight(s', d.filed) <==> !FilesResurrect(s, d.filed))
  {
    hide Structure, FinishNext, LogsFit, Since, Rest, ContentsFrom, Setting, Taken, IsInput, Kept, MergeFiles, Resurrects, Read;
    FinishRuns(s, outputs, s');
    FinishFrame(s, outputs, s');
    FinishTree(s, outputs, s');
    var j, b, floor := s.running.value, s.inputVersion, Min(s.floor, d.filed);
    var es, since := MergeFiles(j.inputs0 + j.inputs1), Since(b, s.v);
    forall e | e in es ensures e.seqno <= d.filed {
      InputsAreInTree(InMemory(s) + since, b, j, es, e);
      FilesAreFiled(s, d, e);
    }
    KeptAtLowerFloor(b, j.level, es, |es|, s.floor, d.filed);
    SettingOfPart(InMemory(s) + since, since, b, j);
    CompactionKeepsReads(since, b, j, es, floor);
    assert Tree(s) == Whole(since, b) && Tree(s') == After(since, b, j, es, floor);
    FiledHere(s, d);
    FilesCompared(s, s', d.filed);
  }

  lemma FiledHere(s: State, d: Durable)
    requires LogsFit(s, d)
    ensures d.filed <= |s.hist|
  {
  }

  // Right before, the files are right afterwards exactly when they read the same.
  lemma FilesCompared(s: State, s': State, filed: nat)
    requires filed <= |s.hist| && s'.hist == s.hist && s'.floor == s.floor && FilesRight(s, filed)
    ensures FilesRight(s', filed)
        <==> forall k, t: nat | Min(s.floor, filed) <= t :: Read(Tree(s'), k, t) == Read(Tree(s), k, t)
  {
    hide Read, Tree;
    forall k, t: nat | Min(s.floor, filed) <= t ensures Read(Tree(s), k, t) == Lookup(s.hist[..filed], k, t) {
    }
  }

  lemma FlushFiles(s: State, at: nat, size: nat, s': State, d: Durable)
    requires Structure(s) && FlushNext(s, at, size, s') && LogsFit(s, d) && FilesRight(s, d.filed)
    ensures var filed := d.filed + |EntriesOf(d.immLog)|; filed <= |s'.hist| && FilesRight(s', filed)
  {
    hide Structure, FlushNext, Read, Lookup, Tree, InsertAll, EntriesOf;
    FlushTree(s, at, size, s');
    InsertedMembers(EntriesOf(d.immLog));
    var h, es := s.hist[..d.filed], EntriesOf(d.immLog);
    var filed := d.filed + |es|;
    assert s.hist[..filed] == h + es;
    HistoryHere(s);
    PartIsHistory(s.hist, filed);
    forall k, t: nat | Min(s'.floor, filed) <= t ensures Read(Tree(s'), k, t) == Lookup(s'.hist[..filed], k, t) {
      assert Read(Tree(s), k, t) == Lookup(h, k, t);
      ReadOnTop(Tree(s), h, es, k, t);
    }
  }

  lemma HistoryHere(s: State)
    requires Structure(s)
    ensures IsHistory(s.hist) && |s.hist| == s.lastSequence
  {
    hide Settled, SnapshotsAbove, JobFits, ManifestMatches;
  }

  lemma PartIsHistory(hist: seq<Entry>, n: nat)
    requires IsHistory(hist) && n <= |hist|
    ensures IsHistory(hist[..n])
  {
  }

  lemma SameFiles(s: State, s': State, filed: nat)
    requires filed <= |s.hist| && s.hist <= s'.hist && s.floor <= s'.floor && Tree(s') == Tree(s) && FilesRight(s, filed)
    ensures FilesRight(s', filed)
  {
    hide Read, Lookup, Tree;
    assert s'.hist[..filed] == s.hist[..filed];
  }

  // Every step keeps the files right exactly unless it is a compaction that would bring an old value back.
  lemma StepFilesRight(s: State, a: Action, s': State, d: Durable)
    requires Structure(s) && Next(s, a, s') && LogsFit(s, d) && FilesRight(s, d.filed)
    ensures Logs1(s, a, d).filed <= |s'.hist|
    ensures FilesRight(s', Logs1(s, a, d).filed) <==> !(a.FinishCompaction? && FilesResurrect(s, d.filed))
  {
    hide Structure, LogsFit, FlushNext, MoveNext, FinishNext, CanSelect, Tree, FilesRight, FilesResurrect, EntriesOf;
    FiledHere(s, d);
    match a
    case Flush(at, size) => FlushFiles(s, at, size, s', d);
    case Move(j) =>
      MoveTree(s, j, s');
      MoveFrame(s, j, s');
      SameFiles(s, s', d.filed);
    case FinishCompaction(outputs) => FinishFiles(s, outputs, s', d);
    case StartCompaction(j) =>
      FloorRises(s, j);
      SameTreeHere(s, s');
      SameFiles(s, s', d.filed);
    case _ =>
      SameTreeHere(s, s');
      SameFiles(s, s', d.filed);
  }

  lemma FloorRises(s: State, j: Job)
    requires Structure(s)
    ensures s.floor <= SmallestSnapshot(s)
  {
    hide Settled, Layered, JobFits, ManifestMatches;
    StartKeeps(s, j);
  }

  // No compaction of a run, up to a state, leaves files that by themselves would answer with an old value.
  ghost predicate FilesNeverResurrect(states: seq<State>, actions: seq<Action>, n: nat)
    requires n < |states| == |actions| + 1
  {
    forall i | 0 <= i < n && actions[i].FinishCompaction? :: !FilesResurrect(states[i], LogsOf(states, actions, i).filed)
  }

  lemma {:induction false} RunFilesRight(states: seq<State>, actions: seq<Action>, n: nat)
    requires IsRunOf(states, actions) && n < |states|
    requires NeverCollides(states, actions, n) && FilesNeverResurrect(states, actions, n)
    ensures var d := LogsOf(states, actions, n);
      Structure(states[n]) && LogsFit(states[n], d) && d.filed <= |states[n].hist| && FilesRight(states[n], d.filed)
  {
    hide Structure, Next, Colliding, LogsFit, Logs1, FilesRight, FilesResurrect;
    RunLogsFit(states, actions, n);
    FiledHere(states[n], LogsOf(states, actions, n));
    if n == 0 {
      StartFiles();
    } else {
      RunFilesRight(states, actions, n - 1);
      StepFilesRight(states[n - 1], actions[n - 1], states[n], LogsOf(states, actions, n - 1));
    }
  }

  lemma StartFiles()
    ensures FilesRight(Initial(), 0)
  {
    hide Read, ContentsFrom;
    EmptyTree();
    forall k, t: nat ensures Read(iset{}, k, t) == None {
      ReadAbsent(iset{}, k, t);
    }
  }

  // ----- after a crash -----

  // With the first batches of both logs left, these writes have survived.
  function Survivors(s: State, d: Durable, a: nat, b: nat): seq<Entry>
    requires d.filed <= |s.hist| && a <= |d.immLog| && b <= |d.memLog|
  {
    s.hist[..d.filed] + EntriesOf(d.immLog[..a]) + EntriesOf(d.memLog[..b])
  }

  lemma {:induction false} LogPrefix(log: seq<Logged>, a: nat)
    requires a <= |log|
    ensures EntriesOf(log[..a]) <= EntriesOf(log)
    decreases |log|
  {
    hide Stamp;
    if a < |log| {
      var n := |log| - 1;
      LogPrefix(log[..n], a);
      assert log[..n][..a] == log[..a];
    } else {
      assert log[..a] == log;
    }
  }

  // The survivors are a beginning of the history if and only if the older log has kept all its writes, or
  // nothing of the newer one is left.
  lemma SurvivorsArePrefix(s: State, d: Durable, a: nat, b: nat)
    requires Structure(s) && LogsFit(s, d) && a <= |d.immLog| && b <= |d.memLog|
    ensures d.filed <= |s.hist|
    ensures Survivors(s, d, a, b) <= s.hist
        <==> EntriesOf(d.immLog[..a]) == EntriesOf(d.immLog) || EntriesOf(d.memLog[..b]) == []
  {
    hide Structure, EntriesOf, Tree, InsertAll;
    var older, imm, mem := EntriesOf(d.immLog[..a]), EntriesOf(d.immLog), EntriesOf(d.memLog);
    var newer := EntriesOf(d.memLog[..b]);
    LogPrefix(d.immLog, a);
    LogPrefix(d.memLog, b);
    HistoryHere(s);
    var h := s.hist[..d.filed];
    if |older| < |imm| && newer != [] {
      var i := d.filed + |older|;
      assert Survivors(s, d, a, b)[i] == newer[0] == mem[0] == s.hist[d.filed + |imm|];
    } else if newer == [] {
      assert Survivors(s, d, a, b) == h + older <= h + imm + mem;
    } else {
      assert older == imm;
      assert Survivors(s, d, a, b) == h + imm + newer <= h + imm + mem;
    }
  }

  // What the files and the survivors of the logs hold answers as the history of the survivors does.
  lemma SurvivorsRead(s: State, d: Durable, a: nat, b: nat, k: Key, t: nat)
    requires Structure(s) && LogsFit(s, d) && a <= |d.immLog| && b <= |d.memLog|
    requires d.filed <= |s.hist| && FilesRight(s, d.filed) && Survivors(s, d, a, b) <= s.hist && Min(s.floor, d.filed) <= t
    ensures Read(Of(EntriesOf(d.memLog[..b])) + (Of(EntriesOf(d.immLog[..a])) + Tree(s)), k, t)
         == Lookup(Survivors(s, d, a, b), k, t)
  {
    hide Structure, EntriesOf, Tree, InsertAll, Read, Lookup;
    var h, older, newer := s.hist[..d.filed], EntriesOf(d.immLog[..a]), EntriesOf(d.memLog[..b]);
    HistoryHere(s);
    var all := h + older + newer;
    assert s.hist[..|all|] == all;
    PartIsHistory(s.hist, |all|);
    PrefixIsHistory(h + older, newer);
    ReadOnTop(Tree(s), h, older, k, t);
    OfBoth(h, older);
    ReadOnTop(Of(older) + Tree(s), h + older, newer, k, t);
  }
}
