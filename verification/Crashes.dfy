/** What is left after a crash: the manifest, whole, and the logs, cut off anywhere.  Opening the database
    again finds the writes that have survived. */
module Crashes {
  import opened Naturals
  import opened Options
  import opened Sequences
  import opened InternalKeys
  import opened Versions
  import opened VersionEdits
  import opened CompactionInputs
  import opened Compactions
  import opened Installs
  import opened LogFormat
  import opened LogRecovery
  import opened Engine
  import opened EngineRuns
  import opened EngineLogs
  import opened Recovery
  import opened EngineManifests
  import opened ManifestRecovery
  import ProtoVarints
  import ManifestRecords
  import WriteBatches

  // ----- batches in a log -----

  function UpdateOf(k: Coding, op: (Key, Op)): Update {
    match op.1
    case Put(value) => WriteBatches.Put(k.key(op.0), k.value(value))
    case Deletion => WriteBatches.Delete(k.key(op.0))
  }

  function UpdatesOf(k: Coding, ops: seq<(Key, Op)>): (r: seq<Update>)
    ensures |r| == |ops|
  {
    seq(|ops|, i requires 0 <= i < |ops| => UpdateOf(k, ops[i]))
  }

  function RecordOf(k: Coding, b: Logged): Bytes {
    WriteBatches.Rep(b.last + 1, UpdatesOf(k, b.ops))
  }

  function RecordsOf(k: Coding, log: seq<Logged>): (r: seq<Bytes>)
    ensures |r| == |log|
  {
    seq(|log|, i requires 0 <= i < |log| => RecordOf(k, log[i]))
  }

  // Keys and values of the batch have bytes that fit the format and are read back as what they are; the count
  // is not negative as a signed number.
  ghost predicate Codes(k: Coding, b: Logged) {
    && |b.ops| < ProtoVarints.LIMIT32 / 2 && WriteBatches.FitsBatch(b.last + 1, UpdatesOf(k, b.ops))
    && forall i | 0 <= i < |b.ops| :: EntryOf(k, UpdateOf(k, b.ops[i]), 0) == Entry(b.ops[i].0, 0, b.ops[i].1)
  }

  ghost predicate CodesAll(k: Coding, log: seq<Logged>) {
    forall i | 0 <= i < |log| :: Codes(k, log[i])
  }

  lemma RecordIsRead(k: Coding, b: Logged)
    requires Codes(k, b)
    ensures IsBatch(RecordOf(k, b)) && RecordEntries(k, RecordOf(k, b)) == Stamp(b.last, b.ops)
  {
    hide WriteBatches.Rep, WriteBatches.Iterated, WriteBatches.FitsBatch;
    var us := UpdatesOf(k, b.ops);
    WriteBatches.BatchRoundTrip(b.last + 1, us);
    var es := Stamp(b.last, b.ops);
    forall i | 0 <= i < |us| ensures Numbered(k, b.last + 1, us)[i] == es[i] {
      assert EntryOf(k, us[i], 0) == Entry(b.ops[i].0, 0, b.ops[i].1);
    }
    assert Numbered(k, b.last + 1, us) == es;
  }

  lemma {:induction false} LogIsRead(k: Coding, log: seq<Logged>)
    requires CodesAll(k, log)
    ensures AllEntries(k, RecordsOf(k, log)) == EntriesOf(log)
    decreases log
  {
    hide Codes, RecordEntries, RecordOf, Stamp;
    if log != [] {
      var n := |log| - 1;
      LogIsRead(k, log[..n]);
      RecordIsRead(k, log[n]);
      AllEntriesSnoc(k, RecordsOf(k, log[..n]), RecordOf(k, log[n]));
      assert RecordsOf(k, log) == RecordsOf(k, log[..n]) + [RecordOf(k, log[n])];
    }
  }

  ghost function BytesOf(k: Coding, c: Checksum, log: seq<Logged>): Bytes {
    LogOf(c, RecordsOf(k, log))
  }

  // How many batches are whole in the first p bytes of a log.
  ghost function Whole(k: Coding, c: Checksum, log: seq<Logged>, p: nat): (a: nat)
    ensures a <= |log|
  {
    Complete(c, RecordsOf(k, log), p)
  }

  // A log that is cut off holds its whole batches, and is not damaged.
  lemma CutLogIsRead(k: Coding, c: Checksum, log: seq<Logged>, p: nat)
    requires c.Lawful() && CodesAll(k, log) && p <= |BytesOf(k, c, log)|
    ensures Undamaged(c, BytesOf(k, c, log)[..p])
    ensures AllEntries(k, AllRecords(c, BytesOf(k, c, log)[..p], 0).0) == EntriesOf(log[..Whole(k, c, log, p)])
  {
    hide Codes, LogOf, AllRecords, Complete, AllEntries, EntriesOf, IsBatch, RecordOf, Checksum.Lawful;
    var a := Whole(k, c, log, p);
    CrashSafe(c, RecordsOf(k, log), p);
    assert RecordsOf(k, log)[..a] == RecordsOf(k, log[..a]);
    LogIsRead(k, log[..a]);
    forall i | 0 <= i < a ensures IsBatch(RecordsOf(k, log[..a])[i]) {
      RecordIsRead(k, log[i]);
    }
  }

  // ----- the last sequence number that a log shows -----

  // The largest number that the batches have used.
  function LastNumber(log: seq<Logged>): nat
    decreases log
  {
    if log == [] then 0 else Max(log[0].last + |log[0].ops|, LastNumber(log[1..]))
  }

  ghost predicate NoneWraps(log: seq<Logged>) {
    forall i | 0 <= i < |log| :: log[i].last + |log[i].ops| < ProtoVarints.LIMIT64
  }

  lemma LastOfBatch(k: Coding, b: Logged)
    requires Codes(k, b) && b.last + |b.ops| < ProtoVarints.LIMIT64
    ensures IsBatch(RecordOf(k, b)) && LastOf(RecordOf(k, b)) == b.last + |b.ops|
  {
    hide WriteBatches.Rep, WriteBatches.Iterated, WriteBatches.FitsBatch;
    WriteBatches.BatchRoundTrip(b.last + 1, UpdatesOf(k, b.ops));
  }

  lemma {:induction false} MaxLastIs(k: Coding, log: seq<Logged>, most: nat)
    requires CodesAll(k, log) && NoneWraps(log)
    ensures MaxLast(RecordsOf(k, log), most) == Max(most, LastNumber(log))
    decreases log
  {
    hide Codes, LastOf, RecordOf;
    if log != [] {
      LastOfBatch(k, log[0]);
      assert RecordsOf(k, log)[1..] == RecordsOf(k, log[1..]);
      MaxLastIs(k, log[1..], Max(most, LastOf(RecordOf(k, log[0]))));
    }
  }

  lemma {:induction false} LastNumberCovers(log: seq<Logged>, i: nat)
    requires i < |log|
    ensures log[i].last + |log[i].ops| <= LastNumber(log)
    decreases log
  {
    if i > 0 {
      LastNumberCovers(log[1..], i - 1);
    }
  }

  lemma {:induction false} BatchWith(log: seq<Logged>, e: Entry) returns (i: nat)
    requires e in EntriesOf(log)
    ensures i < |log| && e in Stamp(log[i].last, log[i].ops)
    decreases |log|
  {
    hide Stamp;
    var n := |log| - 1;
    if e in EntriesOf(log[..n]) {
      i := BatchWith(log[..n], e);
    } else {
      i := n;
    }
  }

  lemma {:induction false} BatchIsIn(log: seq<Logged>, i: nat, e: Entry)
    requires i < |log| && e in Stamp(log[i].last, log[i].ops)
    ensures e in EntriesOf(log)
    decreases |log|
  {
    hide Stamp;
    var n := |log| - 1;
    if i < n {
      BatchIsIn(log[..n], i, e);
    }
  }

  lemma StampedUpTo(b: Logged, e: Entry)
    requires e in Stamp(b.last, b.ops)
    ensures e.seqno <= b.last + |b.ops|
  {
  }

  // No entry of a log is past the last number.
  lemma LoggedUpTo(log: seq<Logged>, e: Entry)
    requires e in EntriesOf(log)
    ensures e.seqno <= LastNumber(log)
  {
    hide Stamp, EntriesOf, LastNumber;
    var i := BatchWith(log, e);
    StampedUpTo(log[i], e);
    LastNumberCovers(log, i);
  }

  lemma SmallBatch(k: Coding, log: seq<Logged>, i: nat)
    requires i < |log| && Codes(k, log[i]) && forall x | x in EntriesOf(log) :: x.seqno < MAX_SEQUENCE
    ensures log[i].last + |log[i].ops| < ProtoVarints.LIMIT64
  {
    hide EntriesOf, UpdatesOf;
    var b := log[i];
    if b.ops != [] {
      var e := Stamp(b.last, b.ops)[|b.ops| - 1];
      assert e in Stamp(b.last, b.ops);
      BatchIsIn(log, i, e);
    }
  }

  // The last number found in a log that is cut off is that of its whole batches.
  lemma CutLogEnds(k: Coding, c: Checksum, log: seq<Logged>, p: nat, most: nat)
    requires c.Lawful() && CodesAll(k, log) && p <= |BytesOf(k, c, log)|
    requires forall x | x in EntriesOf(log[..Whole(k, c, log, p)]) :: x.seqno < MAX_SEQUENCE
    ensures MaxLast(AllRecords(c, BytesOf(k, c, log)[..p], 0).0, most) == Max(most, LastNumber(log[..Whole(k, c, log, p)]))
  {
    hide Codes, LogOf, AllRecords, Complete, EntriesOf, RecordOf, Checksum.Lawful, LastOf, MaxLast, LastNumber;
    var left := log[..Whole(k, c, log, p)];
    CrashSafe(c, RecordsOf(k, log), p);
    assert RecordsOf(k, log)[..|left|] == RecordsOf(k, left);
    forall i | 0 <= i < |left| ensures left[i].last + |left[i].ops| < ProtoVarints.LIMIT64 {
      SmallBatch(k, left, i);
    }
    MaxLastIs(k, left, most);
  }

  // ----- entries in the order they were written -----

  // Later entries have larger sequence numbers, all of them above lo.
  ghost predicate Ascends(es: seq<Entry>, lo: nat) {
    && (forall i | 0 <= i < |es| :: lo < es[i].seqno < MAX_SEQUENCE)
    && forall i, j | 0 <= i < j < |es| :: es[i].seqno < es[j].seqno
  }

  lemma PartAscends(a: seq<Entry>, b: seq<Entry>, lo: nat)
    requires Ascends(a + b, lo)
    ensures Ascends(a, lo) && Ascends(b, lo) && forall x, y | x in a && y in b :: x.seqno < y.seqno
  {
    var all := a + b;
    assert forall i | 0 <= i < |a| :: all[i] == a[i];
    assert forall i | 0 <= i < |b| :: all[|a| + i] == b[i];
    forall x, y | x in a && y in b ensures x.seqno < y.seqno {
      var i: nat :| i < |a| && a[i] == x;
      var j: nat :| j < |b| && b[j] == y;
      assert all[i].seqno < all[|a| + j].seqno;
    }
  }

  lemma {:induction false} AscendingIsSorted(es: seq<Entry>, lo: nat)
    requires Ascends(es, lo)
    ensures Sorted(InsertAll([], es)) && Of(InsertAll([], es)) == Of(es)
  {
    hide Insert, Sorted, Before;
    InsertedMembers(es);
    if es != [] {
      var n := |es| - 1;
      var front, last := es[..n], es[n];
      AscendingIsSorted(front, lo);
      forall x | x in InsertAll([], front) ensures x.key != last.key || x.Tag() != last.Tag() {
        assert x in Of(front);
        var i: nat :| i < n && front[i] == x;
        assert es[i].seqno < es[n].seqno;
      }
      InsertKeepsSorted(InsertAll([], front), last);
    } else {
      EmptyRuns();
    }
  }

  lemma {:induction false} GroupsAscend(groups: seq<seq<Entry>>, lo: nat, i: nat)
    requires Ascends(Concat(groups), lo) && i < |groups|
    ensures Ascends(groups[i], lo)
    decreases |groups|
  {
    hide Ascends;
    var n := |groups| - 1;
    PartAscends(Concat(groups[..n]), groups[n], lo);
    if i < n {
      GroupsAscend(groups[..n], lo, i);
    }
  }

  lemma {:induction false} LaterGroup(groups: seq<seq<Entry>>, lo: nat, i: nat, j: nat, x: Entry, y: Entry)
    requires Ascends(Concat(groups), lo) && i < j < |groups| && x in groups[i] && y in groups[j]
    ensures x.seqno < y.seqno
    decreases |groups|
  {
    hide Ascends;
    var n := |groups| - 1;
    PartAscends(Concat(groups[..n]), groups[n], lo);
    if j < n {
      LaterGroup(groups[..n], lo, i, j, x, y);
    } else {
      InConcat(groups[..n], i, x);
    }
  }

  lemma {:induction false} InConcat(groups: seq<seq<Entry>>, i: nat, x: Entry)
    requires i < |groups| && x in groups[i]
    ensures x in Concat(groups)
    decreases |groups|
  {
    var n := |groups| - 1;
    if i < n {
      InConcat(groups[..n], i, x);
    }
  }

  lemma {:induction false} ConcatMembers(groups: seq<seq<Entry>>, x: Entry) returns (i: nat)
    requires x in Concat(groups)
    ensures i < |groups| && x in groups[i]
    decreases |groups|
  {
    var n := |groups| - 1;
    if x in Concat(groups[..n]) {
      i := ConcatMembers(groups[..n], x);
    } else {
      i := n;
    }
  }

  // ----- tables on top of a version -----

  // Tables with rising numbers, each newer than the ones before and than everything in the version.
  ghost predicate Stacks(v: Levels, fs: seq<File>) {
    && (forall i | 0 <= i < |fs| :: Newer(Of(fs[i].entries), ContentsFrom(v, 0)) && NumbersBelow(v, fs[i].number))
    && (forall i, j | 0 <= i < j < |fs| :: fs[i].number < fs[j].number && Newer(Of(fs[j].entries), Of(fs[i].entries)))
  }

  // One after the other, into level 0.
  function OnTop(v: Levels, fs: seq<File>): (r: Levels)
    requires |v| == NUM_LEVELS
    ensures |r| == NUM_LEVELS
  {
    if fs == [] then v else
      var n := |fs| - 1;
      FlushIsValid(fs[n]);
      Applied(OnTop(v, fs[..n]), FlushEdit(0, fs[n]))
  }

  ghost predicate IsOnTop(v: Levels, fs: seq<File>, r: Levels)
    requires |v| == |r| == NUM_LEVELS
  {
    forall l: nat, g: File {:trigger g in r[l]} {:trigger g in v[l]} | l < NUM_LEVELS ::
      g in r[l] <==> g in v[l] || (l == 0 && g in fs)
  }

  lemma FlushIsValid(f: File)
    ensures FlushEdit(0, f).Valid()
  {
  }

  lemma StacksPrefix(v: Levels, fs: seq<File>, n: nat)
    requires Stacks(v, fs) && n <= |fs|
    ensures Stacks(v, fs[..n])
  {
    hide Newer, NumbersBelow, ContentsFrom;
  }

  lemma NumbersBelowMore(v: Levels, n: nat, m: nat)
    requires NumbersBelow(v, n) && n <= m
    ensures NumbersBelow(v, m)
  {
  }

  lemma NewerThanBoth(a: Contents, b: Contents, c: Contents)
    requires Newer(a, b) && Newer(a, c)
    ensures Newer(a, b + c)
  {
  }

  lemma {:induction false} StackIsValid(v: Levels, next: nat, fs: seq<File>)
    requires Settled(v, next) && Stacks(v, fs)
    ensures var r, top := OnTop(v, fs), if fs == [] then next else fs[|fs| - 1].number + 1;
      Settled(r, top) && IsOnTop(v, fs, r)
    ensures forall e :: e in ContentsFrom(OnTop(v, fs), 0) <==> e in ContentsFrom(v, 0) || InFiles(fs, e)
    decreases fs
  {
    hide ValidVersion, AllInOrder, NumbersAreUnique, NumbersBelow, Newer, ContentsFrom, Applied, Extends, InFiles, IsOnTop;
    if fs == [] {
      NothingOnTop(v);
      NothingIn();
    } else {
      var n := |fs| - 1;
      var r, f := OnTop(v, fs[..n]), fs[n];
      StacksPrefix(v, fs, n);
      StackIsValid(v, next, fs[..n]);
      TopIsNewer(v, fs, r);
      TopIsFree(v, next, fs, r);
      var r' := OnTop(v, fs);
      FlushExtends(r, f.number, 0, f);
      ExtendedIsValid(r, r', 0, f);
      ExtendedOrder(r, r', 0, f);
      ExtendedNumbers(r, r', 0, f);
      ExtendedContents(r, r', 0, f);
      MembersSnoc(fs);
      ExtendedOnTop(v, fs, r, r');
    }
  }

  lemma ExtendedOnTop(v: Levels, fs: seq<File>, r: Levels, r': Levels)
    requires fs != [] && |v| == NUM_LEVELS && Extends(r, r', 0, fs[|fs| - 1]) && IsOnTop(v, fs[..|fs| - 1], r)
    ensures IsOnTop(v, fs, r')
  {
    hide AllInOrder;
    MembersSnoc(fs);
  }

  lemma NothingOnTop(v: Levels)
    requires |v| == NUM_LEVELS
    ensures IsOnTop(v, [], v)
  {
  }

  lemma MembersSnoc(fs: seq<File>)
    requires fs != []
    ensures forall g :: g in fs <==> g in fs[..|fs| - 1] || g == fs[|fs| - 1]
    ensures forall e :: InFiles(fs, e) <==> InFiles(fs[..|fs| - 1], e) || e in fs[|fs| - 1].entries
  {
    assert fs == fs[..|fs| - 1] + [fs[|fs| - 1]];
  }

  lemma TopIsNewer(v: Levels, fs: seq<File>, r: Levels)
    requires fs != [] && Stacks(v, fs)
    requires forall e :: e in ContentsFrom(r, 0) <==> e in ContentsFrom(v, 0) || InFiles(fs[..|fs| - 1], e)
    ensures Newer(Of(fs[|fs| - 1].entries), ContentsFrom(r, 0))
  {
    hide ContentsFrom, NumbersBelow;
    var n := |fs| - 1;
    forall x, y | x in Of(fs[n].entries) && y in ContentsFrom(r, 0) && x.key == y.key ensures x.seqno > y.seqno {
      if y !in ContentsFrom(v, 0) {
        var g :| g in fs[..n] && y in g.entries;
        var i: nat :| i < n && fs[i] == g;
        assert Newer(Of(fs[n].entries), Of(fs[i].entries));
      } else {
        assert Newer(Of(fs[n].entries), ContentsFrom(v, 0));
      }
    }
  }

  lemma TopIsFree(v: Levels, next: nat, fs: seq<File>, r: Levels)
    requires fs != [] && Stacks(v, fs) && Settled(r, if |fs| == 1 then next else fs[|fs| - 2].number + 1)
    requires |v| == NUM_LEVELS && IsOnTop(v, fs[..|fs| - 1], r)
    ensures Settled(r, fs[|fs| - 1].number)
  {
    hide ValidVersion, AllInOrder, NumbersAreUnique, Newer, ContentsFrom;
    var n := |fs| - 1;
    assert NumbersBelow(v, fs[n].number);
    forall l: nat, g: File | l < |r| && g in r[l] ensures g.number < fs[n].number {
      if g !in v[l] {
        var i: nat :| i < n && fs[i] == g;
      }
    }
  }

  // The edit that adds them all at once.
  function AddEdit(fs: seq<File>): Edit {
    Edit({}, seq(|fs|, i requires 0 <= i < |fs| => (0, fs[i])))
  }

  lemma AddEditAdds(fs: seq<File>, l: nat, f: File)
    ensures Adds(AddEdit(fs), l, f) <==> l == 0 && f in fs
  {
    if l == 0 && f in fs {
      var i: nat :| i < |fs| && fs[i] == f;
      assert AddEdit(fs).added[i] == (0, f);
    }
  }

  lemma AddedTogether(v: Levels, next: nat, fs: seq<File>)
    requires Settled(v, next) && Stacks(v, fs)
    ensures AddEdit(fs).Valid() && Applied(v, AddEdit(fs)) == OnTop(v, fs)
  {
    hide ValidVersion, NumbersAreUnique, Newer, ContentsFrom, Applied, OnTop, AllInOrder, Adds;
    StackIsValid(v, next, fs);
    var e, r := AddEdit(fs), OnTop(v, fs);
    forall l: nat, f: File ensures Adds(e, l, f) <==> l == 0 && f in fs {
      AddEditAdds(fs, l, f);
    }
    forall f, g | f in fs && g in fs && f.number == g.number ensures f == g {
      var i: nat :| i < |fs| && fs[i] == f;
      var j: nat :| j < |fs| && fs[j] == g;
    }
    AppliedIs(v, e, r);
  }

  // ----- the logs on disk -----

  // The log number in the manifest, and the numbers of the logs of the two memtables.
  datatype LogNumbers = LogNumbers(manifest: nat, imm: nat, mem: nat)

  // A switch takes a new number for the new log; a flush notes that older logs are not needed any more.
  function NumbersAfter(s: State, a: Action, x: LogNumbers): LogNumbers {
    match a
    case SwitchMemtable => LogNumbers(x.manifest, x.mem, s.nextFile)
    case Flush(_, _) => LogNumbers(x.mem, x.imm, x.mem)
    case _ => x
  }

  ghost function NumbersOf(states: seq<State>, actions: seq<Action>, n: nat): LogNumbers
    requires n < |states| == |actions| + 1
  {
    if n == 0 then LogNumbers(1, 1, 1) else NumbersAfter(states[n - 1], actions[n - 1], NumbersOf(states, actions, n - 1))
  }

  ghost predicate NumbersFit(s: State, x: LogNumbers) {
    0 < x.manifest && x.mem < s.nextFile && if s.imm.Some? then x.manifest == x.imm < x.mem else x.manifest == x.mem
  }

  lemma StepNumbersFit(s: State, a: Action, s': State, x: LogNumbers)
    requires Next(s, a, s') && NumbersFit(s, x)
    ensures NumbersFit(s', NumbersAfter(s, a, x))
  {
    hide InsertAll, Stamp, FreePlace, Logs, Selects, Kept;
  }

  lemma {:induction false} RunNumbersFit(states: seq<State>, actions: seq<Action>, n: nat)
    requires IsRunOf(states, actions) && n < |states|
    ensures NumbersFit(states[n], NumbersOf(states, actions, n))
  {
    hide Next, NumbersAfter;
    if n > 0 {
      RunNumbersFit(states, actions, n - 1);
      StepNumbersFit(states[n - 1], actions[n - 1], states[n], NumbersOf(states, actions, n - 1));
    }
  }

  // After a crash: logs that are not needed any more, if they have not been deleted yet, and what is left of
  // the logs of the immutable memtable, if there is one, and of the memtable.
  ghost function LogsLeft(s: State, d: Durable, x: LogNumbers, k: Coding, c: Checksum, obsolete: seq<LogFile>, p: nat,
                          q: nat): seq<LogFile>
    requires p <= |BytesOf(k, c, d.immLog)| && q <= |BytesOf(k, c, d.memLog)|
  {
    obsolete
    + (if s.imm.Some? then [LogFile(x.imm, BytesOf(k, c, d.immLog)[..p])] else [])
    + [LogFile(x.mem, BytesOf(k, c, d.memLog)[..q])]
  }

  lemma LiveSnoc(logs: seq<LogFile>, f: LogFile, log: nat)
    ensures LiveLogs(logs + [f], log, 0) == LiveLogs(logs, log, 0) + if IsLive(f, log, 0) then [f] else []
  {
    assert (logs + [f])[..|logs|] == logs;
  }

  lemma {:induction false} NoneIsLive(logs: seq<LogFile>, log: nat)
    requires forall i | 0 <= i < |logs| :: 0 < logs[i].number < log
    ensures LiveLogs(logs, log, 0) == []
    decreases |logs|
  {
    hide LiveLogs;
    if logs == [] {
      NoLogs(log);
    } else {
      var n := |logs| - 1;
      NoneIsLive(logs[..n], log);
      assert logs == logs[..n] + [logs[n]];
      LiveSnoc(logs[..n], logs[n], log);
    }
  }

  lemma NoLogs(log: nat)
    ensures LiveLogs([], log, 0) == []
  {
  }

  lemma {:induction false} ObsoleteAreSkipped(obsolete: seq<LogFile>, live: seq<LogFile>, log: nat)
    requires forall i | 0 <= i < |obsolete| :: 0 < obsolete[i].number < log
    requires forall i | 0 <= i < |live| :: live[i].number >= log
    ensures LiveLogs(obsolete + live, log, 0) == live
    decreases |live|
  {
    hide LiveLogs;
    if live == [] {
      NoneIsLive(obsolete, log);
      assert obsolete + live == obsolete;
    } else {
      var n := |live| - 1;
      ObsoleteAreSkipped(obsolete, live[..n], log);
      assert obsolete + live == (obsolete + live[..n]) + [live[n]];
      LiveSnoc(obsolete + live[..n], live[n], log);
    }
  }

  // ----- opening the database again -----

  // The survivors that were not in files, in the order they were written.
  ghost function Replayed(d: Durable, a: nat, b: nat): seq<Entry>
    requires a <= |d.immLog| && b <= |d.memLog|
  {
    EntriesOf(d.immLog[..a]) + EntriesOf(d.memLog[..b])
  }

  lemma LeftLogsAreRead(s: State, d: Durable, x: LogNumbers, k: Coding, c: Checksum, obsolete: seq<LogFile>, p: nat, q: nat)
    requires LogsFit(s, d) && NumbersFit(s, x) && c.Lawful() && CodesAll(k, d.immLog) && CodesAll(k, d.memLog)
    requires p <= |BytesOf(k, c, d.immLog)| && q <= |BytesOf(k, c, d.memLog)|
    requires forall i | 0 <= i < |obsolete| :: 0 < obsolete[i].number < x.manifest
    ensures var live := LiveLogs(LogsLeft(s, d, x, k, c, obsolete, p, q), x.manifest, 0);
      && LogEntries(k, c, live) == Replayed(d, Whole(k, c, d.immLog, p), Whole(k, c, d.memLog, q))
      && forall i | 0 <= i < |live| :: Undamaged(c, live[i].bytes)
  {
    hide LogsFit, CodesAll, AllRecords, AllEntries, EntriesOf, BytesOf, Undamaged, LiveLogs, Whole, LogEntries;
    CutLogIsRead(k, c, d.immLog, p);
    CutLogIsRead(k, c, d.memLog, q);
    var imm, mem := LogFile(x.imm, BytesOf(k, c, d.immLog)[..p]), LogFile(x.mem, BytesOf(k, c, d.memLog)[..q]);
    var live := (if s.imm.Some? then [imm] else []) + [mem];
    assert LogsLeft(s, d, x, k, c, obsolete, p, q) == obsolete + live;
    ObsoleteAreSkipped(obsolete, live, x.manifest);
    if s.imm.Some? {
      assert live == [imm, mem];
      TwoLogs(k, c, imm, mem);
    } else {
      assert live == [mem];
      OneLog(k, c, mem);
      NoImmLog(s, d);
      assert d.immLog[..Whole(k, c, d.immLog, p)] == [];
      NothingWritten();
      assert [] + EntriesOf(d.memLog[..Whole(k, c, d.memLog, q)]) == EntriesOf(d.memLog[..Whole(k, c, d.memLog, q)]);
    }
  }

  // The last number that recovery finds in the logs is that of the batches that are whole in them.
  lemma LeftLogsEnd(s: State, d: Durable, x: LogNumbers, k: Coding, c: Checksum, obsolete: seq<LogFile>, p: nat, q: nat)
    requires Structure(s) && LogsFit(s, d) && NumbersFit(s, x) && c.Lawful() && CodesAll(k, d.immLog) && CodesAll(k, d.memLog)
    requires p <= |BytesOf(k, c, d.immLog)| && q <= |BytesOf(k, c, d.memLog)|
    requires forall i | 0 <= i < |obsolete| :: 0 < obsolete[i].number < x.manifest
    ensures LastInLogs(c, LiveLogs(LogsLeft(s, d, x, k, c, obsolete, p, q), x.manifest, 0))
         == Max(LastNumber(d.immLog[..Whole(k, c, d.immLog, p)]), LastNumber(d.memLog[..Whole(k, c, d.memLog, q)]))
  {
    hide Structure, LogsFit, CodesAll, AllRecords, EntriesOf, BytesOf, LiveLogs, Whole, MaxLast, Ascends, LastInLogs, LastNumber;
    var imm, mem := LogFile(x.imm, BytesOf(k, c, d.immLog)[..p]), LogFile(x.mem, BytesOf(k, c, d.memLog)[..q]);
    var live := (if s.imm.Some? then [imm] else []) + [mem];
    assert LogsLeft(s, d, x, k, c, obsolete, p, q) == obsolete + live;
    ObsoleteAreSkipped(obsolete, live, x.manifest);
    var a, b := Whole(k, c, d.immLog, p), Whole(k, c, d.memLog, q);
    ReplayedAscends(s, d, a, b);
    PartAscends(EntriesOf(d.immLog[..a]), EntriesOf(d.memLog[..b]), d.filed);
    SmallNumbers(EntriesOf(d.immLog[..a]), d.filed);
    SmallNumbers(EntriesOf(d.memLog[..b]), d.filed);
    NoNumbers(c);
    LastSnoc(c, live[..|live| - 1], mem);
    assert live == live[..|live| - 1] + [mem];
    CutLogEnds(k, c, d.memLog, q, LastInLogs(c, live[..|live| - 1]));
    if s.imm.None? {
      NoImmLog(s, d);
      assert d.immLog[..a] == [] && live[..0] == [];
    } else {
      assert live[..1] == [] + [imm];
      LastSnoc(c, [], imm);
      CutLogEnds(k, c, d.immLog, p, 0);
    }
  }

  lemma NoNumbers(c: Checksum)
    ensures LastNumber([]) == 0 && LastInLogs(c, []) == 0
  {
  }

  lemma LastSnoc(c: Checksum, logs: seq<LogFile>, f: LogFile)
    ensures LastInLogs(c, logs + [f]) == MaxLast(AllRecords(c, f.bytes, 0).0, LastInLogs(c, logs))
  {
    hide AllRecords, MaxLast;
    assert (logs + [f])[..|logs|] == logs;
  }

  lemma NoImmLog(s: State, d: Durable)
    requires LogsFit(s, d) && s.imm.None?
    ensures d.immLog == []
  {
  }

  lemma NothingWritten()
    ensures EntriesOf([]) == []
  {
  }

  lemma OneLog(k: Coding, c: Checksum, f: LogFile)
    ensures LogEntries(k, c, [f]) == AllEntries(k, AllRecords(c, f.bytes, 0).0)
  {
    hide AllEntries, AllRecords;
    assert [f][..0] == [];
    assert LogEntries(k, c, []) == [];
    assert [] + AllEntries(k, AllRecords(c, f.bytes, 0).0) == AllEntries(k, AllRecords(c, f.bytes, 0).0);
  }

  lemma TwoLogs(k: Coding, c: Checksum, f: LogFile, g: LogFile)
    ensures LogEntries(k, c, [f, g])
         == AllEntries(k, AllRecords(c, f.bytes, 0).0) + AllEntries(k, AllRecords(c, g.bytes, 0).0)
  {
    hide AllEntries, AllRecords;
    OneLog(k, c, f);
    assert [f, g][..1] == [f];
  }

  lemma ReplayedAscends(s: State, d: Durable, a: nat, b: nat)
    requires Structure(s) && LogsFit(s, d) && a <= |d.immLog| && b <= |d.memLog|
    ensures Ascends(Replayed(d, a, b), d.filed)
  {
    hide Structure, EntriesOf, InsertAll, Tree, Ascends;
    HistoryHere(s);
    HistoryIsShort(s);
    LogPrefix(d.immLog, a);
    LogPrefix(d.memLog, b);
    var h, imm, mem := s.hist[..d.filed], EntriesOf(d.immLog), EntriesOf(d.memLog);
    var older, newer := EntriesOf(d.immLog[..a]), EntriesOf(d.memLog[..b]);
    assert s.hist == h + (imm + mem);
    RestAscends(h, imm + mem);
    PrefixesAscend(older, imm, newer, mem, d.filed);
  }

  lemma RestAscends(h: seq<Entry>, rest: seq<Entry>)
    requires IsHistory(h + rest) && |h + rest| < MAX_SEQUENCE
    ensures Ascends(rest, |h|)
  {
    assert forall i | 0 <= i < |rest| :: rest[i] == (h + rest)[|h| + i];
  }

  lemma PrefixesAscend(older: seq<Entry>, imm: seq<Entry>, newer: seq<Entry>, mem: seq<Entry>, lo: nat)
    requires older <= imm && newer <= mem && Ascends(imm + mem, lo)
    ensures Ascends(older + newer, lo)
  {
    var all, left := imm + mem, older + newer;
    assert forall i | 0 <= i < |older| :: left[i] == all[i];
    assert forall i | |older| <= i < |left| :: left[i] == all[|imm| + (i - |older|)];
    forall i, j | 0 <= i < j < |left| ensures left[i].seqno < left[j].seqno {
      var p, q := if i < |older| then i else |imm| + (i - |older|), if j < |older| then j else |imm| + (j - |older|);
      assert all[p].seqno < all[q].seqno;
    }
  }

  lemma HistoryIsShort(s: State)
    requires Structure(s)
    ensures s.lastSequence < MAX_SEQUENCE
  {
    hide Settled, SnapshotsAbove, JobFits, ManifestMatches;
  }

  // A memtable that was replayed is a table.
  lemma AddedIsTable(added: seq<(nat, seq<Entry>)>, groups: seq<seq<Entry>>, rest: seq<Entry>, next: nat, next': nat, lo: nat,
                     i: nat, size: nat)
    requires AreAdded(added, groups, next, next') && Ascends(Concat(groups) + rest, lo) && i < |added|
    ensures Table(added[i].0, size, added[i].1).Valid() && Of(added[i].1) == Of(groups[i])
  {
    hide InsertAll, Concat, Ascends;
    PartAscends(Concat(groups), rest, lo);
    GroupsAscend(groups, lo, i);
    AscendingIsSorted(groups[i], lo);
    SmallNumbers(groups[i], lo);
    assert forall e | e in added[i].1 :: e in Of(groups[i]);
  }

  lemma SmallNumbers(es: seq<Entry>, lo: nat)
    requires Ascends(es, lo)
    ensures forall e | e in es :: lo < e.seqno < MAX_SEQUENCE
  {
  }

  ghost predicate AreFiles(fs: seq<File>, added: seq<(nat, seq<Entry>)>, groups: seq<seq<Entry>>) {
    && |fs| == |added| == |groups|
    && forall i | 0 <= i < |fs| :: fs[i].number == added[i].0 && Of(fs[i].entries) == Of(groups[i])
  }

  lemma FilesStack(v: Levels, fs: seq<File>, added: seq<(nat, seq<Entry>)>, groups: seq<seq<Entry>>, rest: seq<Entry>,
                   next: nat, next': nat, lo: nat)
    requires AreFiles(fs, added, groups) && AreAdded(added, groups, next, next') && Ascends(Concat(groups) + rest, lo)
    requires NumbersBelow(v, next) && forall e | e in ContentsFrom(v, 0) :: e.seqno <= lo
    ensures Stacks(v, fs)
  {
    hide InsertAll, Concat, Ascends, ContentsFrom, NumbersBelow, Newer;
    PartAscends(Concat(groups), rest, lo);
    forall i | 0 <= i < |fs| ensures Newer(Of(fs[i].entries), ContentsFrom(v, 0)) && NumbersBelow(v, fs[i].number) {
      GroupsAscend(groups, lo, i);
      SmallNumbers(groups[i], lo);
      NumbersBelowMore(v, next, fs[i].number);
      NewerByNumber(Of(fs[i].entries), ContentsFrom(v, 0), lo);
    }
    forall i, j | 0 <= i < j < |fs| ensures fs[i].number < fs[j].number && Newer(Of(fs[j].entries), Of(fs[i].entries)) {
      forall x, y | x in Of(groups[j]) && y in Of(groups[i]) ensures x.seqno > y.seqno {
        LaterGroup(groups, lo, i, j, y, x);
      }
      NewerPairwise(Of(fs[j].entries), Of(fs[i].entries));
    }
  }

  lemma NewerByNumber(a: Contents, b: Contents, lo: nat)
    requires (forall e | e in a :: e.seqno > lo) && forall e | e in b :: e.seqno <= lo
    ensures Newer(a, b)
  {
  }

  lemma NewerPairwise(a: Contents, b: Contents)
    requires forall x, y | x in a && y in b :: x.seqno > y.seqno
    ensures Newer(a, b)
  {
  }

  // Tables and memtable together hold the entries that were replayed.
  lemma StackHolds(v: Levels, next: nat, fs: seq<File>, added: seq<(nat, seq<Entry>)>, groups: seq<seq<Entry>>, rest: seq<Entry>)
    requires Settled(v, next) && Stacks(v, fs) && AreFiles(fs, added, groups)
    ensures ContentsFrom(OnTop(v, fs), 0) == Of(Concat(groups)) + ContentsFrom(v, 0)
  {
    hide Stacks, Settled, ContentsFrom, Concat;
    StackIsValid(v, next, fs);
    forall e | InFiles(fs, e) ensures e in Of(Concat(groups)) {
      var f :| f in fs && e in f.entries;
      var i: nat :| i < |fs| && fs[i] == f;
      assert e in Of(fs[i].entries);
      InConcat(groups, i, e);
    }
    forall e | e in Of(Concat(groups)) ensures InFiles(fs, e) {
      var i := ConcatMembers(groups, e);
      assert e in Of(fs[i].entries);
      assert fs[i] in fs;
    }
  }

  // DB::Open, with a manifest that is whole: the tables that are added go to level 0 in one edit.  Opening
  // succeeds, with a version and numbers that the engine can go on with: new files and new writes get numbers
  // above all that are there.  What it finds answers every read as the history of the survivors does, when those
  // are a beginning of the whole history: all batches that are whole in the logs are among them.
  method OpenAgain(ghost states: seq<State>, ghost actions: seq<Action>, ghost n: nat, ghost obsolete: seq<LogFile>,
                   ghost p: nat, ghost q: nat,
                   k: Coding, c: Checksum, version: Levels, logNumber: nat, nextFile: nat, lastSequence: nat, logs: seq<LogFile>,
                   paranoid: bool, reuse: bool, bufferSize: nat, usage: seq<Entry> -> nat, tableSize: seq<Entry> -> nat)
    returns (ok: bool, current: Levels, mem: seq<Entry>, next: nat, last: nat)
    requires IsRunOf(states, actions) && n < |states| && NeverCollides(states, actions, n)
    requires FilesNeverResurrect(states, actions, n)
    requires var d := LogsOf(states, actions, n);
      && c.Lawful() && CodesAll(k, d.immLog) && CodesAll(k, d.memLog)
      && p <= |BytesOf(k, c, d.immLog)| && q <= |BytesOf(k, c, d.memLog)|
    requires var s, d, x := states[n], LogsOf(states, actions, n), NumbersOf(states, actions, n);
      && version == s.v && logNumber == x.manifest && NumbersBelow(version, nextFile) && d.filed <= lastSequence
      && (forall i | 0 <= i < |obsolete| :: 0 < obsolete[i].number < x.manifest) && logs == LogsLeft(s, d, x, k, c, obsolete, p, q)
    ensures ok && Settled(current, next) && Sorted(mem) && Newer(Of(mem), ContentsFrom(current, 0))
    ensures forall e | e in Of(mem) + ContentsFrom(current, 0) :: e.seqno <= last
    ensures var d := LogsOf(states, actions, n);
      var a, b := Whole(k, c, d.immLog, p), Whole(k, c, d.memLog, q);
      last == Max(lastSequence, Max(LastNumber(d.immLog[..a]), LastNumber(d.memLog[..b])))
    ensures var s, d := states[n], LogsOf(states, actions, n);
      var a, b := Whole(k, c, d.immLog, p), Whole(k, c, d.memLog, q);
      && d.filed <= |s.hist|
      && (Survivors(s, d, a, b) <= s.hist
          <==> EntriesOf(d.immLog[..a]) == EntriesOf(d.immLog) || EntriesOf(d.memLog[..b]) == [])
      && (Survivors(s, d, a, b) <= s.hist ==>
            forall key, t: nat | Min(s.floor, d.filed) <= t ::
              Read(Of(mem) + ContentsFrom(current, 0), key, t) == Lookup(Survivors(s, d, a, b), key, t))
  {
    hide Next, NeverCollides, FilesNeverResurrect, Structure, LogsFit, FilesRight, NumbersFit, CodesAll, LogsLeft, BytesOf,
      Whole, EntriesOf, LiveLogs, LogEntries, LastInLogs, Undamaged, AreAdded, Concat, InsertAll, ContentsFrom, Settled, Stacks,
      AreFiles, Ascends, Read, Lookup, NumbersBelow, Newer, Sorted, ValidVersion, Save, ApplyEdit, LastNumber, OnTop,
      Edit.Valid, Survivors, Table.Valid;
    ghost var s, d, x := states[n], LogsOf(states, actions, n), NumbersOf(states, actions, n);
    RunFilesRight(states, actions, n);
    RunNumbersFit(states, actions, n);
    LeftLogsAreRead(s, d, x, k, c, obsolete, p, q);
    ghost var a, b := Whole(k, c, d.immLog, p), Whole(k, c, d.memLog, q);
    ghost var groups, rest;
    var added;
    ok, added, mem, next, last, groups, rest := Recover(k, c, logs, logNumber, 0, nextFile, lastSequence, paranoid, reuse,
      bufferSize, usage);
    ReplayedAscends(s, d, a, b);
    var fs := ToFiles(added, tableSize, groups, rest, nextFile, next, d.filed);
    StoreIsRestored(s, d, a, b, nextFile, fs, added, groups, rest, next);
    var builder := new Builder(version);
    builder.Apply(AddEdit(fs));
    current := builder.SaveTo();
    LeftLogsEnd(s, d, x, k, c, obsolete, p, q);
    forall e | e in Of(mem) + ContentsFrom(current, 0) ensures e.seqno <= last {
      StoredIsCounted(s, d, a, b, e);
    }
    SurvivorsArePrefix(s, d, a, b);
    if Survivors(s, d, a, b) <= s.hist {
      forall key, t: nat | Min(s.floor, d.filed) <= t
        ensures Read(Of(mem) + ContentsFrom(current, 0), key, t) == Lookup(Survivors(s, d, a, b), key, t)
      {
        SurvivorsRead(s, d, a, b, key, t);
      }
    }
  }

  method ToFiles(added: seq<(nat, seq<Entry>)>, tableSize: seq<Entry> -> nat, ghost groups: seq<seq<Entry>>, ghost rest: seq<Entry>,
                 ghost next: nat, ghost next': nat, ghost lo: nat)
    returns (fs: seq<File>)
    requires AreAdded(added, groups, next, next') && Ascends(Concat(groups) + rest, lo)
    ensures AreFiles(fs, added, groups)
  {
    hide AreAdded, Ascends, Concat, Table.Valid;
    fs := [];
    AddedLength(added, groups, next, next');
    for i := 0 to |added|
      invariant |fs| == i && forall j | 0 <= j < i :: fs[j].number == added[j].0 && Of(fs[j].entries) == Of(groups[j])
    {
      var size := tableSize(added[i].1);
      AddedIsTable(added, groups, rest, next, next', lo, i, size);
      var f: File := Table(added[i].0, size, added[i].1);
      fs := fs + [f];
    }
  }

  lemma AddedLength(added: seq<(nat, seq<Entry>)>, groups: seq<seq<Entry>>, next: nat, next': nat)
    requires AreAdded(added, groups, next, next')
    ensures |added| == |groups|
  {
  }

  lemma StoreIsRestored(s: State, d: Durable, a: nat, b: nat, nextFile: nat, fs: seq<File>, added: seq<(nat, seq<Entry>)>,
                        groups: seq<seq<Entry>>, rest: seq<Entry>, next: nat)
    requires Structure(s) && LogsFit(s, d) && a <= |d.immLog| && b <= |d.memLog| && NumbersBelow(s.v, nextFile)
    requires AreAdded(added, groups, nextFile, next) && AreFiles(fs, added, groups) && Concat(groups) + rest == Replayed(d, a, b)
    ensures |s.v| == NUM_LEVELS && AddEdit(fs).Valid()
    ensures var current, mem := Applied(s.v, AddEdit(fs)), InsertAll([], rest);
      && Settled(current, next) && Sorted(mem) && Newer(Of(mem), ContentsFrom(current, 0))
      && Of(mem) + ContentsFrom(current, 0) == Of(EntriesOf(d.memLog[..b])) + (Of(EntriesOf(d.immLog[..a])) + Tree(s))
  {
    hide Structure, LogsFit, AreAdded, Concat, InsertAll, ContentsFrom, Stacks, AreFiles, Ascends, Newer, Sorted, Applied,
      OnTop, Edit.Valid, EntriesOf, AllInOrder, NumbersAreUnique, NumbersBelow, ValidVersion;
    SettledWithNext(s, nextFile);
    ReplayedAscends(s, d, a, b);
    forall e | e in Tree(s) ensures e.seqno <= d.filed {
      FilesAreFiled(s, d, e);
    }
    FilesStack(s.v, fs, added, groups, rest, nextFile, next, d.filed);
    StackIsValid(s.v, nextFile, fs);
    AddedTogether(s.v, nextFile, fs);
    StackHolds(s.v, nextFile, fs, added, groups, rest);
    TopIsBelow(s.v, nextFile, fs, added, groups, next);
    PartAscends(Concat(groups), rest, d.filed);
    AscendingIsSorted(rest, d.filed);
    SmallNumbers(rest, d.filed);
    OfBoth(Concat(groups), rest);
    OfBoth(EntriesOf(d.immLog[..a]), EntriesOf(d.memLog[..b]));
    NewerPairwise(Of(rest), Of(Concat(groups)));
    NewerByNumber(Of(rest), Tree(s), d.filed);
    NewerThanBoth(Of(rest), Of(Concat(groups)), Tree(s));
    assert Of(rest) + (Of(Concat(groups)) + Tree(s)) == Of(Concat(groups) + rest) + Tree(s);
  }

  lemma TopIsBelow(v: Levels, first: nat, fs: seq<File>, added: seq<(nat, seq<Entry>)>, groups: seq<seq<Entry>>, next: nat)
    requires Settled(v, first) && Stacks(v, fs) && AreAdded(added, groups, first, next) && AreFiles(fs, added, groups)
    ensures Settled(OnTop(v, fs), next)
  {
    hide Stacks, ValidVersion, AllInOrder, NumbersAreUnique, NumbersBelow, OnTop, InsertAll;
    StackIsValid(v, first, fs);
    NumbersBelowMore(OnTop(v, fs), if fs == [] then first else fs[|fs| - 1].number + 1, next);
  }

  // Nothing that is found is past the last sequence number.
  lemma StoredIsCounted(s: State, d: Durable, a: nat, b: nat, e: Entry)
    requires Structure(s) && LogsFit(s, d) && a <= |d.immLog| && b <= |d.memLog|
    requires e in Of(EntriesOf(d.memLog[..b])) + (Of(EntriesOf(d.immLog[..a])) + Tree(s))
    ensures e.seqno <= Max(d.filed, Max(LastNumber(d.immLog[..a]), LastNumber(d.memLog[..b])))
  {
    hide Structure, LogsFit, EntriesOf, LastNumber, Tree;
    if e in Tree(s) {
      FilesAreFiled(s, d, e);
    } else if e in EntriesOf(d.memLog[..b]) {
      LoggedUpTo(d.memLog[..b], e);
    } else {
      LoggedUpTo(d.immLog[..a], e);
    }
  }

  lemma SettledWithNext(s: State, next: nat)
    requires Structure(s) && NumbersBelow(s.v, next)
    ensures Settled(s.v, next) && |s.v| == NUM_LEVELS
  {
    hide Layered, SnapshotsAbove, JobFits, ManifestMatches, ValidVersion, AllInOrder, NumbersAreUnique, NumbersBelow;
  }

  // ----- what the manifest says -----

  // The log number that each edit notes.
  ghost function LogNotes(states: seq<State>, actions: seq<Action>, n: nat): seq<nat>
    requires n < |states| == |actions| + 1
  {
    if n == 0 then []
    else if states[n].edits == states[n - 1].edits then LogNotes(states, actions, n - 1)
    else LogNotes(states, actions, n - 1) + [NumbersOf(states, actions, n).manifest]
  }

  lemma OnlyFlushesMoveOn(s: State, a: Action, s': State, x: LogNumbers)
    requires Next(s, a, s') && s'.edits == s.edits
    ensures NumbersAfter(s, a, x).manifest == x.manifest
  {
    hide InsertAll, Stamp, FreePlace, Logs, Selects, Kept;
  }

  // The last edit notes the number of the oldest log that is needed.
  lemma {:induction false} LogIsNoted(states: seq<State>, actions: seq<Action>, n: nat)
    requires IsRunOf(states, actions) && n < |states| && NeverCollides(states, actions, n)
    ensures var logs := LogNotes(states, actions, n);
      |logs| == |states[n].edits| && (logs != [] ==> logs[|logs| - 1] == NumbersOf(states, actions, n).manifest)
  {
    hide Structure, Next, NumbersAfter, NamesFiles;
    if n > 0 {
      var s, s' := states[n - 1], states[n];
      LogIsNoted(states, actions, n - 1);
      RunsAreRight(states, actions, n - 1);
      StepNames(s, actions[n - 1], s');
      if s'.edits == s.edits {
        OnlyFlushesMoveOn(s, actions[n - 1], s', NumbersOf(states, actions, n - 1));
      }
    }
  }

  lemma OnlyFlushesFile(s: State, a: Action, s': State, d: Durable)
    requires Next(s, a, s') && s'.edits == s.edits
    ensures Logs1(s, a, d).filed == d.filed
  {
    hide InsertAll, Stamp, FreePlace, Logs, Selects, Kept, EntriesOf;
  }

  lemma FiledIsWritten(s: State, d: Durable)
    requires Structure(s) && LogsFit(s, d)
    ensures d.filed <= s.lastSequence
  {
    hide Settled, SnapshotsAbove, JobFits, ManifestMatches, BegunFit, EntriesOf, InsertAll, Tree, Newer;
  }

  // The last edit notes a sequence number not below those in files.
  lemma {:induction false} FiledIsNoted(states: seq<State>, actions: seq<Action>, n: nat)
    requires IsRunOf(states, actions) && n < |states| && NeverCollides(states, actions, n)
    ensures |Notes(states, n)| == |states[n].edits|
    ensures states[n].edits != [] ==> LogsOf(states, actions, n).filed <= Notes(states, n)[|states[n].edits| - 1].1
  {
    hide Structure, Next, Logs1, NamesFiles, LogsFit;
    if n > 0 {
      var s, s' := states[n - 1], states[n];
      FiledIsNoted(states, actions, n - 1);
      RunsAreRight(states, actions, n - 1);
      StepNames(s, actions[n - 1], s');
      RunLogsFit(states, actions, n);
      FiledIsWritten(s', LogsOf(states, actions, n));
      if s'.edits == s.edits {
        OnlyFlushesFile(s, actions[n - 1], s', LogsOf(states, actions, n - 1));
      }
    }
  }

  // After any run with an edit, the manifest leads to what OpenAgain starts from: the present version, the
  // number of the oldest log that is needed, a file number above those of the version, and a sequence number
  // not below those in its files.
  lemma ManifestSays(states: seq<State>, actions: seq<Action>, n: nat, c: Checksum, key: Entry -> Bytes, name: Bytes)
    returns (d: Disk, m: seq<ManifestRecords.Record>, found: Opened)
    requires IsRunOf(states, actions) && n < |states| && NeverCollides(states, actions, n) && c.Lawful() && states[n].edits != []
    requires FitsFormat(states[n], key, name, LogNotes(states, actions, n))
    ensures Recovered(c, d, name, LogOf(c, RecordBytes(m))) == Some(found)
    ensures found.version == states[n].v && NumbersBelow(found.version, found.nextFile)
    ensures found.logNumber == NumbersOf(states, actions, n).manifest && found.prevLogNumber == 0
    ensures LogsOf(states, actions, n).filed <= found.lastSequence
  {
    hide Structure, Next, Named, DeletedBelow, GoodManifest, LogOf, RecordBytes, Recovered, FitsFormat, Live, NumbersBelow,
      AllPointers, Checksum.Lawful, Complete, NotesFit, Notes;
    var s, logs := states[n], LogNotes(states, actions, n);
    LogIsNoted(states, actions, n);
    FiledIsNoted(states, actions, n);
    d, m := EngineRestarts(states, actions, n, c, key, name, logs);
    var whole := LogOf(c, RecordBytes(m));
    assert RestartsRight(s, c, d, name, m, logs, Notes(states, n), |whole|);
    AllComplete(c, RecordBytes(m));
    RecordsCounted(m);
    assert whole[..|whole|] == whole;
    found := Recovered(c, d, name, whole).value;
    RunNames(states, actions, n);
    NotedAbove(s, Notes(states, n));
  }

  lemma RecordsCounted(m: seq<ManifestRecords.Record>)
    ensures |RecordBytes(m)| == |m|
  {
  }

  lemma AllComplete(c: Checksum, records: seq<Bytes>)
    ensures Complete(c, records, |LogOf(c, records)|) == |records|
  {
    hide LogOf;
  }

  lemma NotedAbove(s: State, notes: seq<(nat, nat)>)
    requires Structure(s) && s.edits != [] && NotesFit(s.edits, notes, s.nextFile, s.lastSequence)
    ensures NumbersBelow(s.v, notes[|s.edits| - 1].0 + 1)
  {
    hide Layered, JobFits, SnapshotsAbove, Descends, Seen, Live, ValidVersion, AllInOrder, NumbersAreUnique, EverAdded;
    var n := |s.edits| - 1;
    EmptyLevelsAreInOrder();
    LiveAdded(EmptyVersion(), s.edits);
    assert NoteFits(s.edits, notes, n, s.nextFile, s.lastSequence);
    assert s.edits[..n + 1] == s.edits;
    forall l: nat, f: File | l < |s.v| && f in s.v[l] ensures f.number < notes[n].0 + 1 {
      assert Seen(EmptyVersion(), s.edits, l, f.number);
    }
  }
}
