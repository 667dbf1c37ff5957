/** The engine as a state machine: writes, memtable switches, flushes, trivial moves, compactions from their
    start over each output they open to their end, and snapshots, in any order; also flushes, writes and
    snapshots while a compaction runs. */
module Engine {
  import opened Options
  import opened InternalKeys
  import opened Versions
  import opened VersionEdits
  import opened CompactionInputs
  import opened Compactions
  import opened CompactionReads
  import opened Installs
  import opened Cuts

  // `inputVersion` is the version the latest compaction was set up on, `hist` every write so far, `floor`
  // the smallest_snapshot of the latest compaction, `edits` what the manifest holds, and `begun` the numbers
  // of the outputs that the running compaction has opened so far.
  datatype State = State(
    mem: seq<Entry>,
    imm: Option<seq<Entry>>,
    v: Levels,
    lastSequence: nat,
    snapshots: seq<nat>,
    nextFile: nat,
    running: Option<Job>,
    inputVersion: Levels,
    hist: seq<Entry>,
    floor: nat,
    edits: seq<Edit>,
    begun: seq<nat>
  )

  function EmptyVersion(): (v: Levels)
    ensures |v| == NUM_LEVELS && forall l | 0 <= l < NUM_LEVELS :: v[l] == []
  {
    seq(NUM_LEVELS, _ => [])
  }

  function Initial(): State {
    State([], None, EmptyVersion(), 0, [], 2, None, EmptyVersion(), [], 0, [], [])
  }

  function ImmEntries(s: State): seq<Entry> {
    if s.imm.Some? then s.imm.value else []
  }

  ghost function InMemory(s: State): Contents {
    Of(s.mem) + Of(ImmEntries(s))
  }

  ghost function Tree(s: State): Contents {
    ContentsFrom(s.v, 0)
  }

  ghost function All(s: State): Contents {
    InMemory(s) + Tree(s)
  }

  // ----- what holds in every reachable state -----

  // Everything stored is a write of the history, and newer data sits nearer the top.
  ghost predicate Layered(s: State) {
    && Sorted(s.mem) && Sorted(ImmEntries(s))
    && IsHistory(s.hist) && |s.hist| == s.lastSequence < MAX_SEQUENCE
    && All(s) <= Of(s.hist)
    && Newer(Of(s.mem), Of(ImmEntries(s)) + Tree(s))
    && Newer(Of(ImmEntries(s)), Tree(s))
  }

  ghost predicate SnapshotsAbove(s: State) {
    && s.floor <= s.lastSequence
    && (forall i | 0 <= i < |s.snapshots| :: s.floor <= s.snapshots[i] <= s.lastSequence)
    && forall i, j | 0 <= i < j < |s.snapshots| :: s.snapshots[i] <= s.snapshots[j]
  }

  // The inputs were selected from a valid version, and only flushes have changed it since.
  ghost predicate JobFits(s: State) {
    s.running.Some? ==> Fits(s.running.value, s.inputVersion, s.v)
  }

  ghost predicate Fits(j: Job, b: Levels, v: Levels) {
    j.level + 1 < NUM_LEVELS == |b| && ValidVersion(b) && Selects(b, j.level, j.inputs0, j.inputs1) && Overlaid(b, v)
  }

  // What sits above the version the compaction was set up on.
  ghost function Above(s: State): Contents {
    InMemory(s) + Since(s.inputVersion, s.v)
  }

  // A file number seen in a level is never in a shallower one again.
  ghost predicate Descends(edits: seq<Edit>, v: Levels, next: nat) {
    forall l: nat, n: nat | Seen(EmptyVersion(), edits, l, n) ::
      n < next && forall m: nat, f: File {:trigger f in v[m]} | m < |v| && f in v[m] && f.number == n :: l <= m
  }

  ghost predicate ManifestMatches(s: State) {
    && AllValid(s.edits)
    && NumbersAreFresh(EmptyVersion(), s.edits)
    && s.v == Live(EmptyVersion(), s.edits)
    && Descends(s.edits, s.v, s.nextFile)
  }

  // No edit has given these numbers to a file.
  ghost predicate Unseen(edits: seq<Edit>, begun: seq<nat>) {
    forall l: nat, n: nat | Seen(EmptyVersion(), edits, l, n) :: n !in begun
  }

  ghost predicate Without(v: Levels, begun: seq<nat>) {
    forall l, f | 0 <= l < |v| && f in v[l] :: f.number !in begun
  }

  ghost predicate Ascends(begun: seq<nat>, next: nat) {
    && (forall i, k | 0 <= i < k < |begun| :: begun[i] < begun[k])
    && forall i | 0 <= i < |begun| :: begun[i] < next
  }

  ghost predicate BegunFit(s: State) {
    && (s.running.None? ==> s.begun == [])
    && Ascends(s.begun, s.nextFile) && Unseen(s.edits, s.begun) && Without(s.v, s.begun)
  }

  ghost predicate Structure(s: State) {
    && Settled(s.v, s.nextFile)
    && Layered(s)
    && SnapshotsAbove(s)
    && JobFits(s)
    && ManifestMatches(s)
    && BegunFit(s)
  }

  // Every read a caller can still make is answered as the history answers it.
  ghost predicate ReadsRight(s: State) {
    forall k, t | s.floor <= t :: Read(All(s), k, t) == Lookup(s.hist, k, t)
  }

  // ----- the steps -----

  datatype Action =
    | Write(ops: seq<(Key, Op)>)
    | SwitchMemtable
    | Flush(at: nat, size: nat)
    | Move(job: Job)
    | StartCompaction(job: Job)
    | OpenOutput
    | FinishCompaction(outputs: seq<File>)
    | TakeSnapshot
    | ReleaseSnapshot(index: nat)

  // The operations of a batch, stamped with the sequence numbers after `last`.
  function Stamp(last: nat, ops: seq<(Key, Op)>): (es: seq<Entry>)
    ensures |es| == |ops|
  {
    seq(|ops|, i requires 0 <= i < |ops| => Entry(ops[i].0, last + 1 + i, ops[i].1))
  }

  function InsertAll(mem: seq<Entry>, es: seq<Entry>): seq<Entry> {
    if es == [] then mem else Insert(InsertAll(mem, es[..|es| - 1]), es[|es| - 1])
  }

  function CompactionEdit(j: Job, outputs: seq<File>): Edit {
    Edit((set i | 0 <= i < |j.inputs0| :: (j.level, j.inputs0[i].number))
         + (set i | 0 <= i < |j.inputs1| :: (j.level + 1, j.inputs1[i].number)),
         seq(|outputs|, i requires 0 <= i < |outputs| => (j.level + 1, outputs[i])))
  }

  function FlushEdit(at: nat, f: File): Edit {
    Edit({}, [(at, f)])
  }

  // kMaxMemCompactLevel
  const MAX_MEM_COMPACT_LEVEL: nat := 2

  ghost predicate NothingMeets(v: Levels, l: nat, f: File) {
    forall g {:trigger g in v[l]} | l < |v| && g in v[l] :: !Meets(g, Some(f.Smallest().key), Some(f.Largest().key))
  }

  // A table at this level could go one deeper: nothing in its way, and not too much of the level after.
  ghost predicate CanSink(v: Levels, l: nat, f: File, maxFileSize: nat) {
    && NothingMeets(v, l + 1, f)
    && (l + 2 < |v| ==>
          TotalFileSize(Overlapping(v[l + 2], Range(Some(f.Smallest().key), Some(f.Largest().key)))) <= 10 * maxFileSize)
  }

  // Where the table of a memtable goes: as deep as it can sink, but not below level 2, and nowhere when
  // a file of level 0 shares its key range.
  ghost predicate IsPicked(v: Levels, f: File, maxFileSize: nat, level: nat) {
    && level <= MAX_MEM_COMPACT_LEVEL
    && if NothingMeets(v, 0, f) then
         && (forall l | 0 <= l < level :: CanSink(v, l, f, maxFileSize))
         && (level < MAX_MEM_COMPACT_LEVEL ==> !CanSink(v, level, f, maxFileSize))
       else
         level == 0
  }

  // A flush from this state goes there.
  ghost predicate GoesWherePicked(s: State, at: nat, size: nat, maxFileSize: nat) {
    s.imm.Some? && s.imm.value != [] && Table(s.nextFile, size, s.imm.value).Valid() ==>
      IsPicked(s.v, Table(s.nextFile, size, s.imm.value), maxFileSize, at)
  }

  // LogAndApply
  ghost predicate Logs(s: State, e: Edit, v': Levels) {
    |s.v| == NUM_LEVELS && e.Valid() && v' == Applied(s.v, e)
  }

  ghost predicate FlushNext(s: State, at: nat, size: nat, s': State) {
    && s.imm.Some?
    && if s.imm.value == [] then
         s' == s.(imm := None, nextFile := s.nextFile + 1, v := s'.v, edits := s.edits + [Edit({}, [])])
         && Logs(s, Edit({}, []), s'.v)
       else
         && Table(s.nextFile, size, s.imm.value).Valid()
         && var f: File := Table(s.nextFile, size, s.imm.value);
            && at < NUM_LEVELS && FreePlace(s.v, at, f)
            && s' == s.(imm := None, nextFile := s.nextFile + 1, v := s'.v, edits := s.edits + [FlushEdit(at, f)])
            && Logs(s, FlushEdit(at, f), s'.v)
  }

  ghost predicate CanSelect(s: State, j: Job) {
    && s.imm.None? && s.running.None?
    && j.level + 1 < NUM_LEVELS == |s.v| && Selects(s.v, j.level, j.inputs0, j.inputs1)
  }

  ghost predicate MoveNext(s: State, j: Job, s': State) {
    && CanSelect(s, j) && |j.inputs0| == 1 && j.inputs1 == []
    && s' == s.(v := s'.v, edits := s.edits + [CompactionEdit(j, j.inputs0)])
    && Logs(s, CompactionEdit(j, j.inputs0), s'.v)
  }

  // The oldest snapshot, or the present when there is none.
  function SmallestSnapshot(s: State): nat {
    if s.snapshots == [] then s.lastSequence else s.snapshots[0]
  }

  ghost predicate FinishNext(s: State, outputs: seq<File>, s': State) {
    && s.running.Some?
    && var j := s.running.value;
       var es := MergeFiles(j.inputs0 + j.inputs1);
       && Flatten(outputs) == Kept(s.inputVersion, j.level, es, |es|, s.floor)
       && (forall i | 0 <= i < |outputs| :: outputs[i].number == OutputNumber(s.begun, s.nextFile, i))
       && j.level + 1 < NUM_LEVELS
       && s' == s.(running := None, begun := [], nextFile := NextAfter(s.begun, s.nextFile, |outputs|), v := s'.v,
                   edits := s.edits + [CompactionEdit(j, outputs)])
       && Logs(s, CompactionEdit(j, outputs), s'.v)
  }

  ghost predicate Next(s: State, a: Action, s': State) {
    match a
    case Write(ops) =>
      && s.lastSequence + |ops| < MAX_SEQUENCE
      && s' == s.(mem := InsertAll(s.mem, Stamp(s.lastSequence, ops)),
                  hist := s.hist + Stamp(s.lastSequence, ops),
                  lastSequence := s.lastSequence + |ops|)
    case SwitchMemtable =>
      s.imm.None? && s' == s.(imm := Some(s.mem), mem := [], nextFile := s.nextFile + 1)
    case Flush(at, size) => FlushNext(s, at, size, s')
    case Move(j) => MoveNext(s, j, s')
    case StartCompaction(j) =>
      CanSelect(s, j) && s' == s.(running := Some(j), inputVersion := s.v, floor := SmallestSnapshot(s))
    case OpenOutput =>
      s.running.Some? && s' == s.(begun := s.begun + [s.nextFile], nextFile := s.nextFile + 1)
    case FinishCompaction(outputs) => FinishNext(s, outputs, s')
    case TakeSnapshot =>
      s' == s.(snapshots := s.snapshots + [s.lastSequence])
    case ReleaseSnapshot(i) =>
      i < |s.snapshots| && s' == s.(snapshots := s.snapshots[..i] + s.snapshots[i + 1..])
  }

  // The one step that can break a read.
  ghost predicate Resurrecting(s: State) {
    s.running.Some? && exists i, next, t :: Resurrects(Above(s), s.inputVersion, s.running.value, s.floor, i, next, t)
  }

  // The entries that the running compaction keeps: they are known before they are cut into files.
  ghost function KeptBy(s: State): seq<Entry>
    requires s.running.Some?
  {
    var j := s.running.value;
    var es := MergeFiles(j.inputs0 + j.inputs1);
    Kept(s.inputVersion, j.level, es, |es|, s.floor)
  }

  // The one step that can break the order of a level: the entries on both sides of a table that was flushed
  // into the level of the outputs go into one file.
  ghost predicate Colliding(s: State, a: Action) {
    a.FinishCompaction? && s.running.Some? && Bridges(s.inputVersion, s.v, s.running.value, KeptBy(s), a.outputs)
  }

  // The files two levels down that the inputs of a compaction meet.
  function GrandparentsOf(v: Levels, j: Job): seq<File> {
    if j.inputs0 == [] then [] else Grandparents(v, j.level, j.inputs0, j.inputs1)
  }

  // What the running compaction has to do.
  ghost function WorkOf(s: State, maxFileSize: nat, tableSize: seq<Entry> -> nat): Work
    requires s.running.Some?
  {
    var j := s.running.value;
    Work(s.inputVersion, j.level, GrandparentsOf(s.inputVersion, j), MergeFiles(j.inputs0 + j.inputs1), s.floor, maxFileSize,
         tableSize)
  }

  // However the kept entries are cut, they stay clear of those tables.
  ghost predicate ClearOfFlushes(s: State)
    requires s.running.Some?
  {
    AllOneSide(s.inputVersion, s.v, s.running.value, KeptBy(s))
  }
}
