/** The manifest of the engine: every run has one, and a restart from any part of it finds the version
    of that moment. */
module EngineManifests {
  import opened Options
  import opened Sequences
  import opened ProtoVarints
  import opened LogFormat
  import opened InternalKeys
  import opened Versions
  import opened VersionEdits
  import opened CompactionInputs
  import opened Compactions
  import opened CompactionReads
  import opened Installs
  import opened Engine
  import opened EngineRuns
  import opened ManifestRecords
  import opened ManifestRecovery

  // ----- a number names one file for good -----

  ghost predicate Named(edits: seq<Edit>) {
    forall l: nat, k: nat, f: File, g: File | EverAdded(edits, l, f) && EverAdded(edits, k, g) && f.number == g.number :: f == g
  }

  ghost predicate DeletedBelow(edits: seq<Edit>, next: nat) {
    forall e, x | e in edits && x in e.deleted :: x.1 < next
  }

  // An edit adds files that have their number already, or have new numbers of their own.
  ghost predicate NamesFiles(edits: seq<Edit>, e: Edit) {
    && (forall l: nat, f: File | Adds(e, l, f) ::
          (exists k: nat :: EverAdded(edits, k, f)) || forall k: nat, g: File | EverAdded(edits, k, g) :: g.number != f.number)
    && (forall l: nat, k: nat, f: File, g: File | Adds(e, l, f) && Adds(e, k, g) && f.number == g.number :: f == g)
  }

  lemma OneMoreName(edits: seq<Edit>, e: Edit)
    requires Named(edits) && NamesFiles(edits, e)
    ensures Named(edits + [e])
  {
    hide Adds, EverAdded;
    forall l: nat, k: nat, f: File, g: File | EverAdded(edits + [e], l, f) && EverAdded(edits + [e], k, g) && f.number == g.number
      ensures f == g
    {
      EverAddedSnoc(edits, e, l, f);
      EverAddedSnoc(edits, e, k, g);
    }
  }

  // Numbers from the next one on, and those of outputs begun, are new.
  lemma NewNumbers(s: State, f: File)
    requires Structure(s) && (f.number >= s.nextFile || f.number in s.begun)
    ensures forall k: nat, g: File | EverAdded(s.edits, k, g) :: g.number != f.number
  {
    hide Settled, Layered, JobFits, Adds, EverAdded, Seen, Live;
    forall k: nat, g: File | EverAdded(s.edits, k, g) ensures g.number < s.nextFile && g.number !in s.begun {
      EverAddedIsSeen(EmptyVersion(), s.edits, k, g);
    }
  }

  lemma PresentIsAdded(s: State, l: nat, f: File)
    requires Structure(s) && l < |s.v| && f in s.v[l]
    ensures EverAdded(s.edits, l, f)
  {
    hide Layered, JobFits, Descends, EverAdded, Live, AllSeen;
    EmptyLevelsAreInOrder();
    LiveAdded(EmptyVersion(), s.edits);
  }

  lemma FlushNames(s: State, at: nat, f: File)
    requires Structure(s) && f.number == s.nextFile
    ensures NamesFiles(s.edits, FlushEdit(at, f))
  {
    hide Structure, EverAdded;
    NewNumbers(s, f);
    forall l: nat, g: File | Adds(FlushEdit(at, f), l, g) ensures g == f {
    }
  }

  lemma MoveNames(s: State, j: Job)
    requires Structure(s) && CanSelect(s, j)
    ensures NamesFiles(s.edits, CompactionEdit(j, j.inputs0))
  {
    hide Structure, EverAdded, LeavesNewer, Named, Overlapping;
    var e := CompactionEdit(j, j.inputs0);
    forall l: nat, f: File | Adds(e, l, f) ensures EverAdded(s.edits, j.level, f) && f in s.v[j.level] {
      CompactionAdds(j, j.inputs0, l, f);
      PresentIsAdded(s, j.level, f);
    }
    NumbersDiffer(s);
  }

  lemma NumbersDiffer(s: State)
    requires Structure(s)
    ensures NumbersAreUnique(s.v) && NumbersBelow(s.v, s.nextFile)
  {
    hide ValidVersion, Layered, JobFits, ManifestMatches;
  }

  lemma OutputsName(s: State, j: Job, outputs: seq<File>)
    requires Structure(s) && forall i | 0 <= i < |outputs| :: outputs[i].number == OutputNumber(s.begun, s.nextFile, i)
    ensures NamesFiles(s.edits, CompactionEdit(j, outputs))
  {
    hide Settled, Layered, SnapshotsAbove, JobFits, ManifestMatches, Unseen, Without, EverAdded;
    var e := CompactionEdit(j, outputs);
    forall l: nat, f: File | Adds(e, l, f) ensures f in outputs {
      CompactionAdds(j, outputs, l, f);
    }
    forall f | f in outputs ensures forall k: nat, g: File | EverAdded(s.edits, k, g) :: g.number != f.number {
      NewNumbers(s, f);
    }
  }

  lemma NothingNamed(edits: seq<Edit>)
    ensures NamesFiles(edits, Edit({}, []))
  {
  }

  // At most one edit a step, and it names files.
  lemma StepNames(s: State, a: Action, s': State)
    requires Structure(s) && Next(s, a, s')
    ensures s'.edits == s.edits
         || (s'.edits != [] && s'.edits[..|s'.edits| - 1] == s.edits && NamesFiles(s.edits, s'.edits[|s.edits|]))
  {
    hide Structure, NamesFiles, FreePlace, Logs, Selects, Kept;
    match a
    case Flush(at, size) =>
      if s.imm.value == [] {
        NothingNamed(s.edits);
        assert s'.edits == s.edits + [Edit({}, [])];
      } else {
        var f: File := Table(s.nextFile, size, s.imm.value);
        FlushNames(s, at, f);
        assert s'.edits == s.edits + [FlushEdit(at, f)];
      }
    case Move(j) =>
      MoveNames(s, j);
      assert s'.edits == s.edits + [CompactionEdit(j, j.inputs0)];
    case FinishCompaction(outputs) =>
      OutputsName(s, s.running.value, outputs);
      assert s'.edits == s.edits + [CompactionEdit(s.running.value, outputs)];
    case _ =>
  }

  // What an edit deletes is there, so it has a number that is taken.
  lemma JobDeletesBelow(s: State, j: Job, outputs: seq<File>)
    requires Structure(s) && j.level + 1 < |s.v|
    requires (forall f | f in j.inputs0 :: f in s.v[j.level]) && forall f | f in j.inputs1 :: f in s.v[j.level + 1]
    ensures forall x | x in CompactionEdit(j, outputs).deleted :: x.1 < s.nextFile
  {
    hide Structure;
    NumbersDiffer(s);
    assert forall f | f in j.inputs0 :: f.number < s.nextFile;
    assert forall f | f in j.inputs1 :: f.number < s.nextFile;
  }

  lemma StepDeletesBelow(s: State, a: Action, s': State)
    requires Structure(s) && Next(s, a, s') && DeletedBelow(s.edits, s.nextFile)
    ensures DeletedBelow(s'.edits, s'.nextFile) && s.nextFile <= s'.nextFile
  {
    hide Settled, Layered, ManifestMatches, SnapshotsAbove, FreePlace, Logs, Selects, Kept, CompactionEdit, Fits;
    match a
    case Move(j) =>
      InputsAreInLevels(s.v, j);
      JobDeletesBelow(s, j, j.inputs0);
    case FinishCompaction(outputs) =>
      FitsInputs(s.running.value, s.inputVersion, s.v);
      JobDeletesBelow(s, s.running.value, outputs);
    case _ =>
  }

  // ----- what LogAndApply writes along a run -----

  // The next file number and the last sequence number at each edit.
  ghost function Notes(states: seq<State>, n: nat): seq<(nat, nat)>
    requires n < |states|
  {
    if n == 0 then []
    else if |states[n].edits| == |states[n - 1].edits| then Notes(states, n - 1)
    else Notes(states, n - 1) + [(states[n].nextFile, states[n].lastSequence)]
  }

  ghost predicate NoteFits(edits: seq<Edit>, notes: seq<(nat, nat)>, i: nat, next: nat, last: nat)
    requires i < |edits| == |notes|
  {
    SeenBelow(EmptyVersion(), edits[..i + 1], notes[i].0) && notes[i].0 <= next && notes[i].1 <= last
  }

  ghost predicate NotesFit(edits: seq<Edit>, notes: seq<(nat, nat)>, next: nat, last: nat) {
    |notes| == |edits| && forall i: nat | i < |edits| :: NoteFits(edits, notes, i, next, last)
  }

  lemma NotesStay(edits: seq<Edit>, notes: seq<(nat, nat)>, next: nat, last: nat, next': nat, last': nat)
    requires NotesFit(edits, notes, next, last) && next <= next' && last <= last'
    ensures NotesFit(edits, notes, next', last')
  {
    hide SeenBelow;
    forall i: nat | i < |edits| ensures NoteFits(edits, notes, i, next', last') {
      assert NoteFits(edits, notes, i, next, last);
    }
  }

  lemma OneMoreNote(edits: seq<Edit>, notes: seq<(nat, nat)>, e: Edit, next: nat, last: nat)
    requires NotesFit(edits, notes, next, last) && SeenBelow(EmptyVersion(), edits + [e], next)
    ensures NotesFit(edits + [e], notes + [(next, last)], next, last)
  {
    hide SeenBelow;
    var all := edits + [e];
    forall i: nat | i < |all| ensures NoteFits(all, notes + [(next, last)], i, next, last) {
      if i < |edits| {
        assert NoteFits(edits, notes, i, next, last) && all[..i + 1] == edits[..i + 1];
      } else {
        assert all[..i + 1] == all;
      }
    }
  }

  lemma SequencesGrow(s: State, a: Action, s': State)
    requires Next(s, a, s')
    ensures s.lastSequence <= s'.lastSequence
  {
    hide FreePlace, Logs, Selects, Kept, CompactionEdit;
  }

  lemma StateSeenBelow(s: State)
    requires Structure(s)
    ensures SeenBelow(EmptyVersion(), s.edits, s.nextFile)
  {
    hide Settled, Layered, JobFits, Seen, Live;
  }

  lemma {:induction false} RunNames(states: seq<State>, actions: seq<Action>, n: nat)
    requires IsRunOf(states, actions) && n < |states| && NeverCollides(states, actions, n)
    ensures Structure(states[n]) && Named(states[n].edits) && DeletedBelow(states[n].edits, states[n].nextFile)
    ensures NotesFit(states[n].edits, Notes(states, n), states[n].nextFile, states[n].lastSequence)
  {
    hide Structure, Next, Named, NamesFiles, ReadsRight, SeenBelow, DeletedBelow, NotesFit;
    assert n == 0 ==> NotesFit([], [], 2, 0) by { NoNotes(); }
    RunsAreRight(states, actions, n);
    if n == 0 {
      InitialNames();
    } else {
      var s, s' := states[n - 1], states[n];
      RunNames(states, actions, n - 1);
      RunsAreRight(states, actions, n - 1);
      StepNames(s, actions[n - 1], s');
      StepDeletesBelow(s, actions[n - 1], s');
      SequencesGrow(s, actions[n - 1], s');
      NotesStay(s.edits, Notes(states, n - 1), s.nextFile, s.lastSequence, s'.nextFile, s'.lastSequence);
      if s'.edits != s.edits {
        var e := s'.edits[|s.edits|];
        assert s'.edits == s.edits + [e];
        OneMoreName(s.edits, e);
        StateSeenBelow(s');
        OneMoreNote(s.edits, Notes(states, n - 1), e, s'.nextFile, s'.lastSequence);
      }
    }
  }

  lemma NoNotes()
    ensures NotesFit([], [], 2, 0)
  {
  }

  lemma InitialNames()
    ensures Named(Initial().edits) && DeletedBelow(Initial().edits, 2)
  {
  }

  // ----- the records -----

  // The table that has ever been added under a number.
  ghost function TableUnder(edits: seq<Edit>, n: nat): File {
    if exists l: nat, f: File :: EverAdded(edits, l, f) && f.number == n then
      var l: nat, f: File :| EverAdded(edits, l, f) && f.number == n;
      f
    else
      Table(0, 0, [Entry(0.0, 0, Deletion)])
  }

  ghost function DiskOf(edits: seq<Edit>, key: Entry -> Bytes): Disk {
    Disk(n => TableUnder(edits, n), key)
  }

  lemma AllStored(edits: seq<Edit>, key: Entry -> Bytes, l: nat, f: File)
    requires Named(edits) && EverAdded(edits, l, f)
    ensures Stored(DiskOf(edits, key), f)
  {
    hide EverAdded;
    assert TableUnder(edits, f.number) == f;
  }

  function RecordOf(d: Disk, e: Edit, log: nat, note: (nat, nat)): Record {
    Record(None, Some(log), Some(0), Some(note.0), Some(note.1), [], e.deleted,
           seq(|e.added|, i requires 0 <= i < |e.added| => (e.added[i].0, MetaOf(d, e.added[i].1))))
  }

  // A snapshot of the empty version, and the edits with their notes.
  ghost function ManifestOf(d: Disk, name: Bytes, edits: seq<Edit>, logs: seq<nat>, notes: seq<(nat, nat)>): seq<Record>
    requires |logs| == |notes| == |edits|
  {
    [SnapshotOf(d, name, EmptyVersion(), [])]
    + seq(|edits|, i requires 0 <= i < |edits| => RecordOf(d, edits[i], logs[i], notes[i]))
  }

  // The numbers, sizes and keys fit the format of the manifest.
  ghost predicate FitsFormat(s: State, key: Entry -> Bytes, name: Bytes, logs: seq<nat>) {
    && FitsSlice(name) && (forall e :: FitsSlice(key(e))) && FitsNumber(s.nextFile)
    && |logs| == |s.edits| && (forall i | 0 <= i < |logs| :: FitsNumber(logs[i]))
    && forall l: nat, f: File | EverAdded(s.edits, l, f) :: FitsNumber(f.size)
  }

  lemma RecordFits(s: State, key: Entry -> Bytes, name: Bytes, logs: seq<nat>, i: nat, note: (nat, nat))
    requires Structure(s) && Named(s.edits) && DeletedBelow(s.edits, s.nextFile) && FitsFormat(s, key, name, logs)
    requires i < |s.edits| && note.0 <= s.nextFile && note.1 <= s.lastSequence
    ensures var d := DiskOf(s.edits, key);
      var r := RecordOf(d, s.edits[i], logs[i], note);
      InRange(r) && OnDisk(d, r) && EditOf(d, r) == s.edits[i]
  {
    hide Settled, JobFits, Descends, Live, EverAdded, TableUnder, Named, NumbersAreFresh, FitsSlice;
    var e, d := s.edits[i], DiskOf(s.edits, key);
    var r := RecordOf(d, e, logs[i], note);
    assert AllValid(s.edits) && e.Valid();
    assert s.lastSequence < LIMIT64;
    forall k: nat | k < |e.added|
      ensures FitsLevel(e.added[k].0) && FitsMeta(MetaOf(d, e.added[k].1)) && Stored(d, e.added[k].1)
    {
      var l, f := e.added[k].0, e.added[k].1;
      AddedNow(s.edits, i, l, f);
      AllStored(s.edits, key, l, f);
      EverAddedIsSeen(EmptyVersion(), s.edits, l, f);
      StateSeenBelow(s);
      assert Seen(EmptyVersion(), s.edits, l, f.number);
    }
    assert EditOf(d, r).added == e.added;
  }

  lemma AddedNow(edits: seq<Edit>, i: nat, l: nat, f: File)
    requires i < |edits| && (l, f) in edits[i].added
    ensures EverAdded(edits, l, f)
  {
    assert Adds(edits[i], l, f) && edits[i] in edits;
  }

  // The empty version to start from.
  lemma EmptySnapshotFits(d: Disk, name: Bytes)
    requires FitsSlice(name)
    ensures var r := SnapshotOf(d, name, EmptyVersion(), []);
      InRange(r) && OnDisk(d, r) && r.pointers == [] && GoodBase(d, EmptyVersion())
  {
    EmptyLevelsAreInOrder();
    NoFiles(d, EmptyVersion(), 0);
  }

  lemma {:induction false} NoFiles(d: Disk, v: Levels, l: nat)
    requires forall k | 0 <= k < |v| :: v[k] == []
    ensures FilesFrom(d, v, l) == []
    decreases |v| - l
  {
    if l < |v| {
      NoFiles(d, v, l + 1);
    }
  }

  lemma ManifestIsGood(s: State, key: Entry -> Bytes, name: Bytes, logs: seq<nat>, notes: seq<(nat, nat)>)
    requires Structure(s) && Named(s.edits) && DeletedBelow(s.edits, s.nextFile) && FitsFormat(s, key, name, logs)
    requires NotesFit(s.edits, notes, s.nextFile, s.lastSequence)
    requires |logs| == |notes| == |s.edits|
    ensures var d := DiskOf(s.edits, key);
      var m := ManifestOf(d, name, s.edits, logs, notes);
      GoodManifest(d, name, EmptyVersion(), m) && EditsOf(d, m[1..]) == s.edits
  {
    hide Structure, Named, DeletedBelow, InRange, OnDisk, SnapshotOf, GoodBase, ManifestOf, FitsFormat, NotesFit, DiskOf,
      NumbersAreFresh, SeenBelow, EditsOf;
    var d := DiskOf(s.edits, key);
    var m := ManifestOf(d, name, s.edits, logs, notes);
    FirstRecord(s, d, key, name, logs, notes);
    ManifestEdits(s, key, name, logs, notes);
    EditsAreFresh(s);
    forall i: nat | 1 <= i < |m|
      ensures InRange(m[i]) && OnDisk(d, m[i]) && Completed(name, m[i])
      ensures SeenBelow(EmptyVersion(), EditsOf(d, m[1..i + 1]), m[i].nextFile.value)
    {
      NextRecordIsGood(s, key, name, logs, notes, i);
      EditsOfPrefix(d, m, i + 1);
    }
  }

  lemma EditsAreFresh(s: State)
    requires Structure(s)
    ensures NumbersAreFresh(EmptyVersion(), s.edits)
  {
    hide Settled, Layered, JobFits, Descends;
  }

  lemma FirstRecord(s: State, d: Disk, key: Entry -> Bytes, name: Bytes, logs: seq<nat>, notes: seq<(nat, nat)>)
    requires FitsFormat(s, key, name, logs) && |logs| == |notes| == |s.edits|
    ensures var m := ManifestOf(d, name, s.edits, logs, notes);
      && |m| == |s.edits| + 1 && m[0] == SnapshotOf(d, name, EmptyVersion(), m[0].pointers)
      && InRange(m[0]) && OnDisk(d, m[0]) && GoodBase(d, EmptyVersion())
  {
    hide InRange, OnDisk, GoodBase, FilesFrom;
    EmptySnapshotFits(d, name);
  }

  lemma NextRecordIsGood(s: State, key: Entry -> Bytes, name: Bytes, logs: seq<nat>, notes: seq<(nat, nat)>, i: nat)
    requires Structure(s) && Named(s.edits) && DeletedBelow(s.edits, s.nextFile) && FitsFormat(s, key, name, logs)
    requires NotesFit(s.edits, notes, s.nextFile, s.lastSequence) && 1 <= i <= |s.edits|
    requires |logs| == |notes| == |s.edits|
    ensures var d := DiskOf(s.edits, key);
      var r := ManifestOf(d, name, s.edits, logs, notes)[i];
      && InRange(r) && OnDisk(d, r) && EditOf(d, r) == s.edits[i - 1] && Completed(name, r)
      && SeenBelow(EmptyVersion(), s.edits[..i], r.nextFile.value)
  {
    hide Structure, Named, DeletedBelow, FitsFormat, InRange, OnDisk, SeenBelow, DiskOf, EditOf;
    assert NoteFits(s.edits, notes, i - 1, s.nextFile, s.lastSequence);
    RecordFits(s, key, name, logs, i - 1, notes[i - 1]);
    RecordIsComplete(DiskOf(s.edits, key), name, s.edits[i - 1], logs[i - 1], notes[i - 1]);
  }

  lemma ManifestEdits(s: State, key: Entry -> Bytes, name: Bytes, logs: seq<nat>, notes: seq<(nat, nat)>)
    requires Structure(s) && Named(s.edits) && DeletedBelow(s.edits, s.nextFile) && FitsFormat(s, key, name, logs)
    requires NotesFit(s.edits, notes, s.nextFile, s.lastSequence)
    requires |logs| == |notes| == |s.edits|
    ensures var d := DiskOf(s.edits, key);
      EditsOf(d, ManifestOf(d, name, s.edits, logs, notes)[1..]) == s.edits
  {
    hide Structure, Named, DeletedBelow, FitsFormat, InRange, OnDisk, SeenBelow, DiskOf, EditOf, RecordOf, SnapshotOf;
    var d := DiskOf(s.edits, key);
    var m := ManifestOf(d, name, s.edits, logs, notes);
    forall i: nat | i < |s.edits| ensures EditOf(d, m[i + 1]) == s.edits[i] {
      NextRecordIsGood(s, key, name, logs, notes, i + 1);
    }
    assert EditsOf(d, m[1..]) == s.edits;
  }

  lemma RecordIsComplete(d: Disk, name: Bytes, e: Edit, log: nat, note: (nat, nat))
    ensures Completed(name, RecordOf(d, e, log, note)) && RecordOf(d, e, log, note).nextFile == Some(note.0)
  {
  }

  // ----- restarts of the engine -----

  // What a restart finds when the first n bytes of the manifest are left.
  ghost predicate RestartsRight(s: State, c: Checksum, d: Disk, name: Bytes, m: seq<Record>, logs: seq<nat>,
                                notes: seq<(nat, nat)>, n: nat)
    requires |logs| == |notes| == |s.edits| && n <= |LogOf(c, RecordBytes(m))| && |m| == |s.edits| + 1
  {
    var k := Complete(c, RecordBytes(m), n);
    var r := Recovered(c, d, name, LogOf(c, RecordBytes(m))[..n]);
    && (r.Some? <==> k >= 2)
    && (r.Some? ==>
          && AllValid(s.edits[..k - 1])
          && r.value == Opened(Live(EmptyVersion(), s.edits[..k - 1]), logs[k - 2], 0, notes[k - 2].0 + 1, notes[k - 2].1,
                               AllPointers(m[..k])))
    && (r.Some? && k == |m| ==> r.value.version == s.v)
  }

  // Every run of the engine has a manifest, and after a crash that leaves k of its records a restart finds
  // the version after k - 1 edits with the numbers noted then: the present version when nothing is
  // missing.  It fails exactly when less than the first edit is left.
  lemma EngineRestarts(states: seq<State>, actions: seq<Action>, n: nat, c: Checksum, key: Entry -> Bytes, name: Bytes,
                       logs: seq<nat>)
    returns (d: Disk, m: seq<Record>)
    requires IsRunOf(states, actions) && n < |states| && NeverCollides(states, actions, n) && c.Lawful()
      && FitsFormat(states[n], key, name, logs)
    ensures d.key == key && GoodManifest(d, name, EmptyVersion(), m) && EditsOf(d, m[1..]) == states[n].edits
    ensures |m| == |states[n].edits| + 1 && |Notes(states, n)| == |states[n].edits|
    ensures forall left: nat | left <= |LogOf(c, RecordBytes(m))| ::
      RestartsRight(states[n], c, d, name, m, logs, Notes(states, n), left)
  {
    hide Structure, Next, Named, DeletedBelow, GoodManifest, RestartsRight, RecordOf, LogOf, SnapshotOf, Checksum.Lawful;
    var s, notes := states[n], Notes(states, n);
    RunNames(states, actions, n);
    d := DiskOf(s.edits, key);
    m := ManifestOf(d, name, s.edits, logs, notes);
    ManifestIsGood(s, key, name, logs, notes);
    forall left: nat | left <= |LogOf(c, RecordBytes(m))| ensures RestartsRight(s, c, d, name, m, logs, notes, left) {
      OneRestart(s, c, d, name, m, logs, notes, left);
    }
  }

  lemma OneRestart(s: State, c: Checksum, d: Disk, name: Bytes, m: seq<Record>, logs: seq<nat>, notes: seq<(nat, nat)>, left: nat)
    requires Structure(s) && c.Lawful() && |logs| == |notes| == |s.edits| && |m| == |s.edits| + 1
    requires m == ManifestOf(d, name, s.edits, logs, notes) && GoodManifest(d, name, EmptyVersion(), m)
      && EditsOf(d, m[1..]) == s.edits
    requires left <= |LogOf(c, RecordBytes(m))|
    ensures RestartsRight(s, c, d, name, m, logs, notes, left)
  {
    hide GoodManifest, SeenBelow, Live, Recovered, LogOf, EditsOf, ManifestOf, Checksum.Lawful, AllPointers;
    hide Structure;
    var k := Complete(c, RecordBytes(m), left);
    ManifestRecovers(c, d, name, EmptyVersion(), m, left);
    PresentIsLive(s);
    if k >= 2 {
      LastRecord(d, name, s.edits, logs, notes, k - 1);
      EditsOfPrefix(d, m, k);
    }
  }

  lemma PresentIsLive(s: State)
    requires Structure(s)
    ensures AllValid(s.edits) && s.v == Live(EmptyVersion(), s.edits) && s.edits[..|s.edits|] == s.edits
  {
    hide Settled, Layered, JobFits, Descends;
  }

  lemma EditsOfPrefix(d: Disk, m: seq<Record>, k: nat)
    requires 1 <= k <= |m|
    ensures EditsOf(d, m[1..k]) == EditsOf(d, m[1..])[..k - 1]
  {
    hide EditOf;
  }

  lemma LastRecord(d: Disk, name: Bytes, edits: seq<Edit>, logs: seq<nat>, notes: seq<(nat, nat)>, i: nat)
    requires |logs| == |notes| == |edits| && 1 <= i <= |edits|
    ensures var r := ManifestOf(d, name, edits, logs, notes)[i];
      && r.logNumber == Some(logs[i - 1]) && r.prevLogNumber == Some(0)
      && r.nextFile == Some(notes[i - 1].0) && r.lastSequence == Some(notes[i - 1].1)
  {
    hide SnapshotOf, MetaOf;
  }
}
