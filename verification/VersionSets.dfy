/** The version set: switches versions by writing an edit to the manifest first, and finds the last
    version again after a restart. */
module VersionSets {
  import opened Options
  import opened Sequences
  import opened LogFormat
  import opened LogWriter
  import opened LogReader
  import opened LogRecovery
  import opened Versions
  import opened VersionEdits
  import opened ManifestRecords
  import opened ManifestEdits
  import opened ManifestRecovery
  import Engine

  // An edit with the numbers that LogAndApply fills in.
  function Completion(r: ManifestRecords.Record, logNumber: nat, prevLogNumber: nat, nextFile: nat,
                      lastSequence: nat): ManifestRecords.Record {
    r.(logNumber := Some(if r.logNumber.Some? then r.logNumber.value else logNumber),
       prevLogNumber := Some(if r.prevLogNumber.Some? then r.prevLogNumber.value else prevLogNumber),
       nextFile := Some(nextFile), lastSequence := Some(lastSequence))
  }

  // The pointers that are set.
  function PointersFrom(pointers: seq<Bytes>, l: nat): seq<(nat, Bytes)>
    decreases |pointers| - l
  {
    if l >= |pointers| then []
    else (if pointers[l] == [] then [] else [(l, pointers[l])]) + PointersFrom(pointers, l + 1)
  }

  // Read back onto no pointers at all, they are the pointers again.
  lemma {:induction false} PointersRebuilt(pointers: seq<Bytes>, none: seq<Bytes>, l: nat, k: nat)
    requires l <= |pointers| == |none| && k < |none| && none[k] == []
    ensures WithPointers(none, PointersFrom(pointers, l))[k] == if k < l then [] else pointers[k]
    decreases |pointers| - l
  {
    hide WithPointers, SetsPointer, PointersFrom;
    NextPointer(pointers, l);
    if l < |pointers| {
      var rest := PointersFrom(pointers, l + 1);
      PointersRebuilt(pointers, none, l + 1, k);
      LaterLevels(pointers, l + 1);
      if pointers[l] != [] {
        PointerFirst(none, l, pointers[l], rest);
        PointerAt(none[l := pointers[l]], none, rest, k);
        PointerAt(none, none, rest, k);
      }
    } else {
      NoneSet(none);
    }
  }

  lemma NextPointer(pointers: seq<Bytes>, l: nat)
    ensures PointersFrom(pointers, l)
         == if l >= |pointers| then [] else if pointers[l] == [] then PointersFrom(pointers, l + 1)
            else [(l, pointers[l])] + PointersFrom(pointers, l + 1)
  {
    if l < |pointers| {
      assert [] + PointersFrom(pointers, l + 1) == PointersFrom(pointers, l + 1);
    }
  }

  lemma AllRebuilt(pointers: seq<Bytes>)
    requires |pointers| == Versions.NUM_LEVELS
    ensures WithPointers(NoPointers(), PointersFrom(pointers, 0)) == pointers
  {
    hide WithPointers, PointersFrom;
    forall k: nat | k < Versions.NUM_LEVELS ensures WithPointers(NoPointers(), PointersFrom(pointers, 0))[k] == pointers[k] {
      PointersRebuilt(pointers, NoPointers(), 0, k);
    }
  }

  lemma NoneSet(p: seq<Bytes>)
    ensures WithPointers(p, []) == p
  {
  }

  lemma LaterLevels(pointers: seq<Bytes>, l: nat)
    ensures forall k: nat | k < l :: !SetsPointer(PointersFrom(pointers, l), k)
    decreases |pointers| - l
  {
    if l < |pointers| {
      LaterLevels(pointers, l + 1);
      forall k: nat | k < l ensures !SetsPointer(PointersFrom(pointers, l), k) {
        var rest := PointersFrom(pointers, l + 1);
        if i :| 0 <= i < |PointersFrom(pointers, l)| && PointersFrom(pointers, l)[i].0 == k {
          var j := if pointers[l] == [] then i else i - 1;
          assert rest[j].0 == k && SetsPointer(rest, k);
        }
      }
    }
  }

  // The first pointer of a list, when no other is for its level.
  lemma {:induction false} PointerFirst(p: seq<Bytes>, l: nat, key: Bytes, ps: seq<(nat, Bytes)>)
    requires l < |p|
    ensures WithPointers(p, [(l, key)] + ps) == WithPointers(p[l := key], ps)
    decreases ps
  {
    var all := [(l, key)] + ps;
    if ps == [] {
      assert all[..0] == [] && all == [(l, key)];
    } else {
      var n := |ps| - 1;
      PointerFirst(p, l, key, ps[..n]);
      assert all[..n + 1] == [(l, key)] + ps[..n];
    }
  }

  // ----- manifests that grow -----

  lemma SnapshotIsGood(d: Disk, name: Bytes, base: Levels, r: ManifestRecords.Record)
    requires GoodBase(d, base) && InRange(r) && r == SnapshotOf(d, name, base, r.pointers)
    ensures GoodManifest(d, name, base, [r])
  {
    hide InRange, FilesFrom, AllInOrder;
    FilesFromOnDisk(d, base, 0);
    assert [r][1..] == [];
  }

  lemma {:induction false} FilesFromOnDisk(d: Disk, v: Levels, from: nat)
    requires forall l, f | 0 <= l < |v| && f in v[l] :: Stored(d, f)
    ensures forall i | 0 <= i < |FilesFrom(d, v, from)| ::
      FilesFrom(d, v, from)[i].1 == MetaOf(d, FileOf(d, FilesFrom(d, v, from)[i].1))
    decreases |v| - from
  {
    if from < |v| {
      FilesFromOnDisk(d, v, from + 1);
      forall f | f in v[from] ensures MetaOf(d, f) == MetaOf(d, FileOf(d, MetaOf(d, f))) {
        assert Stored(d, f);
      }
    }
  }

  // One more edit, whose numbers are new and below the next file number it carries.
  lemma GoodManifestGrows(d: Disk, name: Bytes, base: Levels, m: seq<ManifestRecords.Record>, r: ManifestRecords.Record)
    requires GoodManifest(d, name, base, m) && InRange(r) && OnDisk(d, r) && Completed(name, r)
    requires AddsFresh(base, EditsOf(d, m[1..]), EditOf(d, r))
    requires SeenBelow(base, EditsOf(d, m[1..]) + [EditOf(d, r)], r.nextFile.value)
    ensures GoodManifest(d, name, base, m + [r])
    ensures EditsOf(d, (m + [r])[1..]) == EditsOf(d, m[1..]) + [EditOf(d, r)]
  {
    hide GoodBase, InRange, OnDisk, SnapshotOf, AddsFresh, SeenBelow;
    var n := m + [r];
    var edits, more := EditsOf(d, m[1..]), EditsOf(d, n[1..]);
    assert n[1..] == m[1..] + [r];
    assert more == edits + [EditOf(d, r)];
    forall i: nat | i < |more| ensures AddsFresh(base, more[..i], more[i]) {
      if i < |edits| {
        assert more[..i] == edits[..i] && more[i] == edits[i];
      } else {
        assert more[..i] == edits;
      }
    }
    forall i: nat | 1 <= i < |n| ensures SeenBelow(base, EditsOf(d, n[1..i + 1]), n[i].nextFile.value) {
      if i < |m| {
        assert n[1..i + 1] == m[1..i + 1];
      } else {
        assert n[1..i + 1] == n[1..];
      }
    }
  }

  lemma SeenBelowGrows(base: Levels, edits: seq<Edit>, e: Edit, next: nat)
    requires SeenBelow(base, edits, next) && forall l: nat, n: nat | AddsNumber(e, l, n) :: n < next
    ensures SeenBelow(base, edits + [e], next)
  {
    hide Adds, AddsNumber;
    forall l: nat, n: nat | Seen(base, edits + [e], l, n) ensures n < next {
      assert Seen(base, edits, l, n) || AddsNumber(e, l, n);
    }
  }

  lemma SeenBelowMore(base: Levels, edits: seq<Edit>, next: nat, more: nat)
    requires SeenBelow(base, edits, next) && next <= more
    ensures SeenBelow(base, edits, more)
  {
    hide Seen;
  }

  lemma LiveGrows(base: Levels, edits: seq<Edit>, e: Edit)
    requires |base| == Versions.NUM_LEVELS && AllValid(edits) && e.Valid()
    ensures AllValid(edits + [e]) && Live(base, edits + [e]) == Applied(Live(base, edits), e)
  {
    hide Applied, Edit.Valid;
    var all := edits + [e];
    assert all[..|all| - 1] == edits;
  }

  lemma RecordBytesGrow(m: seq<ManifestRecords.Record>, r: ManifestRecords.Record)
    ensures RecordBytes(m + [r]) == RecordBytes(m) + [Encoded(r)]
  {
    hide Encoded;
  }

  lemma InRangeIsValid(d: Disk, r: ManifestRecords.Record)
    requires InRange(r)
    ensures EditOf(d, r).Valid()
  {
    hide FitsNumber, FitsMeta, FitsOption, FitsSlice;
  }

  lemma LiveOfNothing(base: Levels)
    requires |base| == Versions.NUM_LEVELS
    ensures AllValid([]) && Live(base, []) == base && SeenBelow(Engine.EmptyVersion(), [], 0)
  {
  }

  lemma EmptyIsGoodBase(d: Disk)
    ensures GoodBase(d, Engine.EmptyVersion())
  {
    EmptyIsInOrder();
  }

  // ----- the version set -----

  class VersionSet {
    const checksum: Checksum
    const disk: Disk
    const name: Bytes
    var current: Levels
    var logNumber: nat
    var prevLogNumber: nat
    var nextFileNumber: nat
    var lastSequence: nat
    var compactPointers: seq<Bytes>
    var descriptor: Writer?
    // The version the manifest starts with, and the records in it.
    ghost var base: Levels
    ghost var manifest: seq<ManifestRecords.Record>

    constructor (checksum: Checksum, disk: Disk, name: Bytes)
      requires checksum.Lawful()
      ensures this.checksum == checksum && this.disk == disk && this.name == name
      ensures Valid() && descriptor == null && current == Engine.EmptyVersion() && compactPointers == NoPointers()
      ensures logNumber == prevLogNumber == lastSequence == 0 && nextFileNumber == 2
    {
      hide GoodBase, Live, SeenBelow, GoodManifest, AllValid, Checksum.Lawful;
      EmptyIsGoodBase(disk);
      LiveOfNothing(Engine.EmptyVersion());
      SeenBelowMore(Engine.EmptyVersion(), [], 0, 2);
      this.checksum, this.disk, this.name := checksum, disk, name;
      current, logNumber, prevLogNumber, nextFileNumber, lastSequence := Engine.EmptyVersion(), 0, 0, 2, 0;
      compactPointers, descriptor, base, manifest := NoPointers(), null, Engine.EmptyVersion(), [];
    }

    ghost function Edits(): seq<Edit>
      reads `manifest
    {
      if manifest == [] then [] else EditsOf(disk, manifest[1..])
    }

    // The manifest holds a snapshot of the base and every edit since.
    ghost predicate Written()
      reads `manifest, `base, `descriptor, descriptor
    {
      && descriptor != null && descriptor.Valid() && descriptor.checksum == checksum
      && manifest != [] && GoodManifest(disk, name, base, manifest)
      && descriptor.dest == LogOf(checksum, RecordBytes(manifest))
    }

    ghost predicate LastEdit(log: nat, prev: nat)
      reads `manifest
    {
      && |manifest| >= 2
      && manifest[|manifest| - 1].logNumber == Some(log) && manifest[|manifest| - 1].prevLogNumber == Some(prev)
    }

    // The state is what the edits make of the base.
    ghost predicate UpToDate()
      reads `manifest, `base, `current, `nextFileNumber
    {
      && |base| == Versions.NUM_LEVELS && GoodBase(disk, base) && AllValid(Edits()) && current == Live(base, Edits())
      && SeenBelow(base, Edits(), nextFileNumber)
    }

    ghost predicate Valid()
      reads this, descriptor
    {
      && checksum.Lawful() && |compactPointers| == Versions.NUM_LEVELS && UpToDate()
      && if descriptor == null then manifest == []
         else Written() && LastEdit(logNumber, prevLogNumber) && compactPointers == AllPointers(manifest)
    }

    // What the source asks of an edit: new files on disk, a log number in range; and that it fits the format.
    ghost predicate MayApply(e: ManifestRecords.Record)
      reads this
    {
      && InRange(Completion(e, logNumber, prevLogNumber, nextFileNumber, lastSequence))
      && OnDisk(disk, e)
      && (e.comparator.Some? ==> e.comparator.value == name)
      && (e.logNumber.Some? ==> logNumber <= e.logNumber.value < nextFileNumber)
      && AddsFresh(base, Edits(), EditOf(disk, e))
      && (forall l: nat, n: nat | AddsNumber(EditOf(disk, e), l, n) :: n < nextFileNumber)
      && (descriptor == null ==>
            InRange(SnapshotOf(disk, name, current, PointersFrom(WithPointers(compactPointers, e.pointers), 0))))
    }

    method NewFileNumber() returns (n: nat)
      requires Valid()
      modifies this`nextFileNumber
      ensures Valid() && n == old(nextFileNumber) && nextFileNumber == n + 1
    {
      hide Written, LastEdit, Edits, GoodBase, GoodManifest, AllValid, SeenBelow, Live, Writer.Valid, Checksum.Lawful;
      n := nextFileNumber;
      SeenBelowMore(base, Edits(), n, n + 1);
      nextFileNumber := nextFileNumber + 1;
    }

    method LogAndApply(edit: VersionEdit)
      requires Valid() && MayApply(edit.Contents())
      modifies this`current, this`logNumber, this`prevLogNumber, this`compactPointers, this`descriptor, this`manifest, edit,
        descriptor
      ensures Valid() && descriptor != null && (old(descriptor) != null ==> descriptor == old(descriptor))
      ensures old(descriptor) == null ==> fresh(descriptor)
      ensures edit.Contents()
           == Completion(old(edit.Contents()), old(logNumber), old(prevLogNumber), nextFileNumber, lastSequence)
      ensures edit.Contents().nextFile == Some(nextFileNumber) && edit.Contents().lastSequence == Some(lastSequence)
      ensures EditOf(disk, edit.Contents()).Valid() && current == Applied(old(current), EditOf(disk, edit.Contents()))
      ensures compactPointers == WithPointers(old(compactPointers), edit.Contents().pointers)
      ensures edit.Contents().logNumber == Some(logNumber) && edit.Contents().prevLogNumber == Some(prevLogNumber)
      ensures manifest == (if old(descriptor) == null then [SnapshotOf(disk, name, old(current), PointersFrom(compactPointers, 0))]
                           else old(manifest)) + [edit.Contents()]
    {
      hide GoodBase, GoodManifest, AllValid, SeenBelow, Live, Writer.Valid, Checksum.Lawful, LogOf, RecordBytes;
      hide Written, AddsFresh, InRange, OnDisk, Encoded, SnapshotOf, PointersFrom, Applied, Adds, AddsNumber, Edit.Valid,
        EditOf, EditsOf;
      hide WithPointers, AllPointers;
      ghost var given, pointers := edit.Contents(), compactPointers;
      CompleteEdit(edit);
      ghost var r := edit.Contents();
      SameEdit(disk, given, logNumber, prevLogNumber, nextFileNumber, lastSequence);
      InRangeIsValid(disk, r);
      var v := VersionAfter(EditOf(disk, edit.Contents()));
      compactPointers := AddPointers(compactPointers, edit.compactPointers);
      ghost var edits := Edits();
      LiveGrows(base, edits, EditOf(disk, r));
      OpenManifest();
      SeenBelowGrows(base, edits, EditOf(disk, r), nextFileNumber);
      PointersStay(disk, name, current, pointers, r, manifest);
      Append(edit);
      Install(edit, v);
    }

    // A later pointer for the same level wins.
    method AddPointers(p: seq<Bytes>, ps: seq<(nat, Bytes)>) returns (r: seq<Bytes>)
      ensures r == WithPointers(p, ps)
    {
      r := p;
      for i := 0 to |ps|
        invariant r == WithPointers(p, ps[..i])
      {
        assert ps[..i + 1][..i] == ps[..i];
        if ps[i].0 < |r| {
          r := r[ps[i].0 := ps[i].1];
        }
      }
      assert ps[..|ps|] == ps;
    }

    // The new version becomes the current one, once the manifest says so.
    method Install(edit: VersionEdit, v: Levels)
      requires Written() && checksum.Lawful() && |compactPointers| == Versions.NUM_LEVELS
      requires |base| == Versions.NUM_LEVELS && GoodBase(disk, base)
      requires |manifest| >= 2 && edit.Contents() == manifest[|manifest| - 1]
      requires edit.Contents().logNumber.Some? && edit.Contents().prevLogNumber.Some?
      requires AllValid(Edits()) && v == Live(base, Edits()) && SeenBelow(base, Edits(), nextFileNumber)
      requires compactPointers == AllPointers(manifest)
      modifies this`current, this`logNumber, this`prevLogNumber
      ensures Valid() && current == v
      ensures edit.Contents().logNumber == Some(logNumber) && edit.Contents().prevLogNumber == Some(prevLogNumber)
    {
      hide GoodBase, GoodManifest, AllValid, SeenBelow, Live, Writer.Valid, Checksum.Lawful, LogOf, RecordBytes, EditsOf;
      hide AllPointers;
      current := v;
      logNumber := edit.logNumber.value;
      prevLogNumber := edit.prevLogNumber.value;
    }

    // After a restart: all the records of a manifest into one builder.
    method Recover(file: Bytes) returns (ok: bool)
      requires Valid() && descriptor == null && current == Engine.EmptyVersion() && compactPointers == NoPointers()
      modifies this`current, this`logNumber, this`prevLogNumber, this`nextFileNumber, this`lastSequence, this`compactPointers,
        this`base
      ensures ok <==> Recovered(checksum, disk, name, file).Some?
      ensures ok ==> Recovered(checksum, disk, name, file).value
                     == Opened(current, logNumber, prevLogNumber, nextFileNumber, lastSequence, compactPointers)
      ensures ok && GoodBase(disk, current) && SeenBelow(current, [], nextFileNumber) ==> Valid()
    {
      hide GoodBase, AllValid, SeenBelow, Live, Decoded, ApplyEdit, EditOf, Save, AllRecords, EachRecord, Start;
      hide GoodManifest, Writer.Valid, Checksum.Lawful, Written, LastEdit, LogOf, RecordBytes;
      var builder := new Builder(current);
      var s: Option<Replay>;
      ok, s := ReplayManifest(file, builder);
      if !ok || s.value.nextFile.None? || s.value.logNumber.None? || s.value.lastSequence.None? {
        return false;
      }
      var v := builder.SaveTo();
      Open(s.value, v);
    }

    // What was found becomes the state.
    method Open(state: Replay, v: Levels)
      requires checksum.Lawful() && descriptor == null && manifest == [] && |v| == |state.pointers| == Versions.NUM_LEVELS
      requires state.nextFile.Some? && state.logNumber.Some? && state.lastSequence.Some?
      modifies this`current, this`logNumber, this`prevLogNumber, this`nextFileNumber, this`lastSequence, this`compactPointers,
        this`base
      ensures Opened(current, logNumber, prevLogNumber, nextFileNumber, lastSequence, compactPointers)
           == Opened(v, state.logNumber.value, if state.prevLogNumber.Some? then state.prevLogNumber.value else 0,
                     state.nextFile.value + 1, state.lastSequence.value, state.pointers)
      ensures GoodBase(disk, current) && SeenBelow(current, [], nextFileNumber) ==> Valid()
    {
      hide GoodBase, AllValid, SeenBelow, Live, Checksum.Lawful, Written, LastEdit;
      current := v;
      logNumber := state.logNumber.value;
      prevLogNumber := if state.prevLogNumber.Some? then state.prevLogNumber.value else 0;
      nextFileNumber := state.nextFile.value + 1;
      lastSequence := state.lastSequence.value;
      compactPointers := state.pointers;
      base := current;
      LiveOfNothing(base);
    }

    method ReplayManifest(file: Bytes, builder: Builder) returns (ok: bool, s: Option<Replay>)
      requires builder.Valid() && builder.Content() == NothingPending()
      modifies builder
      ensures builder.Valid()
      ensures var all := AllRecords(checksum, file, 0);
        var r := EachRecord(disk, name, Start(), all.0);
        && (ok <==> all.1 == [] && r.Some?)
        && (ok ==> s == r && builder.Content() == r.value.pending && |r.value.pointers| == Versions.NUM_LEVELS)
    {
      hide AllRecords, Assemble, OneRecord, EachRecord, Reader.Valid, Reader.At;
      var reader := new Reader(checksum, file);
      var state := Start();
      ghost var all := AllRecords(checksum, file, 0);
      while true
        invariant fresh(reader) && reader.Valid() && reader.InFile() && reader.checksum == checksum && reader.file == file
        invariant builder.Valid() && builder.Content() == state.pending && Ready(state.pending) && reader.drops == []
        invariant |state.pointers| == Versions.NUM_LEVELS
        invariant all.1 == AllRecords(checksum, file, reader.At()).1
        invariant EachRecord(disk, name, Start(), all.0) == EachRecord(disk, name, state, AllRecords(checksum, file, reader.At()).0)
        decreases |file| - reader.At()
      {
        ghost var at := reader.At();
        var found := reader.ReadRecord();
        NextReplay(checksum, file, at, disk, name, state);
        if reader.drops != [] {
          return false, None;  // a corruption was reported
        }
        if found.NoMore? {
          return true, Some(state);
        }
        var applied: bool;
        applied, state := ReplayOne(builder, state, found.data);
        if !applied {
          return false, None;
        }
      }
    }

    // One record: decoded, compared, and applied.
    method ReplayOne(builder: Builder, state: Replay, record: Bytes) returns (ok: bool, next: Replay)
      requires builder.Valid() && builder.Content() == state.pending && Ready(state.pending)
      modifies builder
      ensures builder.Valid()
      ensures ok <==> OneRecord(disk, name, state, record).Some?
      ensures ok ==> next == OneRecord(disk, name, state, record).value && builder.Content() == next.pending
      ensures ok ==> |next.pointers| == |state.pointers|
    {
      hide Decoded, ApplyEdit, EditOf, WithPointers;
      next := state;
      var edit := new VersionEdit();
      ok := edit.DecodeFrom(record);
      if !ok {
        return;
      }
      if edit.comparator.Some? && edit.comparator.value != name {
        return false, state;  // does not match existing comparator
      }
      DecodedLevels(record);
      builder.Apply(EditOf(disk, edit.Contents()));
      var pointers := AddPointers(state.pointers, edit.compactPointers);
      next := Replay(Pending(builder.deleted, builder.added), Newest(edit.logNumber, state.logNumber),
                     Newest(edit.prevLogNumber, state.prevLogNumber), Newest(edit.nextFileNumber, state.nextFile),
                     Newest(edit.lastSequence, state.lastSequence), pointers);
    }

    method CompleteEdit(edit: VersionEdit)
      modifies edit
      ensures edit.Contents() == Completion(old(edit.Contents()), logNumber, prevLogNumber, nextFileNumber, lastSequence)
    {
      if edit.logNumber.None? {
        edit.logNumber := Some(logNumber);
      }
      if edit.prevLogNumber.None? {
        edit.prevLogNumber := Some(prevLogNumber);
      }
      edit.nextFileNumber := Some(nextFileNumber);
      edit.lastSequence := Some(lastSequence);
    }

    // A manifest to append to: the one there is, or a new one that starts with a snapshot.
    method OpenManifest()
      requires checksum.Lawful() && |compactPointers| == Versions.NUM_LEVELS && UpToDate()
      requires if descriptor == null then manifest == [] else Written()
      requires descriptor == null ==> InRange(SnapshotOf(disk, name, current, PointersFrom(compactPointers, 0)))
      modifies this`descriptor, this`manifest, descriptor
      ensures Written() && Edits() == old(Edits()) == EditsOf(disk, manifest[1..])
      ensures old(descriptor) != null ==> descriptor == old(descriptor) && manifest == old(manifest)
      ensures old(descriptor) == null ==>
        fresh(descriptor) && manifest == [SnapshotOf(disk, name, current, PointersFrom(compactPointers, 0))]
    {
      hide GoodBase, GoodManifest, AllValid, SeenBelow, Live, Writer.Valid, Checksum.Lawful, LogOf, RecordBytes;
      hide InRange, SnapshotOf, PointersFrom, EditsOf;
      if descriptor == null {
        LiveOfNothing(base);
        NoEditsYet(disk, SnapshotOf(disk, name, current, PointersFrom(compactPointers, 0)));
        descriptor := new Writer(checksum, []);
        WriteSnapshot();
      }
    }

    method VersionAfter(e: Edit) returns (v: Levels)
      requires |current| == Versions.NUM_LEVELS && e.Valid()
      ensures v == Applied(current, e)
    {
      hide ApplyEdit, Save;
      var builder := new Builder(current);
      builder.Apply(e);
      v := builder.SaveTo();
    }

    // The edit goes to the end of the manifest.
    method Append(edit: VersionEdit)
      requires Written() && |base| == Versions.NUM_LEVELS
      requires InRange(edit.Contents()) && OnDisk(disk, edit.Contents()) && Completed(name, edit.Contents())
      requires AddsFresh(base, EditsOf(disk, manifest[1..]), EditOf(disk, edit.Contents()))
      requires SeenBelow(base, EditsOf(disk, manifest[1..]) + [EditOf(disk, edit.Contents())], edit.Contents().nextFile.value)
      modifies this`manifest, descriptor
      ensures Written() && manifest == old(manifest) + [edit.Contents()]
      ensures EditsOf(disk, manifest[1..]) == EditsOf(disk, old(manifest)[1..]) + [EditOf(disk, edit.Contents())]
    {
      hide GoodManifest, SeenBelow, Writer.Valid, Checksum.Lawful, LogOf, RecordBytes, AddsFresh, InRange, Encoded, EditOf,
        EditsOf;
      ghost var r := edit.Contents();
      var record := edit.EncodeTo([]);
      assert record == Encoded(r) by { assert [] + Encoded(r) == Encoded(r); }
      descriptor.AddRecord(record);
      LogOfOneMore(checksum, RecordBytes(manifest), record);
      RecordBytesGrow(manifest, r);
      GoodManifestGrows(disk, name, base, manifest, r);
      manifest := manifest + [r];
    }

    // The first record of a new manifest: all pointers and all files of the current version.
    method WriteSnapshot()
      requires descriptor != null && descriptor.Valid() && descriptor.checksum == checksum && descriptor.dest == []
      requires |current| == |compactPointers| == Versions.NUM_LEVELS && GoodBase(disk, base) && current == base
      requires InRange(SnapshotOf(disk, name, current, PointersFrom(compactPointers, 0)))
      modifies this`manifest, descriptor
      ensures Written() && manifest == [SnapshotOf(disk, name, current, PointersFrom(compactPointers, 0))]
    {
      hide GoodBase, GoodManifest, Writer.Valid, Checksum.Lawful, LogOf, RecordBytes, InRange, Encoded;
      var edit := new VersionEdit();
      edit.comparator := Some(name);
      SavePointers(edit);
      SaveFiles(edit);
      ghost var r := edit.Contents();
      assert r == SnapshotOf(disk, name, current, PointersFrom(compactPointers, 0)) by {
        assert [] + PointersFrom(compactPointers, 0) == PointersFrom(compactPointers, 0);
        assert [] + FilesFrom(disk, current, 0) == FilesFrom(disk, current, 0);
      }
      var record := edit.EncodeTo([]);
      assert record == Encoded(r) by { assert [] + Encoded(r) == Encoded(r); }
      descriptor.AddRecord(record);
      EmptyLog(checksum);
      LogOfOneMore(checksum, [], record);
      RecordBytesGrow([], r);
      SnapshotIsGood(disk, name, base, r);
      assert [] + [r] == [r];
      manifest := [r];
    }

    method SavePointers(edit: VersionEdit)
      modifies edit
      ensures edit.Contents() == old(edit.Contents()).(pointers := old(edit.compactPointers) + PointersFrom(compactPointers, 0))
    {
      for level := 0 to |compactPointers|
        invariant edit.compactPointers + PointersFrom(compactPointers, level)
               == old(edit.compactPointers) + PointersFrom(compactPointers, 0)
        invariant edit.Contents() == old(edit.Contents()).(pointers := edit.compactPointers)
      {
        if compactPointers[level] != [] {
          edit.compactPointers := edit.compactPointers + [(level, compactPointers[level])];
        }
      }
    }

    method SaveFiles(edit: VersionEdit)
      modifies edit
      ensures edit.Contents() == old(edit.Contents()).(added := old(edit.newFiles) + FilesFrom(disk, current, 0))
    {
      hide MetaOf, FilesOf;
      for level := 0 to |current|
        invariant edit.newFiles + FilesFrom(disk, current, level) == old(edit.newFiles) + FilesFrom(disk, current, 0)
        invariant edit.Contents() == old(edit.Contents()).(added := edit.newFiles)
      {
        ghost var before := edit.newFiles;
        for i := 0 to |current[level]|
          invariant edit.newFiles == before + FilesOf(disk, current[level], level)[..i]
          invariant edit.Contents() == old(edit.Contents()).(added := edit.newFiles)
        {
          FilesOfUpTo(disk, current[level], level, i);
          edit.newFiles := edit.newFiles + [(level, MetaOf(disk, current[level][i]))];
        }
        assert FilesOf(disk, current[level], level)[..|current[level]|] == FilesOf(disk, current[level], level);
      }
    }
  }

  lemma FilesOfUpTo(d: Disk, fs: seq<File>, l: nat, i: nat)
    requires i < |fs|
    ensures FilesOf(d, fs, l)[..i + 1] == FilesOf(d, fs, l)[..i] + [(l, MetaOf(d, fs[i]))]
  {
    hide MetaOf;
  }

  // One record more, or the end.
  lemma NextReplay(c: Checksum, file: Bytes, at: nat, d: Disk, name: Bytes, s: Replay)
    requires at <= |file| && Ready(s.pending)
    ensures var o, all := Assemble(c, file, at, Nothing), AllRecords(c, file, at);
      if o.record.NoMore? then all == ([], o.drops) && EachRecord(d, name, s, all.0) == Some(s)
      else
        && all.1 == o.drops + AllRecords(c, file, o.next).1
        && EachRecord(d, name, s, all.0)
           == var next := OneRecord(d, name, s, o.record.data);
              if next.Some? then EachRecord(d, name, next.value, AllRecords(c, file, o.next).0) else None
  {
    hide Assemble, OneRecord;
    var o := Assemble(c, file, at, Nothing);
    if !o.record.NoMore? {
      var rest := AllRecords(c, file, o.next).0;
      assert ([o.record.data] + rest)[1..] == rest;
    }
  }

  lemma NoEditsYet(d: Disk, r: ManifestRecords.Record)
    ensures EditsOf(d, [r][1..]) == []
  {
  }

  lemma EmptyLog(c: Checksum)
    ensures LogOf(c, RecordBytes([])) == [] && RecordBytes([]) == []
  {
  }

  // With the edit in it, the manifest has the pointers of the version set: they are in its snapshot already
  // when it is new, and the edit brings them when it is not.
  lemma PointersStay(d: Disk, name: Bytes, current: Levels, pointers: seq<Bytes>, r: ManifestRecords.Record,
                     m: seq<ManifestRecords.Record>)
    requires |pointers| == Versions.NUM_LEVELS
    requires AllPointers(m) == pointers
          || m == [SnapshotOf(d, name, current, PointersFrom(WithPointers(pointers, r.pointers), 0))]
    ensures AllPointers(m + [r]) == WithPointers(pointers, r.pointers)
  {
    hide WithPointers, PointersFrom, FilesFrom;
    assert (m + [r])[..|m|] == m;
    if AllPointers(m) != pointers {
      var now := WithPointers(pointers, r.pointers);
      assert m[..0] == [];
      AllRebuilt(now);
      assert AllPointers(m) == WithPointers(AllPointers(m[..0]), PointersFrom(now, 0)) == now;
      PointersAgain(pointers, r.pointers);
    }
  }

  // Filling in numbers does not change what the edit does.
  lemma SameEdit(d: Disk, r: ManifestRecords.Record, log: nat, prev: nat, next: nat, last: nat)
    ensures EditOf(d, Completion(r, log, prev, next, last)) == EditOf(d, r)
    ensures OnDisk(d, Completion(r, log, prev, next, last)) <==> OnDisk(d, r)
  {
  }

  // ----- restarts -----

  // A restart from the whole manifest finds the current version, its log numbers and its compaction pointers
  // again, with a next file number above every file, and can start a new manifest from there.
  lemma RestartFindsCurrent(vs: VersionSet)
    requires vs.Valid() && vs.descriptor != null
    ensures var last := vs.manifest[|vs.manifest| - 1];
      && last.nextFile.Some? && last.lastSequence.Some?
      && Recovered(vs.checksum, vs.disk, vs.name, vs.descriptor.dest)
         == Some(Opened(vs.current, vs.logNumber, vs.prevLogNumber, last.nextFile.value + 1, last.lastSequence.value,
                        vs.compactPointers))
      && GoodBase(vs.disk, vs.current) && SeenBelow(vs.current, [], last.nextFile.value + 1)
  {
    hide GoodBase, SeenBelow, Live, Recovered, LogOf, NumbersAreFresh, InRange, OnDisk, SnapshotOf, Checksum.Lawful,
      Writer.Valid;
    hide AllValid, EditsOf, RecordBytes, AddsFresh, AllPointers;
    var m := vs.manifest;
    var whole, k := LogOf(vs.checksum, RecordBytes(m)), |m|;
    WholeIsComplete(vs.checksum, RecordBytes(m));
    ManifestRecovers(vs.checksum, vs.disk, vs.name, vs.base, m, |whole|);
    assert whole[..|whole|] == whole && m[1..k] == m[1..] && m[..k] == m;
    assert Completed(vs.name, m[k - 1]);
    SeenBelowMore(vs.base, EditsOf(vs.disk, m[1..]), m[k - 1].nextFile.value, m[k - 1].nextFile.value + 1);
    RestartIsGood(vs.disk, vs.name, vs.base, m, m[k - 1].nextFile.value + 1);
  }

  lemma WholeIsComplete(c: Checksum, records: seq<Bytes>)
    ensures Complete(c, records, |LogOf(c, records)|) == |records|
  {
    hide LogOf;
  }
}
