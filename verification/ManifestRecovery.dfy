/** What a restart makes of a manifest, whole or cut off anywhere. */
module ManifestRecovery {
  import opened Options
  import opened Sequences
  import opened LogFormat
  import LogReader
  import opened LogRecovery
  import LogDamage
  import opened InternalKeys
  import opened Versions
  import opened VersionEdits
  import opened Installs
  import opened ManifestRecords
  import Engine

  // The tables under their numbers, and the bytes of an internal key.
  datatype Disk = Disk(table: nat -> File, key: Entry -> Bytes)

  function MetaOf(d: Disk, f: File): Meta {
    Meta(f.number, f.size, d.key(f.Smallest()), d.key(f.Largest()))
  }

  // A file as a record describes it, with the entries of the table under its number.
  function FileOf(d: Disk, m: Meta): File {
    Table(m.number, m.size, d.table(m.number).entries)
  }

  // The table of a file is on disk.
  ghost predicate Stored(d: Disk, f: File) {
    FileOf(d, MetaOf(d, f)) == f
  }

  // What a record does to a version.
  function EditOf(d: Disk, r: Record): Edit {
    Edit(r.deleted, seq(|r.added|, i requires 0 <= i < |r.added| => (r.added[i].0, FileOf(d, r.added[i].1))))
  }

  function EditsOf(d: Disk, m: seq<Record>): seq<Edit> {
    seq(|m|, i requires 0 <= i < |m| => EditOf(d, m[i]))
  }

  // ----- compaction pointers -----

  // Where the next compaction of each level starts; an empty key stands for the beginning.
  function NoPointers(): (p: seq<Bytes>)
    ensures |p| == Versions.NUM_LEVELS
  {
    seq(Versions.NUM_LEVELS, _ => [])
  }

  // The pointers of an edit, one after the other.  The levels of a record that was decoded exist.
  function WithPointers(p: seq<Bytes>, ps: seq<(nat, Bytes)>): (r: seq<Bytes>)
    ensures |r| == |p|
  {
    if ps == [] then p else
      var n := |ps| - 1;
      var q := WithPointers(p, ps[..n]);
      if ps[n].0 < |q| then q[ps[n].0 := ps[n].1] else q
  }

  // The last pointer for a level wins, whatever there was before.
  ghost predicate SetsPointer(ps: seq<(nat, Bytes)>, l: nat) {
    exists i :: 0 <= i < |ps| && ps[i].0 == l
  }

  lemma {:induction false} PointerAt(p: seq<Bytes>, q: seq<Bytes>, ps: seq<(nat, Bytes)>, l: nat)
    requires l < |p| == |q|
    ensures SetsPointer(ps, l) ==> WithPointers(p, ps)[l] == WithPointers(q, ps)[l]
    ensures !SetsPointer(ps, l) ==> WithPointers(p, ps)[l] == p[l]
  {
    if ps != [] {
      var n := |ps| - 1;
      PointerAt(p, q, ps[..n], l);
      if SetsPointer(ps, l) && ps[n].0 != l {
        var i :| 0 <= i < |ps| && ps[i].0 == l;
        assert ps[..n][i].0 == l;
      }
      if SetsPointer(ps[..n], l) {
        var i :| 0 <= i < n && ps[..n][i].0 == l;
        assert ps[i].0 == l;
      }
    }
  }

  // Setting the same pointers again changes nothing.
  lemma PointersAgain(p: seq<Bytes>, ps: seq<(nat, Bytes)>)
    ensures WithPointers(WithPointers(p, ps), ps) == WithPointers(p, ps)
  {
    hide WithPointers, SetsPointer;
    var q := WithPointers(p, ps);
    forall l: nat | l < |p| ensures WithPointers(q, ps)[l] == q[l] {
      PointerAt(p, q, ps, l);
      PointerAt(q, p, ps, l);
    }
  }

  function AllPointers(m: seq<Record>): (p: seq<Bytes>)
    ensures |p| == Versions.NUM_LEVELS
  {
    if m == [] then NoPointers() else WithPointers(AllPointers(m[..|m| - 1]), m[|m| - 1].pointers)
  }

  // ----- replay -----

  datatype Replay = Replay(pending: Pending, logNumber: Option<nat>, prevLogNumber: Option<nat>,
                           nextFile: Option<nat>, lastSequence: Option<nat>, pointers: seq<Bytes>)

  predicate Ready(p: Pending) {
    |p.deleted| == |p.added| == Versions.NUM_LEVELS
  }

  function Start(): (r: Replay)
    ensures Ready(r.pending)
  {
    Replay(NothingPending(), None, None, None, None, NoPointers())
  }

  function Newest(newer: Option<nat>, older: Option<nat>): Option<nat> {
    if newer.Some? then newer else older
  }

  function OneRecord(d: Disk, name: Bytes, s: Replay, b: Bytes): (r: Option<Replay>)
    requires Ready(s.pending)
    ensures r.Some? ==> Ready(r.value.pending)
  {
    var e := Decoded(Blank(), b);
    if e.None? then None
    else if e.value.comparator.Some? && e.value.comparator.value != name then None
    else
      DecodedLevels(b);
      Some(Replay(ApplyEdit(s.pending, EditOf(d, e.value)), Newest(e.value.logNumber, s.logNumber),
                  Newest(e.value.prevLogNumber, s.prevLogNumber), Newest(e.value.nextFile, s.nextFile),
                  Newest(e.value.lastSequence, s.lastSequence), WithPointers(s.pointers, e.value.pointers)))
  }

  function EachRecord(d: Disk, name: Bytes, s: Replay, bs: seq<Bytes>): (r: Option<Replay>)
    requires Ready(s.pending)
    ensures r.Some? ==> Ready(r.value.pending)
    decreases bs
  {
    if bs == [] then Some(s) else
      var next := OneRecord(d, name, s, bs[0]);
      if next.Some? then EachRecord(d, name, next.value, bs[1..]) else None
  }

  datatype Opened = Opened(version: Levels, logNumber: nat, prevLogNumber: nat, nextFile: nat, lastSequence: nat,
                           pointers: seq<Bytes>)

  function Finished(s: Replay): Option<Opened>
    requires Ready(s.pending)
  {
    if s.nextFile.None? || s.logNumber.None? || s.lastSequence.None? then None
    else Some(Opened(Save(Engine.EmptyVersion(), s.pending), s.logNumber.value,
                     if s.prevLogNumber.Some? then s.prevLogNumber.value else 0,
                     s.nextFile.value + 1, s.lastSequence.value, s.pointers))
  }

  // VersionSet::Recover
  function Recovered(c: Checksum, d: Disk, name: Bytes, file: Bytes): Option<Opened> {
    var all := AllRecords(c, file, 0);
    if all.1 != [] then None else  // a corruption was reported
      var r := EachRecord(d, name, Start(), all.0);
      if r.Some? then Finished(r.value) else None
  }

  // Levels that were read are levels that exist.
  ghost predicate LevelsExist(r: Record) {
    (forall x | x in r.deleted :: FitsLevel(x.0)) && forall i | 0 <= i < |r.added| :: FitsLevel(r.added[i].0)
  }

  lemma {:induction false} DecodedItemsLevels(b: Bytes, pos: nat, r: Record)
    requires pos <= |b| && LevelsExist(r) && DecodeItems(b, pos, r).Some?
    ensures LevelsExist(DecodeItems(b, pos, r).value)
    decreases |b| - pos
  {
    hide GetVarint32, GetVarint64, GetSlice, GetMeta;
    if pos < |b| {
      var i := GetItem(b, pos);
      DecodedItemsLevels(b, i.next, ManifestRecords.Store(r, i.value));
    }
  }

  lemma DecodedLevels(b: Bytes)
    requires Decoded(Blank(), b).Some?
    ensures forall d: Disk :: EditOf(d, Decoded(Blank(), b).value).Valid()
  {
    hide DecodeItems;
    DecodedItemsLevels(b, 0, Blank());
  }

  // ----- histories of a manifest -----

  // The files of the levels from l on.
  function FilesFrom(d: Disk, v: Levels, l: nat): seq<(nat, Meta)>
    decreases |v| - l
  {
    if l >= |v| then [] else
      FilesOf(d, v[l], l) + FilesFrom(d, v, l + 1)
  }

  // VersionSet::WriteSnapshot
  function SnapshotOf(d: Disk, name: Bytes, v: Levels, pointers: seq<(nat, Bytes)>): Record {
    Record(Some(name), None, None, None, None, pointers, {}, FilesFrom(d, v, 0))
  }

  // What LogAndApply makes of an edit before it writes it.
  predicate Completed(name: Bytes, r: Record) {
    && (r.comparator.Some? ==> r.comparator.value == name)
    && r.logNumber.Some? && r.prevLogNumber.Some? && r.nextFile.Some? && r.lastSequence.Some?
  }

  ghost predicate SeenBelow(base: Levels, edits: seq<Edit>, next: nat) {
    forall l: nat, n: nat | Seen(base, edits, l, n) :: n < next
  }

  // The version before the first record: sorted levels of files that are on disk.
  ghost predicate GoodBase(d: Disk, base: Levels) {
    && |base| == Versions.NUM_LEVELS && AllInOrder(base)
    && (forall l, f, g | 0 <= l < |base| && f in base[l] && g in base[l] && f.number == g.number :: f == g)
    && forall l, f | 0 <= l < |base| && f in base[l] :: Stored(d, f)
  }

  // The ranges that the record gives are those of the tables.
  ghost predicate OnDisk(d: Disk, r: Record) {
    forall i | 0 <= i < |r.added| :: r.added[i].1 == MetaOf(d, FileOf(d, r.added[i].1))
  }

  // A snapshot of the base, and the edits since.
  ghost predicate GoodManifest(d: Disk, name: Bytes, base: Levels, m: seq<Record>) {
    && GoodBase(d, base) && m != []
    && (forall i | 0 <= i < |m| :: InRange(m[i]) && OnDisk(d, m[i]))
    && m[0] == SnapshotOf(d, name, base, m[0].pointers)
    && (forall i | 1 <= i < |m| :: Completed(name, m[i]))
    && NumbersAreFresh(base, EditsOf(d, m[1..]))
    && (forall i | 1 <= i < |m| :: SeenBelow(base, EditsOf(d, m[1..i + 1]), m[i].nextFile.value))
  }

  ghost function RecordBytes(m: seq<Record>): (r: seq<Bytes>)
    ensures |r| == |m|
  {
    seq(|m|, i requires 0 <= i < |m| => Encoded(m[i]))
  }

  // ----- the snapshot -----

  ghost predicate Names(d: Disk, fs: seq<(nat, Meta)>, l: nat, f: File) {
    exists i: nat :: i < |fs| && fs[i].0 == l && FileOf(d, fs[i].1) == f
  }

  lemma NamesBoth(d: Disk, a: seq<(nat, Meta)>, b: seq<(nat, Meta)>, l: nat, f: File)
    ensures Names(d, a + b, l, f) <==> Names(d, a, l, f) || Names(d, b, l, f)
  {
    if Names(d, a, l, f) {
      var i: nat :| i < |a| && a[i].0 == l && FileOf(d, a[i].1) == f;
      assert (a + b)[i] == a[i];
    }
    if Names(d, b, l, f) {
      var i: nat :| i < |b| && b[i].0 == l && FileOf(d, b[i].1) == f;
      assert (a + b)[|a| + i] == b[i];
    }
    if Names(d, a + b, l, f) {
      var i: nat :| i < |a + b| && (a + b)[i].0 == l && FileOf(d, (a + b)[i].1) == f;
      assert if i < |a| then a[i] == (a + b)[i] else b[i - |a|] == (a + b)[i];
    }
  }

  function FilesOf(d: Disk, fs: seq<File>, l: nat): (r: seq<(nat, Meta)>)
    ensures |r| == |fs|
  {
    seq(|fs|, i requires 0 <= i < |fs| => (l, MetaOf(d, fs[i])))
  }

  lemma NamesOf(d: Disk, fs: seq<File>, at: nat, l: nat, f: File)
    requires forall g | g in fs :: Stored(d, g)
    ensures Names(d, FilesOf(d, fs, at), l, f) <==> l == at && f in fs
  {
    var ms := FilesOf(d, fs, at);
    if l == at && f in fs {
      var i: nat :| i < |fs| && fs[i] == f;
      assert ms[i].0 == l && FileOf(d, ms[i].1) == f;
    }
    if Names(d, ms, l, f) {
      var i: nat :| i < |ms| && ms[i].0 == l && FileOf(d, ms[i].1) == f;
      assert fs[i] in fs;
    }
  }

  lemma {:induction false} FilesFromMembers(d: Disk, v: Levels, l: nat, from: nat, f: File)
    requires forall k, g | 0 <= k < |v| && g in v[k] :: Stored(d, g)
    ensures Names(d, FilesFrom(d, v, from), l, f) <==> from <= l < |v| && f in v[l]
    decreases |v| - from
  {
    hide Names, FilesOf;
    if from < |v| {
      FilesFromMembers(d, v, l, from + 1, f);
      NamesOf(d, v[from], from, l, f);
      NamesBoth(d, FilesOf(d, v[from], from), FilesFrom(d, v, from + 1), l, f);
    } else {
      NamesNothing(d, l, f);
    }
  }

  lemma NamesNothing(d: Disk, l: nat, f: File)
    ensures !Names(d, [], l, f)
  {
  }

  lemma SnapshotAdds(d: Disk, name: Bytes, base: Levels, pointers: seq<(nat, Bytes)>, l: nat, f: File)
    requires GoodBase(d, base)
    ensures Adds(EditOf(d, SnapshotOf(d, name, base, pointers)), l, f) <==> l < |base| && f in base[l]
  {
    hide AllInOrder, FilesFrom, Names;
    FilesFromMembers(d, base, l, 0, f);
    EditAdds(d, SnapshotOf(d, name, base, pointers), l, f);
  }

  lemma EditAdds(d: Disk, r: Record, l: nat, f: File)
    ensures Adds(EditOf(d, r), l, f) <==> Names(d, r.added, l, f)
  {
    var e := EditOf(d, r);
    if Adds(e, l, f) {
      var i: nat :| i < |e.added| && e.added[i] == (l, f);
      assert r.added[i].0 == l;
    }
    if Names(d, r.added, l, f) {
      var i: nat :| i < |r.added| && r.added[i].0 == l && FileOf(d, r.added[i].1) == f;
      assert e.added[i] == (l, f);
    }
  }

  lemma SnapshotIsValid(d: Disk, name: Bytes, base: Levels, pointers: seq<(nat, Bytes)>)
    requires GoodBase(d, base)
    ensures var e := EditOf(d, SnapshotOf(d, name, base, pointers)); e.Valid() && AddsOnce(e)
  {
    hide AllInOrder, SnapshotOf;
    var e := EditOf(d, SnapshotOf(d, name, base, pointers));
    assert e.deleted == {} by { SnapshotDeletesNothing(d, name, base, pointers); }
    forall i: nat | i < |e.added| ensures e.added[i].0 < Versions.NUM_LEVELS {
      var l, f := e.added[i].0, e.added[i].1;
      assert Adds(e, l, f);
      SnapshotAdds(d, name, base, pointers, l, f);
    }
    forall l: nat, f: File, g: File | Adds(e, l, f) && Adds(e, l, g) && f.number == g.number ensures f == g {
      SnapshotAdds(d, name, base, pointers, l, f);
      SnapshotAdds(d, name, base, pointers, l, g);
    }
  }

  lemma SnapshotDeletesNothing(d: Disk, name: Bytes, base: Levels, pointers: seq<(nat, Bytes)>)
    ensures EditOf(d, SnapshotOf(d, name, base, pointers)).deleted == {}
  {
  }

  // On top of nothing, the snapshot is the version it was taken of.
  lemma SnapshotRebuilds(d: Disk, name: Bytes, base: Levels, pointers: seq<(nat, Bytes)>)
    requires GoodBase(d, base)
    ensures var e := EditOf(d, SnapshotOf(d, name, base, pointers)); e.Valid() && Applied(Engine.EmptyVersion(), e) == base
  {
    hide SnapshotOf, InOrder, ApplyEdit, SaveLevel, FileBefore, Adds;
    SnapshotIsValid(d, name, base, pointers);
    SnapshotDeletesNothing(d, name, base, pointers);
    EmptyIsInOrder();
    var e := EditOf(d, SnapshotOf(d, name, base, pointers));
    var p := ApplyEdit(NothingPending(), e);
    forall l: nat | l < Versions.NUM_LEVELS ensures Save(Engine.EmptyVersion(), p)[l] == base[l] {
      ApplyEditMembers(NothingPending(), e, l);
      SaveLevelMembers([], p.deleted[l], p.added[l]);
      forall f: File ensures f in SaveLevel([], p.deleted[l], p.added[l]) <==> f in base[l] {
        SnapshotAdds(d, name, base, pointers, l, f);
      }
      InOrderIsCanonical(SaveLevel([], p.deleted[l], p.added[l]), base[l]);
    }
  }

  // ----- the snapshot and the edits -----

  lemma {:induction false} LiveAfterFirst(v: Levels, e: Edit, edits: seq<Edit>)
    requires |v| == Versions.NUM_LEVELS && e.Valid() && AllValid(edits)
    ensures AllValid([e] + edits) && Live(v, [e] + edits) == Live(Applied(v, e), edits)
    decreases edits
  {
    hide Applied;
    var all := [e] + edits;
    if edits == [] {
      assert all[..0] == [] && all[|all| - 1] == e;
      assert Live(v, []) == v;
    } else {
      var n := |edits| - 1;
      LiveAfterFirst(v, e, edits[..n]);
      assert all[..|all| - 1] == [e] + edits[..n] && all[|all| - 1] == edits[n];
    }
  }

  lemma SeenAfterSnapshot(d: Disk, name: Bytes, base: Levels, pointers: seq<(nat, Bytes)>, edits: seq<Edit>, l: nat, n: nat)
    requires GoodBase(d, base)
    ensures Seen(Engine.EmptyVersion(), [EditOf(d, SnapshotOf(d, name, base, pointers))] + edits, l, n)
            ==> Seen(base, edits, l, n)
  {
    hide SnapshotOf, AllInOrder, Adds, GoodBase;
    var snapshot := EditOf(d, SnapshotOf(d, name, base, pointers));
    if Seen(Engine.EmptyVersion(), [snapshot] + edits, l, n) {
      var e :| e in [snapshot] + edits && AddsNumber(e, l, n);
      if e == snapshot {
        var f: File :| Adds(e, l, f) && f.number == n;
        SnapshotAdds(d, name, base, pointers, l, f);
      } else {
        assert e in edits;
      }
    }
  }

  lemma FreshAfterSnapshot(d: Disk, name: Bytes, base: Levels, pointers: seq<(nat, Bytes)>, edits: seq<Edit>)
    requires GoodBase(d, base) && NumbersAreFresh(base, edits)
    ensures NumbersAreFresh(Engine.EmptyVersion(), [EditOf(d, SnapshotOf(d, name, base, pointers))] + edits)
  {
    hide SnapshotOf, AllInOrder, Adds, Seen, GoodBase, AddsOnce;
    var snapshot := EditOf(d, SnapshotOf(d, name, base, pointers));
    var all := [snapshot] + edits;
    forall i: nat | i < |all| ensures AddsFresh(Engine.EmptyVersion(), all[..i], all[i]) {
      if i == 0 {
        SnapshotIsValid(d, name, base, pointers);
        assert all[..0] == [];
        NothingSeen();
      } else {
        assert all[..i] == [snapshot] + edits[..i - 1] && AddsFresh(base, edits[..i - 1], edits[i - 1]);
        forall l: nat, f: File | Adds(all[i], l, f) ensures !Seen(Engine.EmptyVersion(), all[..i], l, f.number) {
          SeenAfterSnapshot(d, name, base, pointers, edits[..i - 1], l, f.number);
        }
      }
    }
  }

  lemma NothingSeen()
    ensures forall l, n :: !Seen(Engine.EmptyVersion(), [], l, n)
  {
  }

  // One builder over the snapshot and the edits rebuilds what the edits made of the base.
  lemma ManifestIsLive(d: Disk, name: Bytes, base: Levels, m: seq<Record>)
    requires GoodManifest(d, name, base, m)
    ensures AllValid(EditsOf(d, m)) && AllValid(EditsOf(d, m[1..]))
    ensures Save(Engine.EmptyVersion(), Collected(EditsOf(d, m))) == Live(base, EditsOf(d, m[1..]))
  {
    hide SnapshotOf, AllInOrder, Applied, Save, AddsFresh;
    var edits, snapshot := EditsOf(d, m[1..]), EditOf(d, m[0]);
    assert EditsOf(d, m) == [snapshot] + edits;
    RecordsAreValid(d, m);
    RecordsAreValid(d, m[1..]);
    FreshAfterSnapshot(d, name, base, m[0].pointers, edits);
    assert AllInOrder(Engine.EmptyVersion()) by { EmptyInOrder(); }
    ReplayIsLive(Engine.EmptyVersion(), [snapshot] + edits);
    LiveAfterFirst(Engine.EmptyVersion(), snapshot, edits);
    SnapshotRebuilds(d, name, base, m[0].pointers);
  }

  lemma RecordsAreValid(d: Disk, m: seq<Record>)
    requires forall i | 0 <= i < |m| :: InRange(m[i])
    ensures AllValid(EditsOf(d, m))
  {
    hide FitsNumber, FitsMeta, FitsOption, FitsSlice;
    forall i: nat | i < |m| ensures EditOf(d, m[i]).Valid() {
      assert InRange(m[i]);
    }
  }

  lemma EmptyInOrder()
    ensures AllInOrder(Engine.EmptyVersion())
  {
    EmptyIsInOrder();
  }

  // ----- the version at the end of a manifest is one to start from -----

  ghost predicate FilesOnDisk(d: Disk, edits: seq<Edit>) {
    forall e, l: nat, f: File | e in edits && Adds(e, l, f) :: Stored(d, f)
  }

  ghost predicate AllSeen(base: Levels, edits: seq<Edit>, v: Levels) {
    forall l, f | 0 <= l < |v| && f in v[l] :: Seen(base, edits, l, f.number)
  }

  // Every file comes from the base or from an edit.
  ghost predicate AllAdded(base: Levels, edits: seq<Edit>, v: Levels) {
    forall l: nat, f {:trigger f in v[l]} | l < |v| && f in v[l] :: (l < |base| && f in base[l]) || EverAdded(edits, l, f)
  }

  lemma {:induction false} LiveAdded(base: Levels, edits: seq<Edit>)
    requires |base| == Versions.NUM_LEVELS && AllInOrder(base) && AllValid(edits) && NumbersAreFresh(base, edits)
    ensures AllInOrder(Live(base, edits)) && AllSeen(base, edits, Live(base, edits)) && AllAdded(base, edits, Live(base, edits))
    decreases edits
  {
    hide AllInOrder, Adds, AddsNumber, AddsOnce, Applied, Seen, Edit.Valid, EverAdded;
    if edits == [] {
      BaseIsSeen(base);
    } else {
      var n := |edits| - 1;
      var earlier, e := edits[..n], edits[n];
      FreshPrefix(base, edits);
      LiveAdded(base, earlier);
      var v := Live(base, earlier);
      forall l: nat | l < Versions.NUM_LEVELS
        ensures InOrder(Applied(v, e)[l])
        ensures forall f: File :: f in Applied(v, e)[l] ==> Adds(e, l, f) || f in v[l]
      {
        AppliedMembers(v, e, l);
      }
      LevelsInOrder(Applied(v, e));
      forall l: nat, f: File | l < Versions.NUM_LEVELS && f in Applied(v, e)[l]
        ensures Seen(base, edits, l, f.number) && ((l < |base| && f in base[l]) || EverAdded(edits, l, f))
      {
        assert edits == earlier + [e];
        StillSeen(base, earlier, e, l, f);
        EverAddedSnoc(earlier, e, l, f);
      }
    }
  }

  lemma {:induction false} LiveIsGood(d: Disk, base: Levels, edits: seq<Edit>)
    requires GoodBase(d, base) && AllValid(edits) && NumbersAreFresh(base, edits) && FilesOnDisk(d, edits)
    ensures GoodBase(d, Live(base, edits))
    decreases edits
  {
    hide AllInOrder, Adds, AddsNumber, AddsOnce, Applied, Seen, Edit.Valid, Stored;
    LiveAdded(base, edits);
    if edits != [] {
      var n := |edits| - 1;
      var earlier, e := edits[..n], edits[n];
      FreshPrefix(base, edits);
      LiveIsGood(d, base, earlier);
      LiveAdded(base, earlier);
      var v := Live(base, earlier);
      forall l: nat | l < Versions.NUM_LEVELS
        ensures forall f: File :: f in Applied(v, e)[l] ==> Adds(e, l, f) || f in v[l]
        ensures forall f: File, g: File | Adds(e, l, f) && g in v[l] :: f.number != g.number
      {
        AppliedMembers(v, e, l);
      }
      forall l: nat, f: File, g: File | l < Versions.NUM_LEVELS && Adds(e, l, f) && Adds(e, l, g) && f.number == g.number
        ensures f == g
      {
        OnceAdded(e, l, f, g);
      }
    }
  }

  lemma LevelsInOrder(v: Levels)
    requires forall l: nat | l < |v| :: InOrder(v[l])
    ensures AllInOrder(v)
  {
    hide InOrder;
  }

  lemma OnceAdded(e: Edit, l: nat, f: File, g: File)
    requires AddsOnce(e) && Adds(e, l, f) && Adds(e, l, g) && f.number == g.number
    ensures f == g
  {
    hide Adds;
  }

  lemma BaseIsSeen(base: Levels)
    ensures AllSeen(base, [], base)
  {
  }

  lemma StillSeen(base: Levels, edits: seq<Edit>, e: Edit, l: nat, f: File)
    requires Adds(e, l, f) || Seen(base, edits, l, f.number)
    ensures Seen(base, edits + [e], l, f.number)
  {
    hide Adds;
    if Adds(e, l, f) {
      assert AddsNumber(e, l, f.number) && e in edits + [e];
    } else {
      assert forall x | x in edits :: x in edits + [e];
    }
  }

  lemma ManifestOnDisk(d: Disk, m: seq<Record>)
    ensures FilesOnDisk(d, EditsOf(d, m))
  {
    forall e, l: nat, f: File | e in EditsOf(d, m) && Adds(e, l, f) ensures Stored(d, f) {
      var i: nat :| i < |m| && e == EditOf(d, m[i]);
      var j: nat :| j < |m[i].added| && e.added[j] == (l, f);
    }
  }

  // After a restart from a manifest, a new one can be started.
  lemma RestartIsGood(d: Disk, name: Bytes, base: Levels, m: seq<Record>, next: nat)
    requires GoodManifest(d, name, base, m) && AllValid(EditsOf(d, m[1..])) && SeenBelow(base, EditsOf(d, m[1..]), next)
    ensures GoodBase(d, Live(base, EditsOf(d, m[1..]))) && SeenBelow(Live(base, EditsOf(d, m[1..])), [], next)
  {
    var v := Live(base, EditsOf(d, m[1..]));
    hide GoodBase, AllValid, EditsOf, NumbersAreFresh, Seen, InRange, Live, OnDisk;
    ManifestOnDisk(d, m[1..]);
    LiveIsGood(d, base, EditsOf(d, m[1..]));
    BaseInOrder(d, base);
    LiveAdded(base, EditsOf(d, m[1..]));
    SeenInBase(v);
  }

  lemma BaseInOrder(d: Disk, base: Levels)
    requires GoodBase(d, base)
    ensures |base| == Versions.NUM_LEVELS && AllInOrder(base)
  {
  }

  lemma SeenInBase(v: Levels)
    ensures forall l: nat, n: nat | Seen(v, [], l, n) :: l < |v| && exists f | f in v[l] :: f.number == n
  {
  }

  // ----- the records, one by one -----

  // The newest of a field in the records, going back from the last.
  function Latest(ns: seq<Option<nat>>): Option<nat> {
    if ns == [] then None else Newest(ns[|ns| - 1], Latest(ns[..|ns| - 1]))
  }

  ghost function ReplayOf(d: Disk, m: seq<Record>): (r: Replay)
    requires AllValid(EditsOf(d, m))
    ensures Ready(r.pending)
  {
    Replay(Collected(EditsOf(d, m)), Latest(seq(|m|, i requires 0 <= i < |m| => m[i].logNumber)),
           Latest(seq(|m|, i requires 0 <= i < |m| => m[i].prevLogNumber)),
           Latest(seq(|m|, i requires 0 <= i < |m| => m[i].nextFile)),
           Latest(seq(|m|, i requires 0 <= i < |m| => m[i].lastSequence)), AllPointers(m))
  }

  lemma {:induction false} EachRecordSnoc(d: Disk, name: Bytes, s: Replay, bs: seq<Bytes>, b: Bytes)
    requires Ready(s.pending)
    ensures EachRecord(d, name, s, bs + [b])
         == var r := EachRecord(d, name, s, bs); if r.Some? then OneRecord(d, name, r.value, b) else None
    decreases bs
  {
    hide OneRecord;
    if bs == [] {
      assert [] + [b] == [b] && [b][1..] == [];
    } else {
      assert (bs + [b])[1..] == bs[1..] + [b];
      var next := OneRecord(d, name, s, bs[0]);
      if next.Some? {
        EachRecordSnoc(d, name, next.value, bs[1..], b);
      }
    }
  }

  lemma ReplaySnoc(d: Disk, m: seq<Record>)
    requires m != [] && AllValid(EditsOf(d, m))
    ensures var n := |m| - 1;
      AllValid(EditsOf(d, m[..n])) && ReplayOf(d, m) == var s, r := ReplayOf(d, m[..n]), m[n];
        Replay(ApplyEdit(s.pending, EditOf(d, r)), Newest(r.logNumber, s.logNumber), Newest(r.prevLogNumber, s.prevLogNumber),
               Newest(r.nextFile, s.nextFile), Newest(r.lastSequence, s.lastSequence), WithPointers(s.pointers, r.pointers))
  {
    hide ApplyEdit, WithPointers;
    var n := |m| - 1;
    assert EditsOf(d, m)[..n] == EditsOf(d, m[..n]);
    forall i: nat | i < n ensures EditsOf(d, m[..n])[i].Valid() {
      assert EditsOf(d, m)[i] == EditsOf(d, m[..n])[i];
    }
    assert seq(|m|, i requires 0 <= i < |m| => m[i].logNumber)[..n] == seq(n, i requires 0 <= i < n => m[..n][i].logNumber);
    assert seq(|m|, i requires 0 <= i < |m| => m[i].prevLogNumber)[..n] == seq(n, i requires 0 <= i < n => m[..n][i].prevLogNumber);
    assert seq(|m|, i requires 0 <= i < |m| => m[i].nextFile)[..n] == seq(n, i requires 0 <= i < n => m[..n][i].nextFile);
    assert seq(|m|, i requires 0 <= i < |m| => m[i].lastSequence)[..n] == seq(n, i requires 0 <= i < n => m[..n][i].lastSequence);
  }

  ghost predicate AllFit(name: Bytes, m: seq<Record>) {
    forall i | 0 <= i < |m| :: InRange(m[i]) && (m[i].comparator.Some? ==> m[i].comparator.value == name)
  }

  lemma {:induction false} ReplayIs(d: Disk, name: Bytes, m: seq<Record>)
    requires AllFit(name, m) && AllValid(EditsOf(d, m))
    ensures EachRecord(d, name, Start(), RecordBytes(m)) == Some(ReplayOf(d, m))
    decreases m
  {
    hide ReplayOf, Encoded, InRange, ApplyEdit, EditOf, Decoded;
    if m == [] {
      NothingReplayed(d);
    } else {
      var n := |m| - 1;
      ReplaySnoc(d, m);
      ReplayIs(d, name, m[..n]);
      assert RecordBytes(m) == RecordBytes(m[..n]) + [Encoded(m[n])];
      EachRecordSnoc(d, name, Start(), RecordBytes(m[..n]), Encoded(m[n]));
      FreshRoundTrip(m[n]);
    }
  }

  lemma NothingReplayed(d: Disk)
    ensures ReplayOf(d, []) == Start()
  {
  }

  // ----- restart -----

  lemma ManifestFits(d: Disk, name: Bytes, base: Levels, m: seq<Record>)
    requires GoodManifest(d, name, base, m)
    ensures AllFit(name, m)
  {
    hide InRange, NumbersAreFresh, SeenBelow, GoodBase, FilesFrom;
    assert m[0].comparator == Some(name);
    assert forall i | 1 <= i < |m| :: Completed(name, m[i]);
  }

  lemma PrefixIsGood(d: Disk, name: Bytes, base: Levels, m: seq<Record>, k: nat)
    requires GoodManifest(d, name, base, m) && 1 <= k <= |m|
    ensures GoodManifest(d, name, base, m[..k])
  {
    hide InRange, SeenBelow, GoodBase, FilesFrom, AddsFresh;
    assert m[..k][1..] == m[1..k];
    var edits, first := EditsOf(d, m[1..]), EditsOf(d, m[1..k]);
    forall i: nat | i < |first| ensures AddsFresh(base, first[..i], first[i]) {
      assert first[..i] == edits[..i] && AddsFresh(base, edits[..i], edits[i]);
    }
    forall i: nat | 1 <= i < k ensures SeenBelow(base, EditsOf(d, m[..k][1..i + 1]), m[i].nextFile.value) {
      assert m[..k][1..i + 1] == m[1..i + 1];
    }
  }

  // With an edit after the snapshot, every number is the one of the last edit.
  lemma LatestIsLast(d: Disk, name: Bytes, m: seq<Record>)
    requires |m| >= 2 && AllValid(EditsOf(d, m)) && Completed(name, m[|m| - 1])
    ensures var s, r := ReplayOf(d, m), m[|m| - 1];
      s.logNumber == r.logNumber && s.prevLogNumber == r.prevLogNumber
      && s.nextFile == r.nextFile && s.lastSequence == r.lastSequence
  {
    hide ApplyEdit, Collected;
    ReplaySnoc(d, m);
  }

  // Less than the snapshot and one edit is not enough.
  lemma SnapshotAlone(d: Disk, name: Bytes, base: Levels, m: seq<Record>)
    requires |m| <= 1 && AllValid(EditsOf(d, m)) && (m != [] ==> m[0] == SnapshotOf(d, name, base, m[0].pointers))
    ensures Finished(ReplayOf(d, m)) == None
  {
    hide ApplyEdit, Collected, FilesFrom;
    if m != [] {
      ReplaySnoc(d, m);
      assert m[..0] == [];
    }
  }

  // However a manifest is cut off, a restart finds the version, the log numbers, the last sequence number and
  // the compaction pointers of the last complete edit, and a next file number above every file of that version; and
  // it fails exactly when not even one edit after the snapshot is complete.
  lemma ManifestRecovers(c: Checksum, d: Disk, name: Bytes, base: Levels, m: seq<Record>, n: nat)
    requires c.Lawful() && GoodManifest(d, name, base, m) && n <= |LogOf(c, RecordBytes(m))|
    ensures var k := Complete(c, RecordBytes(m), n);
      if k < 2 then Recovered(c, d, name, LogOf(c, RecordBytes(m))[..n]) == None
      else
        && AllValid(EditsOf(d, m[1..k]))
        && SeenBelow(base, EditsOf(d, m[1..k]), m[k - 1].nextFile.value)
        && Recovered(c, d, name, LogOf(c, RecordBytes(m))[..n])
           == Some(Opened(Live(base, EditsOf(d, m[1..k])), m[k - 1].logNumber.value, m[k - 1].prevLogNumber.value,
                          m[k - 1].nextFile.value + 1, m[k - 1].lastSequence.value, AllPointers(m[..k])))
  {
    hide AllPointers, WithPointers;
    hide LogOf, EachRecord, ReplayOf, Collected, Live, Complete, InRange, SeenBelow, NumbersAreFresh, GoodBase, FilesFrom,
      AllRecords;
    var k := Complete(c, RecordBytes(m), n);
    CrashSafe(c, RecordBytes(m), n);
    assert RecordBytes(m)[..k] == RecordBytes(m[..k]);
    ManifestFits(d, name, base, m);
    assert AllFit(name, m[..k]);
    RecordsAreValid(d, m[..k]);
    ReplayIs(d, name, m[..k]);
    if k < 2 {
      SnapshotAlone(d, name, base, m[..k]);
    } else {
      PrefixIsGood(d, name, base, m, k);
      ManifestIsLive(d, name, base, m[..k]);
      assert m[..k][1..] == m[1..k];
      LatestIsLast(d, name, m[..k]);
      PendingIs(d, m[..k]);
    }
  }

  // A fragment of type 5 behind the edits hides whatever follows: the database opens with the edits before it,
  // and no error is reported for the others.
  lemma EditsBehindEndAreIgnored(c: Checksum, d: Disk, name: Bytes, m: seq<Record>, payload: Bytes, file: Bytes)
    requires c.Lawful() && Holds(file, 0, LogOf(c, RecordBytes(m)))
    requires var q := NextStart(|LogOf(c, RecordBytes(m))|);
      |payload| <= Room(q) <= 0xffff && Holds(file, q, Physical(c, LogReader.EOF_TYPE, payload))
    ensures Recovered(c, d, name, file) == Recovered(c, d, name, LogOf(c, RecordBytes(m)))
  {
    hide LogOf, NextStart, Physical, AllRecords, EachRecord, Complete, RecordBytes;
    var records := RecordBytes(m);
    var whole := LogOf(c, records);
    HiddenBehindEnd(c, records, payload, file);
    CrashSafe(c, records, |whole|);
    CompleteMeans(c, records, |whole|, |records|);
    assert records[..|records|] == records && whole[..|whole|] == whole;
  }

  lemma PendingIs(d: Disk, m: seq<Record>)
    requires AllValid(EditsOf(d, m))
    ensures ReplayOf(d, m).pending == Collected(EditsOf(d, m)) && ReplayOf(d, m).pointers == AllPointers(m)
  {
    hide Collected, Latest, AllPointers;
  }

  // ----- ranges -----

  lemma AddedIsDescribed(d: Disk, r: Record, l: nat, f: File)
    requires OnDisk(d, r) && Adds(EditOf(d, r), l, f)
    ensures (l, MetaOf(d, f)) in r.added
  {
    EditAdds(d, r, l, f);
    var i: nat :| i < |r.added| && r.added[i].0 == l && FileOf(d, r.added[i].1) == f;
    assert r.added[i] == (l, MetaOf(d, f));
  }

  // The number, the size and both ends of the key range of every recovered file are those that a decoded
  // record gives for it.
  lemma RecoveredAsDescribed(d: Disk, name: Bytes, base: Levels, m: seq<Record>, k: nat, l: nat, f: File)
    requires GoodManifest(d, name, base, m) && 1 <= k <= |m| && AllValid(EditsOf(d, m[1..k]))
    requires l < Versions.NUM_LEVELS && f in Live(base, EditsOf(d, m[1..k]))[l]
    ensures exists r :: r in m[..k] && (l, MetaOf(d, f)) in r.added
  {
    hide Adds, AllInOrder, InRange, OnDisk, SnapshotOf, AddsFresh, SeenBelow, Live, MetaOf;
    PrefixIsGood(d, name, base, m, k);
    assert m[..k][1..] == m[1..k];
    LiveAdded(base, EditsOf(d, m[1..k]));
    if f in base[l] {
      SnapshotAdds(d, name, base, m[0].pointers, l, f);
      AddedIsDescribed(d, m[0], l, f);
      assert m[0] in m[..k];
    } else {
      var e :| e in EditsOf(d, m[1..k]) && Adds(e, l, f);
      var i: nat :| i < k - 1 && EditsOf(d, m[1..k])[i] == e;
      AddedIsDescribed(d, m[i + 1], l, f);
      assert m[i + 1] in m[..k];
    }
  }

  // ----- what is refused -----

  // One record that no replay takes spoils the manifest.
  lemma {:induction false} EachRecordFails(d: Disk, name: Bytes, s: Replay, bs: seq<Bytes>, i: nat)
    requires Ready(s.pending) && i < |bs| && forall t: Replay | Ready(t.pending) :: OneRecord(d, name, t, bs[i]).None?
    ensures EachRecord(d, name, s, bs).None?
    decreases i
  {
    hide OneRecord;
    if i > 0 && OneRecord(d, name, s, bs[0]).Some? {
      EachRecordFails(d, name, OneRecord(d, name, s, bs[0]).value, bs[1..], i - 1);
    }
  }

  lemma RecordIsRefused(c: Checksum, d: Disk, name: Bytes, bs: seq<Bytes>, i: nat)
    requires c.Lawful() && i < |bs| && forall t: Replay | Ready(t.pending) :: OneRecord(d, name, t, bs[i]).None?
    ensures Recovered(c, d, name, LogOf(c, bs)) == None
  {
    hide LogOf, OneRecord, EachRecord, AllRecords, Complete;
    var file := LogOf(c, bs);
    assert file[..|file|] == file;
    CrashSafe(c, bs, |file|);
    WholeLog(c, bs);
    EachRecordFails(d, name, Start(), bs, i);
  }

  lemma WholeLog(c: Checksum, bs: seq<Bytes>)
    ensures CompleteRecords(c, bs, |LogOf(c, bs)|) == bs
  {
    hide LogOf;
    assert bs[..|bs|] == bs;
  }

  // A record that does not decode, wherever it stands.
  lemma UndecodedIsRefused(c: Checksum, d: Disk, name: Bytes, bs: seq<Bytes>, i: nat)
    requires c.Lawful() && i < |bs| && Decoded(Blank(), bs[i]) == None
    ensures Recovered(c, d, name, LogOf(c, bs)) == None
  {
    hide LogOf, EachRecord, Decoded;
    RecordIsRefused(c, d, name, bs, i);
  }

  // A record that was written with another comparator.
  lemma OtherComparatorIsRefused(c: Checksum, d: Disk, name: Bytes, m: seq<Record>, i: nat, other: Bytes)
    requires c.Lawful() && i < |m| && InRange(m[i]) && m[i].comparator == Some(other) && other != name
    ensures Recovered(c, d, name, LogOf(c, RecordBytes(m))) == None
  {
    hide LogOf, EachRecord, Decoded, InRange, Encoded;
    FreshRoundTrip(m[i]);
    RecordIsRefused(c, d, name, RecordBytes(m), i);
  }

  // A log with any records, and behind them a fragment with a wrong checksum.
  lemma WrongChecksumIsRefused(c: Checksum, d: Disk, name: Bytes, bs: seq<Bytes>, file: Bytes)
    requires c.Lawful() && Holds(file, 0, LogOf(c, bs))
    requires var q := NextStart(|LogOf(c, bs)|); LogDamage.HasFragment(file, q) && !LogDamage.ChecksumFits(c, file, q)
    ensures Recovered(c, d, name, file) == None
  {
    hide LogOf, EachRecord, AllRecords, LogDamage.HasFragment, LogDamage.ChecksumFits, NextStart;
    LogDamage.WrongChecksumDropsBlock(c, bs, file);
  }

  lemma {:induction false} NothingNoted(d: Disk, name: Bytes, s: Replay, m: seq<Record>)
    requires Ready(s.pending) && forall i | 0 <= i < |m| :: InRange(m[i])
    requires EachRecord(d, name, s, RecordBytes(m)).Some?
    ensures var r := EachRecord(d, name, s, RecordBytes(m)).value;
      && (s.nextFile.None? && (forall i | 0 <= i < |m| :: m[i].nextFile.None?) ==> r.nextFile.None?)
      && (s.logNumber.None? && (forall i | 0 <= i < |m| :: m[i].logNumber.None?) ==> r.logNumber.None?)
      && (s.lastSequence.None? && (forall i | 0 <= i < |m| :: m[i].lastSequence.None?) ==> r.lastSequence.None?)
    decreases |m|
  {
    hide Decoded, InRange, Encoded, ApplyEdit, WithPointers, EditOf;
    if m != [] {
      FreshRoundTrip(m[0]);
      var next := OneRecord(d, name, s, RecordBytes(m)[0]);
      assert RecordBytes(m)[1..] == RecordBytes(m[1..]);
      if next.Some? {
        NothingNoted(d, name, next.value, m[1..]);
      }
    }
  }

  // Without a next file number, a log number, or a last sequence number anywhere, there is nothing to open.
  lemma NumbersAreNeeded(c: Checksum, d: Disk, name: Bytes, m: seq<Record>)
    requires c.Lawful() && forall i | 0 <= i < |m| :: InRange(m[i])
    requires || (forall i | 0 <= i < |m| :: m[i].nextFile.None?)
             || (forall i | 0 <= i < |m| :: m[i].logNumber.None?)
             || (forall i | 0 <= i < |m| :: m[i].lastSequence.None?)
    ensures Recovered(c, d, name, LogOf(c, RecordBytes(m))) == None
  {
    hide LogOf, EachRecord, AllRecords, InRange, RecordBytes, Complete;
    var bs := RecordBytes(m);
    var file := LogOf(c, bs);
    assert file[..|file|] == file;
    CrashSafe(c, bs, |file|);
    WholeLog(c, bs);
    if EachRecord(d, name, Start(), bs).Some? {
      NothingNoted(d, name, Start(), m);
    }
  }
}
