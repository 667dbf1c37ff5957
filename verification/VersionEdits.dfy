/** The manifest: version edits, and the builder that applies any number of them at once.

    A version is always the previous version plus one edit.  The builder skips the versions in
    between: it collects deletions and additions per level and merges them into the base in one
    pass.  Replay after a restart uses one builder for the whole manifest; here it is shown to
    rebuild the version that was live. */
module VersionEdits {
  import opened InternalKeys
  import opened Versions

  datatype Edit = Edit(deleted: set<(nat, nat)>, added: seq<(nat, File)>) {
    ghost predicate Valid() {
      && (forall d | d in deleted :: d.0 < NUM_LEVELS)
      && (forall i | 0 <= i < |added| :: added[i].0 < NUM_LEVELS)
    }
  }

  // BySmallestKey: internal order of the smallest keys, ties broken by file number.
  predicate FileBefore(f: File, g: File) {
    || Before(f.Smallest(), g.Smallest())
    || (!Before(g.Smallest(), f.Smallest()) && f.number < g.number)
  }

  ghost predicate InOrder(fs: seq<File>) {
    forall i, j | 0 <= i < j < |fs| :: FileBefore(fs[i], fs[j])
  }

  ghost predicate AllInOrder(v: Levels) {
    forall l | 0 <= l < |v| :: InOrder(v[l])
  }

  // std::set<FileMetaData*, BySmallestKey>::insert
  function InsertFile(fs: seq<File>, f: File): seq<File> {
    if fs == [] || FileBefore(f, fs[0]) then [f] + fs
    else if FileBefore(fs[0], f) then [fs[0]] + InsertFile(fs[1..], f)
    else fs
  }

  predicate SameRank(f: File, g: File) {
    !FileBefore(f, g) && !FileBefore(g, f)
  }

  lemma {:induction false} InsertFileMembers(fs: seq<File>, f: File)
    requires InOrder(fs)
    requires forall g | g in fs && SameRank(f, g) :: g == f
    ensures InOrder(InsertFile(fs, f))
    ensures forall g :: g in InsertFile(fs, f) <==> g == f || g in fs
  {
    hide Sorted;
    if fs == [] || FileBefore(f, fs[0]) {
    } else if FileBefore(fs[0], f) {
      InsertFileMembers(fs[1..], f);
      assert fs == [fs[0]] + fs[1..];
      assert forall g | g in InsertFile(fs[1..], f) :: FileBefore(fs[0], g);
    } else {
      assert fs[0] in fs && SameRank(f, fs[0]);
    }
  }

  // Two sorted lists with the same members are the same list.
  lemma {:induction false} InOrderIsCanonical(a: seq<File>, b: seq<File>)
    requires InOrder(a) && InOrder(b)
    requires forall f :: f in a <==> f in b
    ensures a == b
  {
    hide Sorted;
    assert |a| > 0 ==> a[0] in b;
    assert |b| > 0 ==> b[0] in a;
    if a != [] && b != [] {
      assert a[0] == b[0];
      assert a == [a[0]] + a[1..] && b == [b[0]] + b[1..];
      forall f ensures f in a[1..] <==> f in b[1..] {
        assert f in a <==> f == a[0] || f in a[1..];
        assert f in b <==> f == b[0] || f in b[1..];
      }
      InOrderIsCanonical(a[1..], b[1..]);
    }
  }

  // ----- what one builder holds -----

  datatype Pending = Pending(deleted: seq<set<nat>>, added: seq<seq<File>>) {
    ghost predicate Valid() {
      |deleted| == |added| == NUM_LEVELS && AllInOrder(added)
    }
  }

  function NothingPending(): (p: Pending)
    ensures |p.deleted| == |p.added| == NUM_LEVELS
    ensures forall l | 0 <= l < NUM_LEVELS :: p.deleted[l] == {} && p.added[l] == []
  {
    Pending(seq(NUM_LEVELS, _ => {}), seq(NUM_LEVELS, _ => []))
  }

  function DeletionsAt(e: Edit, l: nat): set<nat> {
    set d | d in e.deleted && d.0 == l :: d.1
  }

  function AddFile(p: Pending, l: nat, f: File): Pending
    requires l < |p.deleted| == |p.added|
  {
    Pending(p.deleted[l := p.deleted[l] - {f.number}], p.added[l := InsertFile(p.added[l], f)])
  }

  function AddFiles(p: Pending, added: seq<(nat, File)>): (r: Pending)
    requires |p.deleted| == |p.added| == NUM_LEVELS
    requires forall i | 0 <= i < |added| :: added[i].0 < NUM_LEVELS
    ensures |r.deleted| == |r.added| == NUM_LEVELS
  {
    if added == [] then p else
      var n := |added| - 1;
      AddFile(AddFiles(p, added[..n]), added[n].0, added[n].1)
  }

  function ApplyEdit(p: Pending, e: Edit): (r: Pending)
    requires |p.deleted| == |p.added| == NUM_LEVELS && e.Valid()
    ensures |r.deleted| == |r.added| == NUM_LEVELS
  {
    AddFiles(Pending(AllDeleted(p.deleted, e), p.added), e.added)
  }

  function AllDeleted(deleted: seq<set<nat>>, e: Edit): (r: seq<set<nat>>)
    requires |deleted| == NUM_LEVELS
    ensures |r| == NUM_LEVELS && forall l | 0 <= l < NUM_LEVELS :: r[l] == deleted[l] + DeletionsAt(e, l)
  {
    seq(NUM_LEVELS, l requires 0 <= l < |deleted| => deleted[l] + DeletionsAt(e, l))
  }

  // The deletions of an edit, one at a time.
  lemma OneDeletion(e: Edit, rest: set<(nat, nat)>, d: (nat, nat))
    requires d in rest && rest <= e.deleted
    ensures forall l: nat :: DeletionsAt(Edit(e.deleted - (rest - {d}), []), l)
                             == DeletionsAt(Edit(e.deleted - rest, []), l) + if l == d.0 then {d.1} else {}
  {
    assert e.deleted - (rest - {d}) == (e.deleted - rest) + {d};
  }

  lemma NoDeletions()
    ensures forall l: nat :: DeletionsAt(Edit({}, []), l) == {}
  {
  }

  lemma OnlyDeletions(e: Edit)
    ensures forall l: nat :: DeletionsAt(Edit(e.deleted, []), l) == DeletionsAt(e, l)
  {
  }

  // The one-pass merge: a base file goes before an added file unless the added one is before it.
  function MergeLevel(base: seq<File>, added: seq<File>): seq<File> {
    if added == [] then base
    else if base != [] && !FileBefore(added[0], base[0]) then [base[0]] + MergeLevel(base[1..], added)
    else [added[0]] + MergeLevel(base, added[1..])
  }

  function Undeleted(fs: seq<File>, deleted: set<nat>): seq<File> {
    if fs == [] then []
    else (if fs[0].number in deleted then [] else [fs[0]]) + Undeleted(fs[1..], deleted)
  }

  function SaveLevel(base: seq<File>, deleted: set<nat>, added: seq<File>): seq<File> {
    Undeleted(MergeLevel(base, added), deleted)
  }

  function Save(base: Levels, p: Pending): (v: Levels)
    requires |base| == |p.deleted| == |p.added| == NUM_LEVELS
    ensures |v| == NUM_LEVELS
  {
    seq(NUM_LEVELS, l requires 0 <= l < |base| && |base| == |p.deleted| == |p.added| =>
      SaveLevel(base[l], p.deleted[l], p.added[l]))
  }

  // ----- VersionSet::Builder -----

  class Builder {
    const base: Levels
    var deleted: seq<set<nat>>
    var added: seq<seq<File>>

    ghost predicate Valid()
      reads this
    {
      |base| == |deleted| == |added| == NUM_LEVELS
    }

    ghost function Content(): Pending
      reads this
    {
      Pending(deleted, added)
    }

    constructor (base: Levels)
      requires |base| == NUM_LEVELS
      ensures Valid() && this.base == base && Content() == NothingPending()
    {
      this.base := base;
      this.deleted := seq(NUM_LEVELS, _ => {});
      this.added := seq(NUM_LEVELS, _ => []);
    }

    method Delete(e: Edit)
      requires Valid() && e.Valid()
      modifies this`deleted
      ensures Valid() && Content() == old(Content()).(deleted := AllDeleted(old(deleted), e))
    {
      hide DeletionsAt;
      var rest := e.deleted;
      NoDeletions();
      assert e.deleted - rest == {};
      while rest != {}
        invariant Valid() && rest <= e.deleted
        invariant forall l | 0 <= l < NUM_LEVELS ::
          deleted[l] == old(deleted)[l] + DeletionsAt(Edit(e.deleted - rest, []), l)
      {
        var d :| d in rest;
        OneDeletion(e, rest, d);
        rest := rest - {d};
        deleted := deleted[d.0 := deleted[d.0] + {d.1}];
      }
      OnlyDeletions(e);
      assert e.deleted - {} == e.deleted;
      assert deleted == AllDeleted(old(deleted), e);
    }

    method Apply(e: Edit)
      requires Valid() && e.Valid()
      modifies this
      ensures Valid() && Content() == ApplyEdit(old(Content()), e)
    {
      hide DeletionsAt, InsertFile;
      Delete(e);
      ghost var p := Content();
      for i := 0 to |e.added|
        invariant Valid() && Content() == AddFiles(p, e.added[..i])
      {
        var l, f := e.added[i].0, e.added[i].1;
        deleted := deleted[l := deleted[l] - {f.number}];
        added := added[l := InsertFile(added[l], f)];
        assert e.added[..i + 1][..i] == e.added[..i];
      }
      assert e.added[..|e.added|] == e.added;
    }

    method MaybeAddFile(files: seq<File>, level: nat, f: File) returns (r: seq<File>)
      requires Valid() && level < NUM_LEVELS
      ensures r == files + Undeleted([f], deleted[level])
    {
      if f.number in deleted[level] {
        r := files;
      } else {
        r := files + [f];
      }
    }

    method SaveOneLevel(level: nat) returns (files: seq<File>)
      requires Valid() && level < NUM_LEVELS
      ensures files == SaveLevel(base[level], deleted[level], added[level])
    {
      hide SaveLevel, Undeleted, FileBefore;
      var bs, fs := base[level], added[level];
      ghost var all := SaveLevel(bs, deleted[level], fs);
      files := [];
      var b := 0;
      assert bs[0..] == bs && fs[0..] == fs;
      for a := 0 to |fs|
        invariant 0 <= b <= |bs|
        invariant all == files + SaveLevel(bs[b..], deleted[level], fs[a..])
      {
        // add all files of the base up to std::upper_bound(fs[a])
        while b < |bs| && !FileBefore(fs[a], bs[b])
          invariant 0 <= b <= |bs|
          invariant all == files + SaveLevel(bs[b..], deleted[level], fs[a..])
        {
          SaveStep(bs[b..], deleted[level], fs[a..]);
          files := MaybeAddFile(files, level, bs[b]);
          b := b + 1;
        }
        SaveStep(bs[b..], deleted[level], fs[a..]);
        files := MaybeAddFile(files, level, fs[a]);
      }
      assert fs[|fs|..] == [];
      while b < |bs|
        invariant 0 <= b <= |bs|
        invariant all == files + SaveLevel(bs[b..], deleted[level], [])
      {
        SaveStep(bs[b..], deleted[level], []);
        files := MaybeAddFile(files, level, bs[b]);
        b := b + 1;
      }
      SaveStep(bs[b..], deleted[level], []);
    }

    method SaveTo() returns (v: Levels)
      requires Valid()
      ensures v == Save(base, Content())
    {
      v := [];
      for level := 0 to NUM_LEVELS
        invariant |v| == level
        invariant forall l | 0 <= l < level :: v[l] == SaveLevel(base[l], deleted[l], added[l])
      {
        var files := SaveOneLevel(level);
        v := v + [files];
      }
    }
  }

  lemma SaveStep(bs: seq<File>, deleted: set<nat>, fs: seq<File>)
    ensures bs == [] && fs == [] ==> SaveLevel(bs, deleted, fs) == []
    ensures bs != [] && (fs == [] || !FileBefore(fs[0], bs[0])) ==>
              SaveLevel(bs, deleted, fs) == Undeleted([bs[0]], deleted) + SaveLevel(bs[1..], deleted, fs)
    ensures fs != [] && (bs == [] || FileBefore(fs[0], bs[0])) ==>
              SaveLevel(bs, deleted, fs) == Undeleted([fs[0]], deleted) + SaveLevel(bs, deleted, fs[1..])
  {
    hide FileBefore;
    assert bs != [] && fs == [] ==> MergeLevel(bs, fs) == [bs[0]] + MergeLevel(bs[1..], fs);
  }

  // ----- one builder for many edits -----

  ghost predicate Adds(e: Edit, l: nat, f: File) {
    (l, f) in e.added
  }

  ghost predicate AddsNumber(e: Edit, l: nat, n: nat) {
    exists f: File :: Adds(e, l, f) && f.number == n
  }

  // Within an edit, a level gets each file number at most once.
  ghost predicate AddsOnce(e: Edit) {
    forall l: nat, f: File, g: File | Adds(e, l, f) && Adds(e, l, g) && f.number == g.number :: f == g
  }

  lemma {:induction false} AddFilesMembers(p: Pending, added: seq<(nat, File)>, l: nat)
    requires p.Valid() && l < NUM_LEVELS
    requires forall i | 0 <= i < |added| :: added[i].0 < NUM_LEVELS
    requires forall f: File, g: File | (l, f) in added && ((l, g) in added || g in p.added[l]) && f.number == g.number :: f == g
    ensures var r := AddFiles(p, added);
      && InOrder(r.added[l])
      && (forall f: File :: f in r.added[l] <==> f in p.added[l] || (l, f) in added)
      && (forall n: nat :: n in r.deleted[l] <==> n in p.deleted[l] && forall f: File | (l, f) in added :: f.number != n)
  {
    hide FileBefore, Sorted;
    if added != [] {
      var n := |added| - 1;
      assert added == added[..n] + [added[n]];
      AddFilesMembers(p, added[..n], l);
      if added[n].0 == l {
        var r := AddFiles(p, added[..n]);
        var f := added[n].1;
        assert (l, f) in added;
        forall g | g in r.added[l] && SameRank(f, g) ensures g == f {
          SameRankSameNumber(f, g);
        }
        InsertFileMembers(r.added[l], f);
      }
    }
  }

  lemma SameRankSameNumber(f: File, g: File)
    requires SameRank(f, g)
    ensures f.number == g.number
  {
  }

  lemma ApplyEditMembers(p: Pending, e: Edit, l: nat)
    requires p.Valid() && e.Valid() && l < NUM_LEVELS && AddsOnce(e)
    requires forall f: File, g: File | Adds(e, l, f) && g in p.added[l] :: f.number != g.number
    ensures var r := ApplyEdit(p, e);
      && InOrder(r.added[l])
      && (forall f: File :: f in r.added[l] <==> f in p.added[l] || Adds(e, l, f))
      && (forall n: nat :: n in r.deleted[l] <==> (n in p.deleted[l] || (l, n) in e.deleted) && !AddsNumber(e, l, n))
  {
    hide InOrder;
    var q := Pending(AllDeleted(p.deleted, e), p.added);
    forall f: File, g: File | (l, f) in e.added && ((l, g) in e.added || g in p.added[l]) && f.number == g.number ensures f == g {
      assert Adds(e, l, f);
      assert (l, g) in e.added ==> Adds(e, l, g);
    }
    AddFilesMembers(q, e.added, l);
    forall n: nat ensures n in q.deleted[l] <==> n in p.deleted[l] || (l, n) in e.deleted {
      if (l, n) in e.deleted {
        assert (l, n).0 == l;
      }
    }
  }

  lemma RanksAreTotal(f: File, g: File)
    requires f.number != g.number
    ensures FileBefore(f, g) || FileBefore(g, f)
  {
  }

  // What comes before the head of a sorted list comes before all of it.
  lemma BeforeHead(f: File, fs: seq<File>)
    requires InOrder(fs) && fs != [] && FileBefore(f, fs[0])
    ensures forall g | g in fs :: FileBefore(f, g)
  {
    forall i | 0 <= i < |fs| ensures FileBefore(f, fs[i]) {
      if i > 0 {
        assert FileBefore(fs[0], fs[i]);
      }
    }
  }

  lemma PrependInOrder(f: File, fs: seq<File>)
    requires InOrder(fs) && forall g | g in fs :: FileBefore(f, g)
    ensures InOrder([f] + fs)
  {
  }

  lemma {:induction false} MergeLevelMembers(base: seq<File>, added: seq<File>)
    requires InOrder(base) && InOrder(added)
    requires forall f, g | f in base && g in added :: f.number != g.number
    ensures InOrder(MergeLevel(base, added))
    ensures forall f :: f in MergeLevel(base, added) <==> f in base || f in added
  {
    hide FileBefore, Sorted;
    if added == [] {
    } else if base != [] && !FileBefore(added[0], base[0]) {
      assert base == [base[0]] + base[1..];
      MergeLevelMembers(base[1..], added);
      assert base[0] in base && added[0] in added;
      RanksAreTotal(base[0], added[0]);
      BeforeHead(base[0], added);
      PrependInOrder(base[0], MergeLevel(base[1..], added));
    } else {
      assert added == [added[0]] + added[1..];
      MergeLevelMembers(base, added[1..]);
      if base != [] {
        BeforeHead(added[0], base);
      }
      PrependInOrder(added[0], MergeLevel(base, added[1..]));
    }
  }

  lemma {:induction false} UndeletedMembers(fs: seq<File>, deleted: set<nat>)
    requires InOrder(fs)
    ensures InOrder(Undeleted(fs, deleted))
    ensures forall f :: f in Undeleted(fs, deleted) <==> f in fs && f.number !in deleted
  {
    hide FileBefore;
    if fs != [] {
      assert fs == [fs[0]] + fs[1..];
      UndeletedMembers(fs[1..], deleted);
    }
  }

  lemma SaveLevelMembers(base: seq<File>, deleted: set<nat>, added: seq<File>)
    requires InOrder(base) && InOrder(added)
    requires forall f, g | f in base && g in added :: f.number != g.number
    ensures InOrder(SaveLevel(base, deleted, added))
    ensures forall f :: f in SaveLevel(base, deleted, added) <==> (f in base || f in added) && f.number !in deleted
  {
    hide InOrder;
    MergeLevelMembers(base, added);
    UndeletedMembers(MergeLevel(base, added), deleted);
  }

  // ----- the live version, and the version replayed from the manifest -----

  // LogAndApply: the version the store switches to.
  function Applied(v: Levels, e: Edit): (r: Levels)
    requires |v| == NUM_LEVELS && e.Valid()
    ensures |r| == NUM_LEVELS
  {
    Save(v, ApplyEdit(NothingPending(), e))
  }

  ghost predicate AllValid(edits: seq<Edit>) {
    forall i | 0 <= i < |edits| :: edits[i].Valid()
  }

  ghost function Live(base: Levels, edits: seq<Edit>): (r: Levels)
    requires |base| == NUM_LEVELS && AllValid(edits)
    ensures |r| == NUM_LEVELS
  {
    if edits == [] then base else Applied(Live(base, edits[..|edits| - 1]), edits[|edits| - 1])
  }

  ghost function Collected(edits: seq<Edit>): (p: Pending)
    requires AllValid(edits)
    ensures |p.deleted| == |p.added| == NUM_LEVELS
  {
    if edits == [] then NothingPending() else ApplyEdit(Collected(edits[..|edits| - 1]), edits[|edits| - 1])
  }

  // Number n has been in level l at some time.
  ghost predicate Seen(base: Levels, edits: seq<Edit>, l: nat, n: nat) {
    || (l < |base| && exists f | f in base[l] :: f.number == n)
    || exists e | e in edits :: AddsNumber(e, l, n)
  }

  // No level ever gets a file number back.
  ghost predicate AddsFresh(base: Levels, earlier: seq<Edit>, e: Edit) {
    AddsOnce(e) && forall l: nat, f: File | Adds(e, l, f) :: !Seen(base, earlier, l, f.number)
  }

  ghost predicate NumbersAreFresh(base: Levels, edits: seq<Edit>) {
    forall i | 0 <= i < |edits| :: AddsFresh(base, edits[..i], edits[i])
  }

  ghost predicate EverAdded(edits: seq<Edit>, l: nat, f: File) {
    exists e | e in edits :: Adds(e, l, f)
  }

  lemma {:induction false} CollectedMembers(base: Levels, edits: seq<Edit>, l: nat)
    requires |base| == NUM_LEVELS && AllValid(edits) && NumbersAreFresh(base, edits) && l < NUM_LEVELS
    ensures InOrder(Collected(edits).added[l])
    ensures forall f: File :: f in Collected(edits).added[l] <==> EverAdded(edits, l, f)
  {
    hide InOrder, InsertFile, AddFiles;
    if edits == [] {
      EmptyIsInOrder();
    } else {
      var n := |edits| - 1;
      var earlier, e := edits[..n], edits[n];
      FreshPrefix(base, edits);
      forall m: nat | m < NUM_LEVELS ensures InOrder(Collected(earlier).added[m]) {
        CollectedMembers(base, earlier, m);
      }
      CollectedMembers(base, earlier, l);
      forall f: File, g: File | Adds(e, l, f) && g in Collected(earlier).added[l] ensures f.number != g.number {
        EverAddedIsSeen(base, earlier, l, g);
      }
      ApplyEditMembers(Collected(earlier), e, l);
      forall f: File ensures EverAdded(edits, l, f) <==> EverAdded(earlier, l, f) || Adds(e, l, f) {
        EverAddedSnoc(earlier, e, l, f);
        assert edits == earlier + [e];
      }
    }
  }

  lemma EmptyIsInOrder()
    ensures InOrder([])
  {
  }

  lemma FreshPrefix(base: Levels, edits: seq<Edit>)
    requires edits != [] && NumbersAreFresh(base, edits)
    ensures NumbersAreFresh(base, edits[..|edits| - 1])
    ensures AddsFresh(base, edits[..|edits| - 1], edits[|edits| - 1])
  {
    hide AddsFresh;
    var n := |edits| - 1;
    forall i | 0 <= i < n ensures AddsFresh(base, edits[..n][..i], edits[..n][i]) {
      assert edits[..n][..i] == edits[..i];
    }
  }

  lemma EverAddedIsSeen(base: Levels, edits: seq<Edit>, l: nat, f: File)
    requires EverAdded(edits, l, f)
    ensures Seen(base, edits, l, f.number)
  {
    var e :| e in edits && Adds(e, l, f);
    assert AddsNumber(e, l, f.number);
  }

  lemma EverAddedSnoc(edits: seq<Edit>, e: Edit, l: nat, f: File)
    ensures EverAdded(edits + [e], l, f) <==> EverAdded(edits, l, f) || Adds(e, l, f)
  {
    if Adds(e, l, f) {
      assert e in edits + [e];
    }
  }

  // Adding one more edit to the builder and applying it to the saved version come to the same.
  lemma OneMoreEdit(base: Levels, p: Pending, e: Edit, l: nat)
    requires |base| == NUM_LEVELS && p.Valid() && e.Valid() && l < NUM_LEVELS
    requires InOrder(base[l]) && AddsOnce(e)
    requires forall f, g | f in base[l] && g in p.added[l] :: f.number != g.number
    requires forall f: File, g: File | Adds(e, l, f) && (g in base[l] || g in p.added[l]) :: f.number != g.number
    ensures Save(base, ApplyEdit(p, e))[l] == Applied(Save(base, p), e)[l]
    ensures InOrder(Save(base, ApplyEdit(p, e))[l])
  {
    hide InOrder, Adds, SaveLevel, ApplyEdit;
    var v := Save(base, p);
    SaveLevelMembers(base[l], p.deleted[l], p.added[l]);
    EmptyIsInOrder();
    ApplyEditMembers(NothingPending(), e, l);
    ApplyEditMembers(p, e, l);
    var one, many := ApplyEdit(NothingPending(), e), ApplyEdit(p, e);
    SaveLevelMembers(v[l], one.deleted[l], one.added[l]);
    SaveLevelMembers(base[l], many.deleted[l], many.added[l]);
    forall f: File ensures f in Save(base, many)[l] <==> f in Save(v, one)[l] {
      if f in base[l] || f in p.added[l] {
        assert !AddsNumber(e, l, f.number);
      } else if Adds(e, l, f) {
        assert AddsNumber(e, l, f.number);
      }
    }
    InOrderIsCanonical(Save(base, many)[l], Save(v, one)[l]);
  }

  lemma EarlierNumbersDiffer(base: Levels, edits: seq<Edit>, e: Edit, l: nat)
    requires |base| == NUM_LEVELS && AllValid(edits) && NumbersAreFresh(base, edits) && l < NUM_LEVELS
    requires AddsFresh(base, edits, e)
    ensures forall f: File, g: File | Adds(e, l, f) && (g in base[l] || g in Collected(edits).added[l]) :: f.number != g.number
  {
    CollectedMembers(base, edits, l);
    forall f: File, g: File | Adds(e, l, f) && (g in base[l] || g in Collected(edits).added[l]) ensures f.number != g.number {
      if g in Collected(edits).added[l] {
        EverAddedIsSeen(base, edits, l, g);
      }
    }
  }

  lemma AddedNumbersDiffer(base: Levels, edits: seq<Edit>, l: nat)
    requires |base| == NUM_LEVELS && AllValid(edits) && NumbersAreFresh(base, edits) && l < NUM_LEVELS
    ensures forall f, g | f in base[l] && g in Collected(edits).added[l] :: f.number != g.number
  {
    CollectedMembers(base, edits, l);
    forall f, g | f in base[l] && g in Collected(edits).added[l] ensures f.number != g.number {
      var e :| e in edits && Adds(e, l, g);
      var i: nat :| i < |edits| && edits[i] == e;
      assert AddsFresh(base, edits[..i], edits[i]);
    }
  }

  // One builder over the whole manifest rebuilds the live version.
  lemma {:induction false} ReplayIsLive(base: Levels, edits: seq<Edit>)
    requires |base| == NUM_LEVELS && AllInOrder(base)
    requires AllValid(edits) && NumbersAreFresh(base, edits)
    ensures Save(base, Collected(edits)) == Live(base, edits)
    ensures AllInOrder(Live(base, edits))
  {
    hide InOrder, AddsFresh, Adds, SaveLevel, ApplyEdit;
    if edits == [] {
      EmptySaveIsBase(base);
    } else {
      var n := |edits| - 1;
      var earlier, e := edits[..n], edits[n];
      FreshPrefix(base, edits);
      ReplayIsLive(base, earlier);
      FreshAddsOnce(base, earlier, e);
      forall l: nat | l < NUM_LEVELS
        ensures Save(base, Collected(edits))[l] == Live(base, edits)[l] && InOrder(Live(base, edits)[l])
      {
        forall m: nat | m < NUM_LEVELS ensures InOrder(Collected(earlier).added[m]) {
          CollectedMembers(base, earlier, m);
        }
        EarlierNumbersDiffer(base, earlier, e, l);
        AddedNumbersDiffer(base, earlier, l);
        OneMoreEdit(base, Collected(earlier), e, l);
      }
    }
  }

  lemma FreshAddsOnce(base: Levels, earlier: seq<Edit>, e: Edit)
    requires AddsFresh(base, earlier, e)
    ensures AddsOnce(e)
  {
  }

  lemma EmptySaveIsBase(base: Levels)
    requires |base| == NUM_LEVELS && AllInOrder(base)
    ensures Save(base, NothingPending()) == base
  {
    hide FileBefore;
    forall l: nat | l < NUM_LEVELS ensures SaveLevel(base[l], {}, []) == base[l] {
      SaveLevelMembers(base[l], {}, []);
      InOrderIsCanonical(SaveLevel(base[l], {}, []), base[l]);
    }
  }
}
