/** What every run of the engine keeps, and what its readers see. */
module EngineRuns {
  import opened Options
  import opened InternalKeys
  import opened Versions
  import opened VersionEdits
  import opened CompactionInputs
  import opened Compactions
  import opened CompactionReads
  import opened Installs
  import opened Cuts
  import opened Engine

  // ----- the start -----

  lemma InitialIsRight()
    ensures Structure(Initial()) && ReadsRight(Initial())
  {
    hide Read;
    var s := Initial();
    EmptyVersionIsSettled();
    EmptyTree();
    forall l: nat, n: nat ensures !Seen(EmptyVersion(), [], l, n) {
    }
    forall k, t ensures Read(All(s), k, t) == Lookup(s.hist, k, t) {
      ReadAbsent(All(s), k, t);
    }
  }

  lemma EmptyVersionIsSettled()
    ensures Settled(EmptyVersion(), 2)
  {
    hide Newer, Apart, FileBefore, InFiles, ValidVersion, InOrder;
    NothingIn();
    EmptyIsInOrder();
    LevelsFromMembers(EmptyVersion());
  }

  lemma NothingIn()
    ensures forall e :: !InFiles([], e)
  {
  }

  lemma EmptyTree()
    ensures ContentsFrom(EmptyVersion(), 0) == iset{}
  {
  }

  // ----- writes -----

  ghost predicate PutOne(s: State, e: Entry, s': State) {
    && e.seqno == s.lastSequence + 1 < MAX_SEQUENCE
    && s' == s.(mem := Insert(s.mem, e), hist := s.hist + [e], lastSequence := s.lastSequence + 1)
  }

  lemma PutOneContents(s: State, e: Entry, s': State)
    requires Layered(s) && PutOne(s, e, s')
    ensures Sorted(s'.mem) && Of(s'.mem) == Of(s.mem) + iset{e}
    ensures All(s') == All(s) + iset{e}
    ensures forall x | x in All(s) :: x.seqno < e.seqno
  {
    hide Newer, Sorted;
    HistoryIsUnique(s.hist);
    forall x | x in All(s) ensures x.seqno < e.seqno {
      assert x in Of(s.hist);
    }
    forall x | x in s.mem ensures x.key != e.key || x.Tag() != e.Tag() {
      assert x in Of(s.mem);
    }
    InsertKeepsSorted(s.mem, e);
  }

  lemma PutOneIsLayered(s: State, e: Entry, s': State)
    requires Layered(s) && PutOne(s, e, s')
    ensures Layered(s')
  {
    hide Sorted;
    PutOneContents(s, e, s');
    OfSnoc(s.hist, e);
    assert ImmEntries(s') == ImmEntries(s) && Tree(s') == Tree(s);
    forall x, y | x in Of(s'.mem) && y in Of(ImmEntries(s)) + Tree(s) && x.key == y.key ensures x.seqno > y.seqno {
      assert y in All(s);
    }
  }

  lemma PutOneReads(s: State, e: Entry, s': State)
    requires Layered(s) && PutOne(s, e, s') && ReadsRight(s)
    ensures ReadsRight(s')
  {
    hide Layered, Read, All;
    PutOneIsLayered(s, e, s');
    PutOneContents(s, e, s');
    AllIsUnique(s');
    LayeredHistory(s);
    forall k, t | s'.floor <= t ensures Read(All(s'), k, t) == Lookup(s'.hist, k, t) {
      NewestWins(All(s), e, k, t);
      assert s'.hist[..|s.hist|] == s.hist;
      assert Read(All(s), k, t) == Lookup(s.hist, k, t);
    }
  }

  lemma LayeredHistory(s: State)
    requires Layered(s)
    ensures IsHistory(s.hist) && |s.hist| == s.lastSequence
    ensures All(s) <= Of(s.hist) && Unique(Of(s.hist))
  {
    HistoryIsUnique(s.hist);
  }

  lemma AllIsUnique(s: State)
    requires Layered(s)
    ensures Unique(All(s))
  {
    LayeredHistory(s);
  }

  lemma StampSnoc(last: nat, ops: seq<(Key, Op)>)
    requires ops != []
    ensures var n := |ops| - 1;
      Stamp(last, ops) == Stamp(last, ops[..n]) + [Entry(ops[n].0, last + 1 + n, ops[n].1)]
  {
  }

  // The state halfway through a batch; readers do not see it, the memtable does.
  function Written(s: State, ops: seq<(Key, Op)>): State {
    s.(mem := InsertAll(s.mem, Stamp(s.lastSequence, ops)), hist := s.hist + Stamp(s.lastSequence, ops),
       lastSequence := s.lastSequence + |ops|)
  }

  lemma {:induction false} BatchIsLayered(s: State, ops: seq<(Key, Op)>)
    requires Layered(s) && s.lastSequence + |ops| < MAX_SEQUENCE
    ensures Layered(Written(s, ops))
    ensures ReadsRight(s) ==> ReadsRight(Written(s, ops))
  {
    hide Layered, ReadsRight;
    if ops == [] {
      assert Written(s, ops) == s;
    } else {
      var n := |ops| - 1;
      var mid, e := Written(s, ops[..n]), Entry(ops[n].0, s.lastSequence + 1 + n, ops[n].1);
      BatchIsLayered(s, ops[..n]);
      StampSnoc(s.lastSequence, ops);
      var es := Stamp(s.lastSequence, ops);
      assert es[..n] == Stamp(s.lastSequence, ops[..n]) && es[n] == e;
      assert s.hist + es == (s.hist + es[..n]) + [e];
      assert PutOne(mid, e, Written(s, ops));
      PutOneIsLayered(mid, e, Written(s, ops));
      if ReadsRight(s) {
        PutOneReads(mid, e, Written(s, ops));
      }
    }
  }

  // ----- steps that move no entry -----

  lemma SwitchKeeps(s: State, s': State)
    requires Layered(s) && s.imm.None? && s' == s.(imm := Some(s.mem), mem := [], nextFile := s.nextFile + 1)
    ensures Layered(s') && All(s') == All(s)
  {
    hide Sorted;
    EmptyRuns();
    assert Of([]) == iset{};
  }

  lemma EmptyRuns()
    ensures Sorted([])
  {
  }

  lemma StartKeeps(s: State, j: Job)
    requires SnapshotsAbove(s)
    ensures s.floor <= SmallestSnapshot(s)
    ensures SnapshotsAbove(s.(running := Some(j), inputVersion := s.v, floor := SmallestSnapshot(s)))
  {
  }

  lemma ReleaseKeeps(s: State, i: nat)
    requires SnapshotsAbove(s) && i < |s.snapshots|
    ensures SnapshotsAbove(s.(snapshots := s.snapshots[..i] + s.snapshots[i + 1..]))
  {
  }

  // ----- installing a version -----

  ghost predicate WasAbove(v: Levels, l: nat, f: File) {
    exists m: nat | m < l && m < |v| :: f in v[m]
  }

  // A number not given to a file before: of a begun output, or from the next one on.
  predicate IsNew(begun: seq<nat>, next: nat, next': nat, n: nat) {
    n < next' && (n in begun || next <= n)
  }

  // The edit adds new files, or moves files down; nothing else appears.
  ghost predicate Sinks(v: Levels, e: Edit, v': Levels, begun: seq<nat>, next: nat, next': nat) {
    && AddsOnce(e) && next <= next'
    && (forall l: nat, f: File | Adds(e, l, f) ::
          l < |v'| && f in v'[l] && (IsNew(begun, next, next', f.number) || WasAbove(v, l, f)))
    && (forall m: nat, f: File {:trigger f in v'[m]} | m < |v'| && f in v'[m] :: Adds(e, m, f) || (m < |v| && f in v[m]))
  }

  lemma SinksAdded(v: Levels, e: Edit, v': Levels, begun: seq<nat>, next: nat, next': nat, l: nat, f: File)
    requires Sinks(v, e, v', begun, next, next') && Adds(e, l, f)
    ensures l < |v'| && f in v'[l] && (IsNew(begun, next, next', f.number) || WasAbove(v, l, f))
  {
  }

  lemma SinksPresent(v: Levels, e: Edit, v': Levels, begun: seq<nat>, next: nat, next': nat, m: nat, f: File)
    requires Sinks(v, e, v', begun, next, next') && m < |v'| && f in v'[m]
    ensures Adds(e, m, f) || (m < |v| && f in v[m])
  {
  }

  lemma DescendsFor(edits: seq<Edit>, v: Levels, next: nat, l: nat, n: nat, m: nat, f: File)
    requires Descends(edits, v, next) && Seen(EmptyVersion(), edits, l, n)
    requires m < |v| && f in v[m] && f.number == n
    ensures l <= m
  {
    hide Seen;
  }

  // A file is not seen below its level.
  lemma NotSeenBelow(edits: seq<Edit>, v: Levels, next: nat, l: nat, h: nat, f: File)
    requires Descends(edits, v, next) && h < l && h < |v| && f in v[h]
    ensures !Seen(EmptyVersion(), edits, l, f.number)
  {
    hide Seen;
  }

  lemma NewIsUnseen(edits: seq<Edit>, v: Levels, begun: seq<nat>, next: nat, next': nat, l: nat, n: nat)
    requires Descends(edits, v, next) && Unseen(edits, begun) && IsNew(begun, next, next', n)
    ensures !Seen(EmptyVersion(), edits, l, n)
  {
    hide Seen;
  }

  lemma SeenStaysBelow(edits: seq<Edit>, v: Levels, e: Edit, v': Levels, begun: seq<nat>, next: nat, next': nat, l: nat, n: nat)
    requires Descends(edits, v, next) && Sinks(v, e, v', begun, next, next') && NumbersBelow(v, next)
    requires Seen(EmptyVersion(), edits + [e], l, n)
    ensures n < next'
  {
    hide Seen, Adds, Sinks;
    SeenSnoc(EmptyVersion(), edits, e, l, n);
    SinksGrows(v, e, v', begun, next, next');
    if !Seen(EmptyVersion(), edits, l, n) {
      var g: File :| Adds(e, l, g) && g.number == n;
      SinksAdded(v, e, v', begun, next, next', l, g);
    }
  }

  lemma SinksGrows(v: Levels, e: Edit, v': Levels, begun: seq<nat>, next: nat, next': nat)
    requires Sinks(v, e, v', begun, next, next')
    ensures next <= next' && AddsOnce(e)
  {
  }

  lemma DescendsAfter(edits: seq<Edit>, v: Levels, e: Edit, v': Levels, begun: seq<nat>, next: nat, next': nat, l: nat, n: nat,
                      m: nat, f: File)
    requires Descends(edits, v, next) && Unseen(edits, begun) && Sinks(v, e, v', begun, next, next') && NumbersAreUnique(v')
    requires Seen(EmptyVersion(), edits + [e], l, n)
    requires m < |v'| && f in v'[m] && f.number == n
    ensures l <= m
  {
    hide Seen, Adds, Sinks, NumbersAreUnique;
    SeenSnoc(EmptyVersion(), edits, e, l, n);
    if Seen(EmptyVersion(), edits, l, n) {
      SinksPresent(v, e, v', begun, next, next', m, f);
      if Adds(e, m, f) {
        SinksAdded(v, e, v', begun, next, next', m, f);
        assert n < next;
        var h: nat :| h < m && h < |v| && f in v[h];
        DescendsFor(edits, v, next, l, n, h, f);
      } else {
        DescendsFor(edits, v, next, l, n, m, f);
      }
    } else {
      var g: File :| Adds(e, l, g) && g.number == n;
      SinksAdded(v, e, v', begun, next, next', l, g);
      SameNumberSameLevel(v', l, g, m, f);
    }
  }

  lemma SameNumberSameLevel(v: Levels, l: nat, f: File, m: nat, g: File)
    requires NumbersAreUnique(v) && l < |v| && m < |v| && f in v[l] && g in v[m] && f.number == g.number
    ensures l == m && f == g
  {
  }

  lemma ManifestStep(s: State, e: Edit, v': Levels, begun: seq<nat>, next': nat)
    requires ManifestMatches(s) && Logs(s, e, v') && NumbersAreUnique(v') && NumbersBelow(s.v, s.nextFile)
    requires Unseen(s.edits, begun) && Sinks(s.v, e, v', begun, s.nextFile, next')
    ensures AllValid(s.edits + [e]) && NumbersAreFresh(EmptyVersion(), s.edits + [e])
    ensures v' == Live(EmptyVersion(), s.edits + [e])
    ensures Descends(s.edits + [e], v', next')
  {
    hide Seen, NumbersAreFresh, Sinks, NumbersAreUnique, NumbersBelow, Applied;
    AddedIsFresh(s, e, v', begun, next');
    FreshSnoc(EmptyVersion(), s.edits, e);
    assert (s.edits + [e])[..|s.edits|] == s.edits;
    forall l: nat, n: nat | Seen(EmptyVersion(), s.edits + [e], l, n) ensures
      n < next' && forall m: nat, f: File {:trigger f in v'[m]} | m < |v'| && f in v'[m] && f.number == n :: l <= m
    {
      SeenStaysBelow(s.edits, s.v, e, v', begun, s.nextFile, next', l, n);
      forall m: nat, f: File | m < |v'| && f in v'[m] && f.number == n ensures l <= m {
        DescendsAfter(s.edits, s.v, e, v', begun, s.nextFile, next', l, n, m, f);
      }
    }
  }

  lemma AddedIsFresh(s: State, e: Edit, v': Levels, begun: seq<nat>, next': nat)
    requires ManifestMatches(s) && Unseen(s.edits, begun) && Sinks(s.v, e, v', begun, s.nextFile, next')
    ensures AddsFresh(EmptyVersion(), s.edits, e)
  {
    hide Adds, Seen, NumbersAreFresh, Sinks, AllValid, Descends, Unseen, IsNew;
    SinksGrows(s.v, e, v', begun, s.nextFile, next');
    forall l: nat, f: File | Adds(e, l, f) ensures !Seen(EmptyVersion(), s.edits, l, f.number) {
      SinksAdded(s.v, e, v', begun, s.nextFile, next', l, f);
      if WasAbove(s.v, l, f) {
        var h: nat :| h < l && h < |s.v| && f in s.v[h];
        NotSeenBelow(s.edits, s.v, s.nextFile, l, h, f);
      } else {
        NewIsUnseen(s.edits, s.v, begun, s.nextFile, next', l, f.number);
      }
    }
  }

  lemma FreshSnoc(base: Levels, edits: seq<Edit>, e: Edit)
    requires NumbersAreFresh(base, edits) && AddsFresh(base, edits, e)
    ensures NumbersAreFresh(base, edits + [e])
  {
    hide AddsFresh;
    var all := edits + [e];
    forall i | 0 <= i < |all| ensures AddsFresh(base, all[..i], all[i]) {
      assert i < |edits| ==> all[..i] == edits[..i];
      assert all[..|edits|] == edits;
    }
  }

  lemma SeenSnoc(base: Levels, edits: seq<Edit>, e: Edit, l: nat, n: nat)
    requires Seen(base, edits + [e], l, n)
    ensures Seen(base, edits, l, n) || AddsNumber(e, l, n)
  {
    hide AddsNumber;
  }

  // ----- the edit of a flush -----

  lemma FlushAdds(at: nat, f: File, l: nat, g: File)
    ensures Adds(FlushEdit(at, f), l, g) <==> l == at && g == f
  {
  }

  lemma FlushExtends(v: Levels, next: nat, at: nat, f: File)
    requires Settled(v, next) && f.number == next && at < NUM_LEVELS
    ensures FlushEdit(at, f).Valid() && AddsOnce(FlushEdit(at, f))
    ensures Extends(v, Applied(v, FlushEdit(at, f)), at, f)
  {
    hide ValidVersion, Adds, InOrder, Applied;
    var e := FlushEdit(at, f);
    forall l: nat, g: File ensures Adds(e, l, g) <==> l == at && g == f {
      FlushAdds(at, f, l, g);
    }
    forall l: nat | l < NUM_LEVELS
      ensures InOrder(Applied(v, e)[l])
      ensures forall g: File :: g in Applied(v, e)[l] <==> g in v[l] || (l == at && g == f)
    {
      AppliedMembers(v, e, l);
    }
  }

  lemma ExtendedNumbers(v: Levels, v': Levels, at: nat, f: File)
    requires Extends(v, v', at, f) && NumbersAreUnique(v) && NumbersBelow(v, f.number)
    ensures NumbersAreUnique(v') && NumbersBelow(v', f.number + 1)
  {
    hide AllInOrder;
  }

  lemma FlushSinks(v: Levels, v': Levels, at: nat, f: File)
    requires Extends(v, v', at, f) && AddsOnce(FlushEdit(at, f))
    ensures Sinks(v, FlushEdit(at, f), v', [], f.number, f.number + 1)
  {
    hide AllInOrder, Adds;
    forall l: nat, g: File ensures Adds(FlushEdit(at, f), l, g) <==> l == at && g == f {
      FlushAdds(at, f, l, g);
    }
  }

  // ----- the edit of a compaction, or of a trivial move -----

  lemma CompactionAdds(j: Job, outputs: seq<File>, l: nat, g: File)
    ensures Adds(CompactionEdit(j, outputs), l, g) <==> l == j.level + 1 && g in outputs
  {
    var added := CompactionEdit(j, outputs).added;
    if l == j.level + 1 && g in outputs {
      var i :| 0 <= i < |outputs| && outputs[i] == g;
      assert added[i] == (l, g);
    }
  }

  lemma CompactionDeletes(v: Levels, j: Job, outputs: seq<File>, l: nat, f: File)
    requires NumbersAreUnique(v) && l < |v| && f in v[l] && j.level + 1 < |v|
    requires forall g | g in j.inputs0 :: g in v[j.level]
    requires forall g | g in j.inputs1 :: g in v[j.level + 1]
    ensures (l, f.number) in CompactionEdit(j, outputs).deleted <==> j.Takes(l, f)
  {
    if j.Takes(l, f) && l == j.level {
      var i :| 0 <= i < |j.inputs0| && j.inputs0[i] == f;
    } else if j.Takes(l, f) {
      var i :| 0 <= i < |j.inputs1| && j.inputs1[i] == f;
    }
    if (l, f.number) in CompactionEdit(j, outputs).deleted {
      if i :| 0 <= i < |j.inputs0| && (l, f.number) == (j.level, j.inputs0[i].number) {
        assert j.inputs0[i] in v[j.level];
      } else {
        var i :| 0 <= i < |j.inputs1| && (l, f.number) == (j.level + 1, j.inputs1[i].number);
        var g := j.inputs1[i];
        assert g in j.inputs1 && g in v[j.level + 1];
      }
    }
  }

  // Outputs are new files with numbers from next on, or one input moved as it is.
  ghost predicate OutputNumbers(v: Levels, j: Job, outputs: seq<File>, begun: seq<nat>, next: nat, next': nat)
    requires j.level + 1 < |v|
  {
    && next <= next'
    && (forall i, k | 0 <= i < k < |outputs| :: outputs[i].number != outputs[k].number)
    && forall f | f in outputs :: IsNew(begun, next, next', f.number) || (f in v[j.level] && f in j.inputs0)
  }

  lemma OutputsAddOnce(v: Levels, j: Job, outputs: seq<File>, begun: seq<nat>, next: nat, next': nat)
    requires j.level + 1 < |v| && OutputNumbers(v, j, outputs, begun, next, next')
    ensures AddsOnce(CompactionEdit(j, outputs))
  {
    forall l: nat, f: File, g: File | Adds(CompactionEdit(j, outputs), l, f) && Adds(CompactionEdit(j, outputs), l, g)
      && f.number == g.number
      ensures f == g
    {
      CompactionAdds(j, outputs, l, f);
      CompactionAdds(j, outputs, l, g);
    }
  }

  lemma OutputsAreNew(v: Levels, j: Job, outputs: seq<File>, begun: seq<nat>, next: nat, next': nat, f: File, g: File)
    requires NumbersAreUnique(v) && NumbersBelow(v, next) && Without(v, begun)
    requires j.level + 1 < |v| && OutputNumbers(v, j, outputs, begun, next, next')
    requires f in outputs && g in v[j.level + 1]
    ensures f.number != g.number
  {
  }

  lemma CompactionReplaces(v: Levels, j: Job, outputs: seq<File>, begun: seq<nat>, next: nat, next': nat)
    requires Settled(v, next) && Without(v, begun) && j.level + 1 < NUM_LEVELS && OutputNumbers(v, j, outputs, begun, next, next')
    requires forall g | g in j.inputs0 :: g in v[j.level]
    requires forall g | g in j.inputs1 :: g in v[j.level + 1]
    ensures CompactionEdit(j, outputs).Valid() && AddsOnce(CompactionEdit(j, outputs))
    ensures Replaces(v, Applied(v, CompactionEdit(j, outputs)), j, outputs)
  {
    hide ValidVersion, Adds, InOrder, Applied, NumbersAreUnique, NumbersBelow, OutputNumbers, Job.Takes;
    var e := CompactionEdit(j, outputs);
    OutputsAddOnce(v, j, outputs, begun, next, next');
    forall l: nat | l < NUM_LEVELS
      ensures InOrder(Applied(v, e)[l])
      ensures forall g: File :: g in Applied(v, e)[l] <==> (g in v[l] && !j.Takes(l, g)) || (l == j.level + 1 && g in outputs)
    {
      forall f: File, g: File | Adds(e, l, f) && g in v[l] ensures f.number != g.number {
        CompactionAdds(j, outputs, l, f);
        OutputsAreNew(v, j, outputs, begun, next, next', f, g);
      }
      AppliedMembers(v, e, l);
      forall g: File ensures g in Applied(v, e)[l] <==> (g in v[l] && !j.Takes(l, g)) || (l == j.level + 1 && g in outputs) {
        CompactionAdds(j, outputs, l, g);
        if g in v[l] {
          CompactionDeletes(v, j, outputs, l, g);
        }
      }
    }
  }

  lemma ReplacedBelow(v: Levels, v': Levels, j: Job, outputs: seq<File>, begun: seq<nat>, next: nat, next': nat, l: nat, f: File)
    requires j.level + 1 < |v| && Replaces(v, v', j, outputs)
    requires NumbersBelow(v, next) && OutputNumbers(v, j, outputs, begun, next, next') && l < |v'| && f in v'[l]
    ensures f.number < next'
  {
    hide AllInOrder, Replaces;
    ReplacedLength(v, v', j, outputs);
    ReplacedMember(v, v', j, outputs, l, f);
  }

  lemma ReplacedUniquely(v: Levels, v': Levels, j: Job, outputs: seq<File>, begun: seq<nat>, next: nat, next': nat)
    requires j.level + 1 < |v| && Replaces(v, v', j, outputs)
    requires NumbersAreUnique(v) && NumbersBelow(v, next) && Without(v, begun) && OutputNumbers(v, j, outputs, begun, next, next')
    ensures NumbersAreUnique(v')
  {
    hide AllInOrder, Replaces;
    ReplacedLength(v, v', j, outputs);
    forall l: nat, m: nat, f: File, g: File | l < |v'| && m < |v'| && f in v'[l] && g in v'[m] && f.number == g.number
      ensures l == m && f == g
    {
      ReplacedMember(v, v', j, outputs, l, f);
      ReplacedMember(v, v', j, outputs, m, g);
    }
  }

  lemma ReplacedNumbers(v: Levels, v': Levels, j: Job, outputs: seq<File>, begun: seq<nat>, next: nat, next': nat)
    requires j.level + 1 < |v| && Replaces(v, v', j, outputs)
    requires NumbersAreUnique(v) && NumbersBelow(v, next) && Without(v, begun) && OutputNumbers(v, j, outputs, begun, next, next')
    ensures NumbersAreUnique(v') && NumbersBelow(v', next')
  {
    hide AllInOrder, Replaces, NumbersAreUnique, OutputNumbers;
    ReplacedLength(v, v', j, outputs);
    assert NumbersAreUnique(v') by { ReplacedUniquely(v, v', j, outputs, begun, next, next'); }
    forall l: nat, f: File | l < |v'| && f in v'[l] ensures f.number < next' {
      ReplacedBelow(v, v', j, outputs, begun, next, next', l, f);
    }
  }

  lemma ReplacedLength(v: Levels, v': Levels, j: Job, outputs: seq<File>)
    requires Replaces(v, v', j, outputs)
    ensures |v| == |v'| == NUM_LEVELS && AllInOrder(v')
    ensures forall f | f in outputs && j.level + 1 < NUM_LEVELS :: f in v'[j.level + 1]
  {
  }

  lemma CompactionSinks(v: Levels, v': Levels, j: Job, outputs: seq<File>, begun: seq<nat>, next: nat, next': nat)
    requires j.level + 1 < |v| && Replaces(v, v', j, outputs) && OutputNumbers(v, j, outputs, begun, next, next')
    ensures Sinks(v, CompactionEdit(j, outputs), v', begun, next, next')
  {
    hide AllInOrder, Replaces, Adds;
    ReplacedLength(v, v', j, outputs);
    OutputsAddOnce(v, j, outputs, begun, next, next');
    var e := CompactionEdit(j, outputs);
    forall l: nat, f: File | Adds(e, l, f)
      ensures l < |v'| && f in v'[l] && (IsNew(begun, next, next', f.number) || WasAbove(v, l, f))
    {
      CompactionAdds(j, outputs, l, f);
    }
    forall m: nat, f: File | m < |v'| && f in v'[m] ensures Adds(e, m, f) || (m < |v| && f in v[m]) {
      ReplacedMember(v, v', j, outputs, m, f);
      CompactionAdds(j, outputs, m, f);
    }
  }

  // ----- the numbers of outputs that are begun -----

  lemma NothingBegun(s: State)
    requires Structure(s) && s.running.None?
    ensures s.begun == []
  {
  }

  lemma BegunSame(s: State, s': State)
    requires BegunFit(s) && s'.v == s.v && s'.edits == s.edits && s'.begun == s.begun && s.nextFile <= s'.nextFile
    requires s'.running.None? ==> s.running.None?
    ensures BegunFit(s')
  {
    hide Unseen, Without;
  }

  lemma NoneBegun(s: State)
    requires s.begun == []
    ensures BegunFit(s)
  {
  }

  lemma BegunIsNotSeen(s: State, l: nat, n: nat)
    requires BegunFit(s) && Seen(EmptyVersion(), s.edits, l, n)
    ensures n !in s.begun
  {
    hide Seen, Without;
  }

  lemma NoneSeen(edits: seq<Edit>)
    ensures Unseen(edits, [])
  {
  }

  // A flush takes another number.
  lemma BegunAfterFlush(s: State, at: nat, f: File, s': State)
    requires BegunFit(s) && f.number == s.nextFile && Extends(s.v, s'.v, at, f)
    requires s'.edits == s.edits + [FlushEdit(at, f)] && s'.begun == s.begun && s'.running == s.running
    requires s'.nextFile == s.nextFile + 1
    ensures BegunFit(s')
  {
    hide Seen, Adds, AllInOrder;
    forall l: nat, n: nat | Seen(EmptyVersion(), s'.edits, l, n) ensures n !in s'.begun {
      SeenSnoc(EmptyVersion(), s.edits, FlushEdit(at, f), l, n);
      if Seen(EmptyVersion(), s.edits, l, n) {
        BegunIsNotSeen(s, l, n);
      } else {
        var g: File :| Adds(FlushEdit(at, f), l, g) && g.number == n;
        FlushAdds(at, f, l, g);
      }
    }
  }

  lemma BegunAfterNothing(s: State, s': State)
    requires BegunFit(s) && s'.v == s.v && s'.edits == s.edits + [Edit({}, [])]
    requires s'.begun == s.begun && s'.running == s.running && s.nextFile <= s'.nextFile
    ensures BegunFit(s')
  {
    hide Seen;
    forall l: nat, n: nat | Seen(EmptyVersion(), s'.edits, l, n) ensures n !in s'.begun {
      SeenSnoc(EmptyVersion(), s.edits, Edit({}, []), l, n);
      BegunIsNotSeen(s, l, n);
    }
  }

  lemma OneMoreBegun(s: State, s': State)
    requires BegunFit(s) && Settled(s.v, s.nextFile) && ManifestMatches(s) && s.running.Some?
    requires s' == s.(begun := s.begun + [s.nextFile], nextFile := s.nextFile + 1)
    ensures BegunFit(s')
  {
    hide Seen, ValidVersion, AllInOrder, NumbersAreUnique, Live;
    forall l: nat, n: nat | Seen(EmptyVersion(), s'.edits, l, n) ensures n !in s'.begun {
      BegunIsNotSeen(s, l, n);
    }
  }

  lemma OpenKeeps(s: State, s': State)
    requires Structure(s) && Next(s, OpenOutput, s')
    ensures Structure(s') && All(s') == All(s)
  {
    hide Settled, ManifestMatches, SnapshotsAbove, Fits, BegunFit, ContentsFrom, Sorted, Newer;
    OneMoreBegun(s, s');
    SameTree(s, s');
    SnapshotsStay(s, s');
    assert InMemory(s') == InMemory(s) && Tree(s') == Tree(s) && ImmEntries(s') == ImmEntries(s);
  }

  // ----- flush -----

  lemma EmptyEditKeeps(v: Levels, next: nat)
    requires Settled(v, next)
    ensures Edit({}, []).Valid() && Applied(v, Edit({}, [])) == v
    ensures Sinks(v, Edit({}, []), v, [], next, next + 1)
  {
    hide ValidVersion, InOrder, NumbersBelow, NumbersAreUnique, Applied;
    var e := Edit({}, []);
    forall l: nat | l < NUM_LEVELS ensures Applied(v, e)[l] == v[l] {
      AppliedMembers(v, e, l);
      InOrderIsCanonical(Applied(v, e)[l], v[l]);
    }
  }

  lemma LayeredFlush(s: State, s': State)
    requires Layered(s) && s.imm.Some?
    requires s' == s.(imm := None, nextFile := s'.nextFile, v := s'.v, edits := s'.edits)
    requires Tree(s') == Of(s.imm.value) + Tree(s)
    ensures Layered(s') && All(s') == All(s)
  {
    hide Sorted, ContentsFrom;
    EmptyRuns();
    assert Of([]) == iset{};
    assert ImmEntries(s') == [];
    assert Of(ImmEntries(s')) + Tree(s') == Of(ImmEntries(s)) + Tree(s);
  }

  lemma FlushKeeps(s: State, at: nat, size: nat, s': State)
    requires Structure(s) && FlushNext(s, at, size, s')
    ensures Structure(s') && All(s') == All(s)
  {
    hide ValidVersion, AllInOrder, NumbersBelow, NumbersAreUnique, Layered, Selects, Sinks, FreePlace, Applied, ContentsFrom;
    hide SnapshotsAbove, ManifestMatches, Overlaid, Extends, Unseen, Without, Ascends;
    NoneSeen(s.edits);
    if s.imm.value == [] {
      EmptyEditKeeps(s.v, s.nextFile);
      ManifestStep(s, Edit({}, []), s'.v, [], s'.nextFile);
      ManifestAgain(s, Edit({}, []), s');
      BelowMore(s.v, s.nextFile);
      NothingToFlush(s, s');
      BegunAfterNothing(s, s');
    } else {
      var f: File := Table(s.nextFile, size, s.imm.value);
      FlushExtends(s.v, s.nextFile, at, f);
      ExtendedContents(s.v, s'.v, at, f);
      ImmIsNewer(s);
      ExtendedIsValid(s.v, s'.v, at, f);
      ExtendedOrder(s.v, s'.v, at, f);
      ExtendedNumbers(s.v, s'.v, at, f);
      FlushSinks(s.v, s'.v, at, f);
      if s.running.Some? {
        OverlaidMore(s.inputVersion, s.v, s'.v, at, f);
      }
      ManifestStep(s, FlushEdit(at, f), s'.v, [], s'.nextFile);
      ManifestAgain(s, FlushEdit(at, f), s');
      LayeredFlush(s, s');
      BegunAfterFlush(s, at, f, s');
    }
    SnapshotsStay(s, s');
  }

  lemma ExtendedOrder(v: Levels, v': Levels, at: nat, f: File)
    requires Extends(v, v', at, f)
    ensures |v'| == NUM_LEVELS && AllInOrder(v')
  {
  }

  lemma BelowMore(v: Levels, next: nat)
    requires NumbersBelow(v, next)
    ensures NumbersBelow(v, next + 1)
  {
  }

  lemma NothingToFlush(s: State, s': State)
    requires Layered(s) && s.imm == Some([])
    requires s' == s.(imm := None, nextFile := s'.nextFile, edits := s'.edits)
    ensures Layered(s') && All(s') == All(s)
  {
    hide ContentsFrom;
    assert Tree(s') == Of(s.imm.value) + Tree(s) by {
      assert Of([]) == iset{};
    }
    LayeredFlush(s, s');
  }

  lemma ImmIsNewer(s: State)
    requires Layered(s) && s.imm.Some?
    ensures Newer(Of(s.imm.value), ContentsFrom(s.v, 0))
  {
    hide Newer, ContentsFrom;
  }

  lemma SnapshotsStay(s: State, s': State)
    requires SnapshotsAbove(s) && s'.snapshots == s.snapshots && s'.lastSequence == s.lastSequence && s'.floor == s.floor
    ensures SnapshotsAbove(s')
  {
  }

  lemma ManifestAgain(s: State, e: Edit, s': State)
    requires s'.edits == s.edits + [e]
    requires AllValid(s'.edits) && NumbersAreFresh(EmptyVersion(), s'.edits)
    requires s'.v == Live(EmptyVersion(), s'.edits)
    requires Descends(s'.edits, s'.v, s'.nextFile)
    ensures ManifestMatches(s')
  {
  }

  // ----- compactions and moves -----

  lemma SettingOf(s: State, b: Levels, j: Job)
    requires Layered(s) && Fits(j, b, s.v)
    ensures Setting(InMemory(s) + Since(b, s.v), b, j)
    ensures All(s) == InMemory(s) + Since(b, s.v) + ContentsFrom(b, 0)
  {
    hide ValidVersion, Selects, ContentsFrom, Sorted, Since, Overlaid;
    AllIsUnique(s);
    OverlaidContents(b, s.v);
    SinceIsNewer(b, s.v);
    forall x, y | x in InMemory(s) && y in ContentsFrom(b, 0) && x.key == y.key ensures x.seqno > y.seqno {
      assert y in Tree(s);
    }
    assert InMemory(s) + (Since(b, s.v) + ContentsFrom(b, 0)) == InMemory(s) + Since(b, s.v) + ContentsFrom(b, 0);
  }

  lemma SinceIsNewer(b: Levels, v: Levels)
    requires Overlaid(b, v)
    ensures Newer(Since(b, v), ContentsFrom(b, 0))
  {
    hide FreePlace, ContentsFrom;
    forall x, y | x in Since(b, v) && y in ContentsFrom(b, 0) && x.key == y.key ensures x.seqno > y.seqno {
      var l: nat, f: File :| Flushed(b, v, l, f) && x in f.entries;
      NewerThan(Of(f.entries), ContentsFrom(b, 0), x, y);
    }
  }

  lemma FitsInputs(j: Job, b: Levels, v: Levels)
    requires Fits(j, b, v)
    ensures j.level + 1 < NUM_LEVELS == |b| == |v|
    ensures forall f | f in j.inputs0 :: f in b[j.level] && f in v[j.level]
    ensures forall f | f in j.inputs1 :: f in b[j.level + 1] && f in v[j.level + 1]
  {
    hide ValidVersion, Selects, FreePlace, Newer;
    InputsAreInLevels(b, j);
  }

  // Replacing inputs by outputs with a subset of their entries.
  lemma ReplaceKeeps(s: State, b: Levels, j: Job, outputs: seq<File>, s': State)
    requires Structure(s) && Fits(j, b, s.v)
    requires Outputs(j, outputs) && OutputNumbers(s.v, j, outputs, s.begun, s.nextFile, s'.nextFile)
    requires s' == s.(v := s'.v, running := None, begun := [], nextFile := s'.nextFile,
                    edits := s.edits + [CompactionEdit(j, outputs)])
    requires Logs(s, CompactionEdit(j, outputs), s'.v)
    ensures Structure(s') <==> !Collides(b, s.v, j, outputs)
    ensures All(s') == InMemory(s) + Since(b, s.v) + Rest(b, j) + ContentsOf(outputs)
  {
    hide ValidVersion, AllInOrder, NumbersBelow, NumbersAreUnique, Layered, Sinks, Applied, ContentsFrom, Outputs,
      OutputNumbers;
    hide SnapshotsAbove, ManifestMatches, Setting, Selects, Overlaid, Since, Collides, Unseen, Without, Ascends;
    SettingOf(s, b, j);
    FitsInputs(j, b, s.v);
    CompactionReplaces(s.v, j, outputs, s.begun, s.nextFile, s'.nextFile);
    NewOutputs(s.v, j, outputs, s.begun, s.nextFile, s'.nextFile);
    ReplacedIsValid(InMemory(s) + Since(b, s.v), b, s.v, s'.v, j, outputs);
    ReplacedLength(s.v, s'.v, j, outputs);
    ReplacedNumbers(s.v, s'.v, j, outputs, s.begun, s.nextFile, s'.nextFile);
    CompactionSinks(s.v, s'.v, j, outputs, s.begun, s.nextFile, s'.nextFile);
    ManifestStep(s, CompactionEdit(j, outputs), s'.v, s.begun, s'.nextFile);
    ManifestAgain(s, CompactionEdit(j, outputs), s');
    SnapshotsStay(s, s');
    ReplacedContents(s.v, s'.v, j, outputs);
    OverlaidRest(b, s.v, j);
    TakenOrRest(InMemory(s) + Since(b, s.v), b, j);
    OverlaidContents(b, s.v);
    LayeredReplace(s, s', b, j, outputs);
    NoneBegun(s');
  }

  // New numbers, or an input of the upper level: no output was in its level before.
  lemma NewOutputs(v: Levels, j: Job, outputs: seq<File>, begun: seq<nat>, next: nat, next': nat)
    requires NumbersAreUnique(v) && NumbersBelow(v, next) && Without(v, begun)
    requires j.level + 1 < |v| && OutputNumbers(v, j, outputs, begun, next, next')
    ensures forall f | f in outputs :: f !in v[j.level + 1]
  {
    forall f | f in outputs && f in v[j.level + 1] ensures false {
      OutputsAreNew(v, j, outputs, begun, next, next', f, f);
    }
  }

  lemma LayeredReplace(s: State, s': State, b: Levels, j: Job, outputs: seq<File>)
    requires Layered(s) && s' == s.(v := s'.v, running := None, begun := [], nextFile := s'.nextFile, edits := s'.edits)
    requires Outputs(j, outputs) && Tree(s) == Since(b, s.v) + (Rest(b, j) + Taken(j))
    requires Tree(s') == Since(b, s.v) + Rest(b, j) + ContentsOf(outputs)
    ensures Layered(s')
    ensures All(s') == InMemory(s) + Since(b, s.v) + Rest(b, j) + ContentsOf(outputs)
  {
    hide Sorted, ContentsFrom, SortedLevel, Rest, Taken, Since;
    assert Tree(s') <= Tree(s);
    assert ImmEntries(s') == ImmEntries(s);
    assert InMemory(s') == InMemory(s);
  }

  lemma KeptOutputs(v: Levels, j: Job, outputs: seq<File>, es: seq<Entry>, floor: nat)
    requires IsInput(j, es) && Flatten(outputs) == Kept(v, j.level, es, |es|, floor)
    ensures Outputs(j, outputs) && ContentsOf(outputs) == Of(Kept(v, j.level, es, |es|, floor))
  {
    hide Kept, Dropped, InFiles, SortedLevel, Flatten;
    KeptEntries(v, j.level, es, |es|, floor);
    CutOfSortedRun(outputs);
    FlattenedAreIn(outputs);
    forall e | e in ContentsOf(outputs) ensures e in Taken(j) {
      assert e in Flatten(outputs);
      assert e in Of(es);
    }
    forall e ensures e in ContentsOf(outputs) <==> e in Of(Flatten(outputs)) {
    }
  }

  lemma FinishKeeps(s: State, outputs: seq<File>, s': State)
    requires Structure(s) && FinishNext(s, outputs, s')
    ensures Structure(s') <==> !Colliding(s, FinishCompaction(outputs))
    ensures ReadsRight(s) ==> (ReadsRight(s') <==> !Resurrecting(s))
  {
    hide Layered, Settled, Setting, Fits, Kept, Flatten, Outputs, IsInput, ManifestMatches, SnapshotsAbove, Resurrects,
      Collides, Bridges, Overlaid;
    var j, b := s.running.value, s.inputVersion;
    SettledAndLayered(s);
    SettingOf(s, b, j);
    FinishOutputs(s, outputs, s');
    NewNumbersOnly(s, j, outputs);
    ReplaceKeeps(s, b, j, outputs, s');
    FitsOverlaid(j, b, s.v);
    CollidesIsBridge(Above(s), b, s.v, j, outputs);
    FinishReads(s, outputs, s');
  }

  // What the outputs hold.
  lemma FinishOutputs(s: State, outputs: seq<File>, s': State)
    requires Structure(s) && FinishNext(s, outputs, s')
    ensures var j := s.running.value;
      && IsInput(j, MergeFiles(j.inputs0 + j.inputs1)) && Outputs(j, outputs)
      && Flatten(outputs) == KeptBy(s) && ContentsOf(outputs) == Of(KeptBy(s))
  {
    hide Layered, Settled, Setting, Fits, Kept, Flatten, Outputs, IsInput, ManifestMatches, SnapshotsAbove, Overlaid;
    var j, b := s.running.value, s.inputVersion;
    SettledAndLayered(s);
    SettingOf(s, b, j);
    MergedInputs(Above(s), b, j);
    KeptOutputs(b, j, outputs, MergeFiles(j.inputs0 + j.inputs1), s.floor);
  }

  // A compaction whose inputs leave no gap, as those of a picked file do, keeps the structure in any case.
  lemma GaplessNeverBreaks(s: State, outputs: seq<File>, s': State)
    requires Structure(s) && FinishNext(s, outputs, s')
    requires Gapless(s.running.value.inputs0 + s.running.value.inputs1)
    ensures Structure(s')
  {
    hide Layered, Settled, Setting, Fits, Kept, Flatten, Outputs, ManifestMatches, SnapshotsAbove, Collides, Gapless, Bridges,
      Overlaid, IsInput;
    var j, b := s.running.value, s.inputVersion;
    SettledAndLayered(s);
    SettingOf(s, b, j);
    FinishOutputs(s, outputs, s');
    FitsOverlaid(j, b, s.v);
    GaplessNeverCollides(Above(s), b, s.v, j, outputs);
    CollidesIsBridge(Above(s), b, s.v, j, outputs);
    FinishKeeps(s, outputs, s');
  }

  // However the kept entries are cut, the structure is kept, if and only if they lie all on one side of every
  // table that was flushed into the level of the outputs: which can be checked before the compaction ends.
  lemma ClearHoweverCut(s: State)
    requires Structure(s) && s.running.Some?
    ensures (forall outputs, s' | FinishNext(s, outputs, s') :: Structure(s')) <==> ClearOfFlushes(s)
  {
    hide Structure, FinishNext, Bridges, KeptBy, AllOneSide;
    var j, b := s.running.value, s.inputVersion;
    if ClearOfFlushes(s) {
      forall outputs, s' | FinishNext(s, outputs, s') ensures Structure(s') {
        FinishKeeps(s, outputs, s');
        OneSideIsClear(b, s.v, j, KeptBy(s), outputs);
      }
    } else {
      var outputs := CollidingCut(s);
      var s' := Finished(s, outputs);
      FinishKeeps(s, outputs, s');
    }
  }

  // The end of a compaction, with the outputs numbered as they are.
  lemma Finished(s: State, outputs: seq<File>) returns (s': State)
    requires Structure(s) && s.running.Some? && Flatten(outputs) == KeptBy(s)
    requires forall i | 0 <= i < |outputs| :: outputs[i].number == OutputNumber(s.begun, s.nextFile, i)
    ensures FinishNext(s, outputs, s')
  {
    hide Layered, ValidVersion, Fits, Kept, Flatten, ManifestMatches, SnapshotsAbove, MergeFiles, Applied, AllInOrder;
    var j := s.running.value;
    SettledAndLayered(s);
    FitsInputs(j, s.inputVersion, s.v);
    NewNumbersOnly(s, j, outputs);
    CompactionReplaces(s.v, j, outputs, s.begun, s.nextFile, NextAfter(s.begun, s.nextFile, |outputs|));
    s' := s.(running := None, begun := [], nextFile := NextAfter(s.begun, s.nextFile, |outputs|),
             v := Applied(s.v, CompactionEdit(j, outputs)), edits := s.edits + [CompactionEdit(j, outputs)]);
  }

  // With entries on both sides of a table, one file of all of them collides.
  lemma CollidingCut(s: State) returns (outputs: seq<File>)
    requires Structure(s) && s.running.Some? && !ClearOfFlushes(s)
    ensures Flatten(outputs) == KeptBy(s)
    ensures forall i | 0 <= i < |outputs| :: outputs[i].number == OutputNumber(s.begun, s.nextFile, i)
    ensures Bridges(s.inputVersion, s.v, s.running.value, KeptBy(s), outputs)
  {
    hide Layered, Settled, Setting, Fits, Flatten, ManifestMatches, SnapshotsAbove, Overlaid, KeptBy, OneSide, Flushed, Sorted,
      Bridges, Below, Beyond, Taken;
    var j, b, es := s.running.value, s.inputVersion, KeptBy(s);
    SettledAndLayered(s);
    SettingOf(s, b, j);
    FitsOverlaid(j, b, s.v);
    KeptAreInputs(s);
    var f :| Flushed(b, s.v, j.level + 1, f) && !OneSide(es, f);
    forall e | e in es ensures Below(e, f) || Beyond(e, f) {
      assert e in Of(es);
      EntriesAreBeside(Above(s), b, s.v, j, f, e);
    }
    NonEmptyHere(es, f);
    var g: File := Table(OutputNumber(s.begun, s.nextFile, 0), 0, es);
    OneFlattened(g);
    UncutIsBridge(b, s.v, j, es, f, g);
    outputs := [g];
  }

  lemma KeptAreInputs(s: State)
    requires Structure(s) && s.running.Some?
    ensures Sorted(KeptBy(s)) && Of(KeptBy(s)) <= Taken(s.running.value) && forall e | e in KeptBy(s) :: e.seqno < MAX_SEQUENCE
  {
    hide Layered, Settled, Setting, Fits, Kept, ManifestMatches, SnapshotsAbove, Overlaid, Sorted, MergeFiles, Dropped;
    var j, b := s.running.value, s.inputVersion;
    SettledAndLayered(s);
    SettingOf(s, b, j);
    MergedInputs(Above(s), b, j);
    var es := MergeFiles(j.inputs0 + j.inputs1);
    KeptEntries(b, j.level, es, |es|, s.floor);
    forall e | e in KeptBy(s) ensures e in Taken(j) && e.seqno < MAX_SEQUENCE {
      assert e in Of(es);
      var f :| f in j.inputs0 + j.inputs1 && e in f.entries;
      assert f.Valid();
    }
  }

  lemma FitsOverlaid(j: Job, b: Levels, v: Levels)
    requires Fits(j, b, v)
    ensures Overlaid(b, v)
  {
    hide ValidVersion, Selects, Overlaid;
  }

  lemma NewNumbersOnly(s: State, j: Job, outputs: seq<File>)
    requires Structure(s)
    requires j.level + 1 < |s.v| && forall i | 0 <= i < |outputs| :: outputs[i].number == OutputNumber(s.begun, s.nextFile, i)
    ensures OutputNumbers(s.v, j, outputs, s.begun, s.nextFile, NextAfter(s.begun, s.nextFile, |outputs|))
    ensures Without(s.v, s.begun)
  {
    hide Settled, Layered, SnapshotsAbove, JobFits, ManifestMatches, Unseen, Without;
    forall i, k | 0 <= i < k < |outputs| ensures outputs[i].number != outputs[k].number {
      assert OutputNumber(s.begun, s.nextFile, i) < OutputNumber(s.begun, s.nextFile, k);
    }
    forall f | f in outputs ensures IsNew(s.begun, s.nextFile, NextAfter(s.begun, s.nextFile, |outputs|), f.number) {
      var i :| 0 <= i < |outputs| && outputs[i] == f;
      assert i < |s.begun| ==> OutputNumber(s.begun, s.nextFile, i) in s.begun;
    }
  }

  lemma FinishReads(s: State, outputs: seq<File>, s': State)
    requires s.running.Some? && s'.hist == s.hist && s'.floor == s.floor
    requires var j, b := s.running.value, s.inputVersion;
      var es := MergeFiles(j.inputs0 + j.inputs1);
      && Setting(Above(s), b, j) && IsInput(j, es) && All(s) == Whole(Above(s), b)
      && All(s') == Above(s) + Rest(b, j) + Of(Kept(b, j.level, es, |es|, s.floor))
    ensures ReadsRight(s) ==> (ReadsRight(s') <==> !Resurrecting(s))
  {
    hide Setting, IsInput, Kept, Resurrects, Read, Above;
    var j, b := s.running.value, s.inputVersion;
    var es := MergeFiles(j.inputs0 + j.inputs1);
    assert All(s') == After(Above(s), b, j, es, s.floor);
    if ReadsRight(s) && !Resurrecting(s) {
      forall k, t | s.floor <= t ensures Read(All(s'), k, t) == Lookup(s'.hist, k, t) {
        ReadSurvives(Above(s), b, j, es, s.floor, k, t);
        assert Read(All(s), k, t) == Lookup(s.hist, k, t);
      }
    }
    if ReadsRight(s) && Resurrecting(s) {
      var i: nat, next, t :| Resurrects(Above(s), b, j, s.floor, i, next, t);
      ResurrectionIsSeen(Above(s), b, j, es, s.floor, i, next, t);
      assert Read(All(s), t.key, s.floor) == Lookup(s.hist, t.key, s.floor);
    }
  }

  lemma SettledAndLayered(s: State)
    requires Structure(s)
    ensures Settled(s.v, s.nextFile) && Layered(s) && |s.v| == NUM_LEVELS
  {
  }

  lemma OneFileIsSorted(fs: seq<File>)
    requires |fs| == 1
    ensures SortedLevel(fs)
  {
  }

  lemma MoveKeeps(s: State, j: Job, s': State)
    requires Structure(s) && MoveNext(s, j, s')
    ensures Structure(s') && All(s') == All(s)
  {
    hide Structure, SortedLevel, Selects, Logs, Fits, Collides, ContentsFrom, Since, Rest, Taken, ContentsOf;
    SettledAndLayered(s);
    StartFits(s, j);
    NothingCollides(s.v, j, [], j.inputs0);
    OneFileIsSorted(j.inputs0);
    MovedContents(s, j);
    FitsInputs(j, s.v, s.v);
    NothingBegun(s);
    assert OutputNumbers(s.v, j, j.inputs0, s.begun, s.nextFile, s'.nextFile);
    ReplaceKeeps(s, s.v, j, j.inputs0, s');
  }

  lemma MovedContents(s: State, j: Job)
    requires Layered(s) && Fits(j, s.v, s.v) && j.inputs1 == []
    ensures ContentsOf(j.inputs0) == Taken(j)
    ensures InMemory(s) + Since(s.v, s.v) + Rest(s.v, j) + ContentsOf(j.inputs0) == All(s)
  {
    hide Layered, Setting, Fits, ContentsFrom, Rest;
    FitsInputs(j, s.v, s.v);
    OverlaidItself(s.v);
    SettingOf(s, s.v, j);
    assert InMemory(s) + Since(s.v, s.v) == InMemory(s);
    assert j.inputs0 + j.inputs1 == j.inputs0;
    TakenOrRest(InMemory(s), s.v, j);
  }

  lemma NothingCollides(v: Levels, j: Job, es: seq<Entry>, outputs: seq<File>)
    ensures !Collides(v, v, j, outputs) && !Bridges(v, v, j, es, outputs)
  {
  }

  lemma StartFits(s: State, j: Job)
    requires Structure(s) && CanSelect(s, j)
    ensures Fits(j, s.v, s.v)
  {
    hide Layered, ValidVersion, ManifestMatches, Selects, Overlaid;
    OverlaidItself(s.v);
  }

  // ----- every step, every run -----

  lemma StepKeepsStructure(s: State, a: Action, s': State)
    requires Structure(s) && Next(s, a, s')
    ensures Structure(s') <==> !Colliding(s, a)
    ensures ReadsRight(s) ==> (ReadsRight(s') <==> !(a.FinishCompaction? && Resurrecting(s)))
  {
    hide Layered, Settled, Fits, Selects, ManifestMatches, Resurrecting, FlushNext, FinishNext, MoveNext, Bridges, KeptBy,
      Unseen, Without, Ascends, BegunFit;
    match a
    case Write(ops) =>
      BatchIsLayered(s, ops);
      assert s' == Written(s, ops);
      SameTree(s, s');
      BegunSame(s, s');
    case SwitchMemtable =>
      SwitchKeeps(s, s');
      SameTree(s, s');
      BegunSame(s, s');
      SameReads(s, s');
    case Flush(at, size) =>
      FlushKeeps(s, at, size, s');
      FlushFrame(s, at, size, s');
      SameReads(s, s');
    case Move(j) =>
      MoveKeeps(s, j, s');
      MoveFrame(s, j, s');
      SameReads(s, s');
    case StartCompaction(j) =>
      StartKeeps(s, j);
      StartFits(s, j);
      BegunSame(s, s');
      SameMemory(s, s');
      SameReads(s, s');
    case OpenOutput =>
      OpenKeeps(s, s');
      SameReads(s, s');
    case FinishCompaction(outputs) =>
      FinishKeeps(s, outputs, s');
    case TakeSnapshot =>
      BegunSame(s, s');
      SameMemory(s, s');
      SameReads(s, s');
    case ReleaseSnapshot(i) =>
      ReleaseKeeps(s, i);
      BegunSame(s, s');
      SameMemory(s, s');
      SameReads(s, s');
  }

  lemma SameTree(s: State, s': State)
    requires Settled(s.v, s.nextFile) && ManifestMatches(s)
    requires s'.v == s.v && s'.edits == s.edits && s.nextFile <= s'.nextFile
    ensures Settled(s'.v, s'.nextFile) && ManifestMatches(s')
  {
    hide ValidVersion, AllInOrder, NumbersAreUnique, NumbersAreFresh;
  }

  lemma SameMemory(s: State, s': State)
    requires Layered(s) && ManifestMatches(s)
    requires s' == s.(running := s'.running, inputVersion := s'.inputVersion, floor := s'.floor, snapshots := s'.snapshots)
    ensures Layered(s') && ManifestMatches(s') && All(s') == All(s)
  {
    hide Sorted, NumbersAreFresh;
    assert InMemory(s') == InMemory(s) && Tree(s') == Tree(s) && ImmEntries(s') == ImmEntries(s);
  }

  lemma SameReads(s: State, s': State)
    requires All(s') == All(s) && s'.hist == s.hist && s.floor <= s'.floor
    ensures ReadsRight(s) ==> ReadsRight(s')
  {
    hide Read, All;
  }

  lemma FlushFrame(s: State, at: nat, size: nat, s': State)
    requires FlushNext(s, at, size, s')
    ensures s'.hist == s.hist && s'.floor == s.floor
  {
  }

  lemma MoveFrame(s: State, j: Job, s': State)
    requires MoveNext(s, j, s')
    ensures s' == s.(v := s'.v, edits := s'.edits)
  {
  }

  ghost predicate IsRunOf(states: seq<State>, actions: seq<Action>) {
    && |states| == |actions| + 1
    && states[0] == Initial()
    && forall i | 0 <= i < |actions| :: Next(states[i], actions[i], states[i + 1])
  }

  // No compaction of the run finishes while it would bring an old value back.
  ghost predicate NeverResurrects(states: seq<State>, actions: seq<Action>)
    requires |states| == |actions| + 1
  {
    forall i | 0 <= i < |actions| && actions[i].FinishCompaction? :: !Resurrecting(states[i])
  }

  // Up to a state, no compaction has written an output across a table that was flushed meanwhile.
  ghost predicate NeverCollides(states: seq<State>, actions: seq<Action>, n: nat)
    requires n < |states| == |actions| + 1
  {
    forall i | 0 <= i < n :: !Colliding(states[i], actions[i])
  }

  // In every run every state is well formed until a compaction collides; and reads at or above the floor
  // are answered from the full history, if no compaction brings an old value back.
  lemma {:induction false} RunsAreRight(states: seq<State>, actions: seq<Action>, n: nat)
    requires IsRunOf(states, actions) && n < |states| && NeverCollides(states, actions, n)
    ensures Structure(states[n])
    ensures NeverResurrects(states, actions) ==> ReadsRight(states[n])
  {
    hide Structure, ReadsRight, Next, Resurrecting, Colliding;
    if n == 0 {
      InitialIsRight();
    } else {
      RunsAreRight(states, actions, n - 1);
      StepKeepsStructure(states[n - 1], actions[n - 1], states[n]);
    }
  }

  ghost predicate NoGapRuns(s: State) {
    s.running.Some? ==> Gapless(s.running.value.inputs0 + s.running.value.inputs1)
  }

  // A step that starts no compaction over a gap.
  ghost predicate StartsNoGap(a: Action) {
    a.StartCompaction? ==> Gapless(a.job.inputs0 + a.job.inputs1)
  }

  lemma NoGapStays(s: State, a: Action, s': State)
    requires Next(s, a, s') && NoGapRuns(s) && StartsNoGap(a)
    ensures NoGapRuns(s')
  {
    hide Gapless, Selects, Logs, FreePlace, Kept;
  }

  lemma NoGapKeeps(s: State, a: Action, s': State)
    requires Structure(s) && Next(s, a, s') && NoGapRuns(s)
    ensures Structure(s') && !Colliding(s, a)
  {
    hide Structure, Gapless, FinishNext, Colliding;
    StepKeepsStructure(s, a, s');
    if a.FinishCompaction? {
      FinishRuns(s, a.outputs, s');
      GaplessNeverBreaks(s, a.outputs, s');
    } else {
      OnlyFinishCollides(s, a);
    }
  }

  lemma FinishRuns(s: State, outputs: seq<File>, s': State)
    requires FinishNext(s, outputs, s')
    ensures s.running.Some?
  {
  }

  lemma OnlyFinishCollides(s: State, a: Action)
    requires !a.FinishCompaction?
    ensures !Colliding(s, a)
  {
  }

  // As long as every compaction starts from inputs without a gap, as the compactions of picked files do,
  // nothing ever collides and every state of the run is well formed.
  lemma {:induction false} GaplessRunsAreWellFormed(states: seq<State>, actions: seq<Action>, n: nat)
    requires IsRunOf(states, actions) && n < |states| && forall i | 0 <= i < |actions| :: StartsNoGap(actions[i])
    ensures NeverCollides(states, actions, n) && Structure(states[n]) && NoGapRuns(states[n])
  {
    hide Structure, NoGapRuns, StartsNoGap, Next, Colliding;
    if n == 0 {
      InitialIsRight();
      assert NoGapRuns(Initial()) by { NothingRuns(); }
    } else {
      GaplessRunsAreWellFormed(states, actions, n - 1);
      NoGapStays(states[n - 1], actions[n - 1], states[n]);
      NoGapKeeps(states[n - 1], actions[n - 1], states[n]);
    }
  }

  lemma NothingRuns()
    ensures NoGapRuns(Initial())
  {
  }

  // Restarting: one builder over the manifest of any reachable state finds its version again.
  lemma ManifestRebuildsVersion(s: State)
    requires Structure(s)
    ensures AllValid(s.edits) && Save(EmptyVersion(), Collected(s.edits)) == s.v
    ensures NumbersBelow(s.v, s.nextFile)
  {
    hide ValidVersion, Layered, Selects, InOrder;
    EmptyLevelsAreInOrder();
    ReplayIsLive(EmptyVersion(), s.edits);
  }

  lemma EmptyLevelsAreInOrder()
    ensures AllInOrder(EmptyVersion())
  {
    EmptyIsInOrder();
  }
}
