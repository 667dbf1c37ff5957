/** Choosing the files of a compaction: range overlap, closure at level 0, boundary files, and the
    selection SetupOtherInputs ends with. */
module CompactionInputs {
  import opened Options
  import opened InternalKeys
  import opened Versions

  datatype Range = Range(lo: Option<Key>, hi: Option<Key>) {
    predicate Touches(f: File) {
      Meets(f, lo, hi)
    }

    predicate Encloses(f: File) {
      (lo.Some? ==> lo.value <= f.Smallest().key) && (hi.Some? ==> f.Largest().key <= hi.value)
    }

    ghost predicate Contains(r: Range) {
      && (lo.Some? ==> r.lo.Some? && lo.value <= r.lo.value)
      && (hi.Some? ==> r.hi.Some? && r.hi.value <= hi.value)
    }
  }

  // The files touching a range, in level order.
  function Overlapping(fs: seq<File>, r: Range): seq<File> {
    if fs == [] then []
    else
      var n := |fs| - 1;
      Overlapping(fs[..n], r) + if r.Touches(fs[n]) then [fs[n]] else []
  }

  lemma {:induction false} OverlappingMembers(fs: seq<File>, r: Range)
    ensures forall f :: f in Overlapping(fs, r) <==> f in fs && r.Touches(f)
  {
    if fs != [] {
      var n := |fs| - 1;
      OverlappingMembers(fs[..n], r);
      assert fs == fs[..n] + [fs[n]];
    }
  }

  // No file sticks out of a range it touches.
  ghost predicate Closed(fs: seq<File>, r: Range) {
    forall f | f in fs && r.Touches(f) :: r.Encloses(f)
  }

  // ----- gaps -----

  ghost predicate CoveredBy(fs: seq<File>, k: Key) {
    exists f | f in fs :: f.Covers(k)
  }

  ghost predicate Filled(fs: seq<File>, lo: Key, hi: Key) {
    forall k: Key | lo <= k <= hi :: CoveredBy(fs, k)
  }

  // No user key between the ends of the files lies between the files.
  ghost predicate Gapless(fs: seq<File>) {
    fs != [] ==> Filled(fs, LowKey(fs), HighKey(fs))
  }

  ghost predicate Reaches(f: File, lo: Key, hi: Key) {
    f.Smallest().key <= hi && lo <= f.Largest().key
  }

  lemma FilledMore(fs: seq<File>, more: seq<File>, lo: Key, hi: Key)
    requires Filled(fs, lo, hi) && forall f | f in fs :: f in more
    ensures Filled(more, lo, hi)
  {
    forall k: Key | lo <= k <= hi ensures CoveredBy(more, k) {
      assert CoveredBy(fs, k);
      var f :| f in fs && f.Covers(k);
      assert f in more;
    }
  }

  lemma FilledWider(fs: seq<File>, lo: Key, hi: Key, f: File, lo': Key, hi': Key)
    requires Filled(fs, lo, hi) && f in fs && Reaches(f, lo, hi)
    requires (lo <= lo' || f.Smallest().key <= lo') && (hi' <= hi || hi' <= f.Largest().key)
    ensures Filled(fs, lo', hi')
  {
    forall k: Key | lo' <= k <= hi' ensures CoveredBy(fs, k) {
      if !(lo <= k <= hi) {
        assert f.Covers(k);
      } else {
        assert CoveredBy(fs, k);
      }
    }
  }

  // Files that all reach into a filled range leave no gap.
  lemma AllReachFilled(fs: seq<File>, lo: Key, hi: Key)
    requires Filled(fs, lo, hi) && lo <= hi && forall f | f in fs :: Reaches(f, lo, hi)
    ensures Gapless(fs)
  {
    hide LowKey, HighKey, CoveredBy;
    if fs != [] {
      HullIsTight(fs);
      var first :| first in fs && first.Smallest().key == LowKey(fs);
      var last :| last in fs && last.Largest().key == HighKey(fs);
      FilledWider(fs, lo, hi, first, LowKey(fs), hi);
      EntriesLieInRange(last, last.Largest());
      LastReaches(first, last, lo, hi, LowKey(fs));
      FilledWider(fs, LowKey(fs), hi, last, LowKey(fs), HighKey(fs));
    }
  }

  lemma LastReaches(first: File, last: File, lo: Key, hi: Key, low: Key)
    requires Reaches(first, lo, hi) && Reaches(last, lo, hi)
    requires low == first.Smallest().key <= last.Smallest().key <= last.Largest().key
    ensures Reaches(last, low, hi)
  {
  }

  lemma HullReached(fs: seq<File>, f: File)
    requires fs != [] && f in fs
    ensures LowKey(fs) <= HighKey(fs) && Reaches(f, LowKey(fs), HighKey(fs)) && Hull(fs).Encloses(f)
  {
    hide LowKey, HighKey;
    HullIsTight(fs);
    EntriesLieInRange(f, f.Largest());
  }

  // Files that meet the hull of files without a gap.
  lemma GaplessMore(fs: seq<File>, more: seq<File>)
    requires Gapless(fs) && fs != [] && (forall f | f in fs :: f in more)
    requires forall f | f in more :: f in fs || Reaches(f, LowKey(fs), HighKey(fs))
    ensures Gapless(more)
  {
    hide LowKey, HighKey, Filled, Reaches;
    FilledMore(fs, more, LowKey(fs), HighKey(fs));
    forall f | f in more ensures Reaches(f, LowKey(fs), HighKey(fs)) {
      if f in fs {
        HullReached(fs, f);
      }
    }
    HullReached(fs, fs[0]);
    AllReachFilled(more, LowKey(fs), HighKey(fs));
  }

  // A file that goes on with the last key of another leaves no gap.
  lemma GaplessSnoc(fs: seq<File>, g: File, f: File)
    requires Gapless(fs) && g in fs && f.Smallest().key == g.Largest().key
    ensures Gapless(fs + [f])
  {
    hide LowKey, HighKey, Filled, Gapless;
    HullReached(fs, g);
    EntriesLieInRange(f, f.Largest());
    EntriesLieInRange(g, g.Largest());
    GaplessMore(fs, fs + [f]);
  }

  // What fills the asked range fills the reach, together with the files.
  ghost predicate StaysFilled(files: seq<File>, asked: Range, reach: Range) {
    asked.lo.Some? && asked.hi.Some? && reach.lo.Some? && reach.hi.Some? ==>
      forall base: seq<File> | Filled(base, asked.lo.value, asked.hi.value) :: Filled(base + files, reach.lo.value, reach.hi.value)
  }

  lemma AskedStaysFilled(files: seq<File>, asked: Range)
    ensures StaysFilled(files, asked, asked)
  {
    hide Filled;
    if asked.lo.Some? && asked.hi.Some? {
      forall base: seq<File> | Filled(base, asked.lo.value, asked.hi.value)
        ensures Filled(base + files, asked.lo.value, asked.hi.value)
      {
        FilledMore(base, base + files, asked.lo.value, asked.hi.value);
      }
    }
  }

  lemma WiderStaysFilled(files: seq<File>, asked: Range, range: Range, f: File, wider: Range)
    requires StaysFilled(files, asked, range) && f in files && range.Touches(f)
    requires || (range.lo.Some? && f.Smallest().key < range.lo.value && wider == range.(lo := Some(f.Smallest().key)))
             || (range.hi.Some? && f.Largest().key > range.hi.value && wider == range.(hi := Some(f.Largest().key)))
    ensures StaysFilled(files, asked, wider)
  {
    hide Filled;
    if asked.lo.Some? && asked.hi.Some? && wider.lo.Some? && wider.hi.Some? {
      forall base: seq<File> | Filled(base, asked.lo.value, asked.hi.value)
        ensures Filled(base + files, wider.lo.value, wider.hi.value)
      {
        assert Filled(base + files, range.lo.value, range.hi.value);
        FilledWider(base + files, range.lo.value, range.hi.value, f, wider.lo.value, wider.hi.value);
      }
    }
  }

  // In the end, the files that fill the reach are among those found.
  lemma FoundFill(files: seq<File>, asked: Range, reach: Range, base: seq<File>)
    requires StaysFilled(files, asked, reach) && asked.lo.Some? && asked.hi.Some? && reach.lo.Some? && reach.hi.Some?
    requires Filled(base, asked.lo.value, asked.hi.value)
    ensures Filled(base + Overlapping(files, reach), reach.lo.value, reach.hi.value)
  {
    OverlappingMembers(files, reach);
    var found := Overlapping(files, reach);
    assert Filled(base + files, reach.lo.value, reach.hi.value);
    forall k: Key | reach.lo.value <= k <= reach.hi.value ensures CoveredBy(base + found, k) {
      assert CoveredBy(base + files, k);
      var f :| f in base + files && f.Covers(k);
      assert f in base || f in found;
      assert f in base + found;
    }
  }

  // ----- GetOverlappingInputs -----

  // How many file ends lie beyond the range; falls whenever the range grows to a file's end.
  function EndsOutside(fs: seq<File>, r: Range): nat {
    if fs == [] then 0
    else
      EndsOutside(fs[1..], r)
      + (if r.lo.Some? && fs[0].Smallest().key < r.lo.value then 1 else 0)
      + (if r.hi.Some? && fs[0].Largest().key > r.hi.value then 1 else 0)
  }

  lemma {:induction false} GrowingLeavesFewerOutside(fs: seq<File>, r: Range, wider: Range)
    requires wider.Contains(r) && wider.lo.Some? == r.lo.Some? && wider.hi.Some? == r.hi.Some?
    ensures EndsOutside(fs, wider) <= EndsOutside(fs, r)
    ensures (exists f | f in fs :: wider.Encloses(f) && !r.Encloses(f)) ==> EndsOutside(fs, wider) < EndsOutside(fs, r)
  {
    if fs != [] {
      GrowingLeavesFewerOutside(fs[1..], r, wider);
      assert fs == [fs[0]] + fs[1..];
    }
  }

  lemma {:induction false} OneEndAbsorbed(fs: seq<File>, f: File, r: Range, wider: Range)
    requires f in fs
    requires || (r.lo.Some? && f.Smallest().key < r.lo.value && wider == r.(lo := Some(f.Smallest().key)))
             || (r.hi.Some? && f.Largest().key > r.hi.value && wider == r.(hi := Some(f.Largest().key)))
    ensures EndsOutside(fs, wider) < EndsOutside(fs, r)
  {
    GrowingLeavesFewerOutside(fs[1..], r, wider);
    if f != fs[0] {
      OneEndAbsorbed(fs[1..], f, r, wider);
    }
  }

  // Every closed range around the asked one contains it.
  ghost predicate NoWiderThanNeeded(files: seq<File>, asked: Range, range: Range) {
    forall r: Range | r.Contains(asked) && Closed(files, r) :: r.Contains(range)
  }

  // The range that the search of a level ends with: as asked, and in level 0 the least closed one around it.
  ghost predicate IsReach(files: seq<File>, level: nat, asked: Range, reach: Range) {
    if level == 0 then reach.Contains(asked) && Closed(files, reach) && NoWiderThanNeeded(files, asked, reach)
    else reach == asked
  }

  lemma OneReach(files: seq<File>, level: nat, asked: Range, one: Range, two: Range)
    requires IsReach(files, level, asked, one) && IsReach(files, level, asked, two)
    ensures one == two
  {
    if level == 0 {
      assert one.Contains(two) && two.Contains(one);
    }
  }

  // The range with both ends of a file in it that it touches.
  lemma StillNeeded(files: seq<File>, asked: Range, range: Range, f: File, wider: Range)
    requires NoWiderThanNeeded(files, asked, range) && f in files && range.Touches(f)
    requires range.Contains(asked)
    requires || (range.lo.Some? && f.Smallest().key < range.lo.value && wider == range.(lo := Some(f.Smallest().key)))
             || (range.hi.Some? && f.Largest().key > range.hi.value && wider == range.(hi := Some(f.Largest().key)))
    ensures NoWiderThanNeeded(files, asked, wider) && wider.Contains(asked)
  {
    forall r: Range | r.Contains(asked) && Closed(files, r) ensures r.Contains(wider) {
      assert r.Contains(range);
      assert r.Touches(f);
    }
  }

  lemma OverlappingStep(files: seq<File>, i: nat, r: Range)
    requires i < |files|
    ensures Overlapping(files[..i + 1], r) == Overlapping(files[..i], r) + if r.Touches(files[i]) then [files[i]] else []
  {
    assert files[..i + 1][..i] == files[..i];
  }

  lemma OverlappingIsClosed(files: seq<File>, r: Range)
    requires forall f | f in Overlapping(files, r) :: r.Encloses(f)
    ensures Closed(files, r)
  {
    OverlappingMembers(files, r);
  }

  // `reach` is the range the search ends with: the least closed range containing [begin, end].
  method GetOverlappingInputs(files: seq<File>, level: nat, begin: Option<Key>, end: Option<Key>)
    returns (inputs: seq<File>, reach: Range)
    ensures inputs == Overlapping(files, reach)
    ensures reach.Contains(Range(begin, end)) && reach.lo.Some? == begin.Some? && reach.hi.Some? == end.Some?
    ensures level > 0 ==> reach == Range(begin, end)
    ensures level == 0 ==> Closed(files, reach)
    ensures IsReach(files, level, Range(begin, end), reach)
    ensures StaysFilled(files, Range(begin, end), reach)
  {
    hide EndsOutside, Sorted, NoWiderThanNeeded, Overlapping, StaysFilled;
    inputs := [];
    var range := Range(begin, end);
    ghost var asked := range;
    AskedStaysFilled(files, asked);
    assert NoWiderThanNeeded(files, asked, range) by { AskedIsNeeded(files, asked); }
    NothingOverlaps(files, range);
    var i := 0;
    while i < |files|
      invariant 0 <= i <= |files|
      invariant inputs == Overlapping(files[..i], range)
      invariant range.Contains(asked)
      invariant range.lo.Some? == begin.Some? && range.hi.Some? == end.Some?
      invariant level > 0 ==> range == asked
      invariant level == 0 ==> forall f | f in inputs :: range.Encloses(f)
      invariant NoWiderThanNeeded(files, asked, range) && StaysFilled(files, asked, range)
      decreases EndsOutside(files, range), |files| - i
    {
      var f := files[i];
      OverlappingStep(files, i, range);
      i := i + 1;
      if range.lo.Some? && f.Largest().key < range.lo.value {
      } else if range.hi.Some? && f.Smallest().key > range.hi.value {
      } else {
        inputs := inputs + [f];
        if level == 0 {
          EntriesLieInRange(f, f.Largest());
          if range.lo.Some? && f.Smallest().key < range.lo.value {
            ghost var was := range;
            range := range.(lo := Some(f.Smallest().key));
            OneEndAbsorbed(files, f, was, range);
            StillNeeded(files, asked, was, f, range);
            WiderStaysFilled(files, asked, was, f, range);
            inputs := [];
            i := 0;
            NothingOverlaps(files, range);
          } else if range.hi.Some? && f.Largest().key > range.hi.value {
            ghost var was := range;
            range := range.(hi := Some(f.Largest().key));
            OneEndAbsorbed(files, f, was, range);
            StillNeeded(files, asked, was, f, range);
            WiderStaysFilled(files, asked, was, f, range);
            inputs := [];
            i := 0;
            NothingOverlaps(files, range);
          }
        }
      }
    }
    reach := range;
    assert files[..i] == files;
    if level == 0 {
      OverlappingIsClosed(files, reach);
    }
    ReachFound(files, level, asked, reach);
  }

  lemma AskedIsNeeded(files: seq<File>, asked: Range)
    ensures NoWiderThanNeeded(files, asked, asked)
  {
  }

  lemma NothingOverlaps(files: seq<File>, r: Range)
    ensures Overlapping(files[..0], r) == []
  {
  }

  lemma ReachFound(files: seq<File>, level: nat, asked: Range, reach: Range)
    requires NoWiderThanNeeded(files, asked, reach) && reach.Contains(asked)
    requires if level == 0 then Closed(files, reach) else reach == asked
    ensures IsReach(files, level, asked, reach)
  {
    hide NoWiderThanNeeded, Closed, Range.Contains;
  }

  // ----- AddBoundaryInputs -----

  // FindLargestKey; None stands for "files is empty"
  method FindLargestKey(files: seq<File>) returns (largest: Option<Entry>)
    ensures largest.None? <==> files == []
    ensures largest.Some? ==>
      && (exists f | f in files :: f.Largest() == largest.value)
      && forall f | f in files :: !Before(largest.value, f.Largest())
  {
    if files == [] {
      return None;
    }
    var key := files[0].Largest();
    for i := 1 to |files|
      invariant exists f | f in files :: f.Largest() == key
      invariant forall j | 0 <= j < i :: !Before(key, files[j].Largest())
    {
      if Before(key, files[i].Largest()) {
        key := files[i].Largest();
      }
    }
    return Some(key);
  }

  // f carries on the user key that `largest` ends with
  predicate IsBoundary(f: File, largest: Entry) {
    Before(largest, f.Smallest()) && f.Smallest().key == largest.key
  }

  // Of the files that carry on `largest`, the one that starts first.
  method FindSmallestBoundaryFile(level: seq<File>, largest: Entry) returns (found: Option<File>)
    ensures found.None? ==> forall f | f in level :: !IsBoundary(f, largest)
    ensures found.Some? ==>
      && found.value in level
      && IsBoundary(found.value, largest)
      && forall f | f in level && IsBoundary(f, largest) :: !Before(f.Smallest(), found.value.Smallest())
  {
    found := None;
    for i := 0 to |level|
      invariant found.None? ==> forall f | f in level[..i] :: !IsBoundary(f, largest)
      invariant found.Some? ==>
        && found.value in level
        && IsBoundary(found.value, largest)
        && forall f | f in level[..i] && IsBoundary(f, largest) :: !Before(f.Smallest(), found.value.Smallest())
    {
      var f := level[i];
      if IsBoundary(f, largest) {
        if found.None? || Before(f.Smallest(), found.value.Smallest()) {
          found := Some(f);
        }
      }
      assert level[..i + 1] == level[..i] + [f];
    }
    assert level[..|level|] == level;
  }

  // How many files start after `e`.
  function StartsAfter(fs: seq<File>, e: Entry): nat {
    if fs == [] then 0 else StartsAfter(fs[1..], e) + if Before(e, fs[0].Smallest()) then 1 else 0
  }

  lemma {:induction false} LaterStartsFewer(fs: seq<File>, e: Entry, later: Entry)
    requires Before(e, later)
    ensures StartsAfter(fs, later) <= StartsAfter(fs, e)
    ensures (exists f | f in fs :: Before(e, f.Smallest()) && !Before(later, f.Smallest()))
            ==> StartsAfter(fs, later) < StartsAfter(fs, e)
  {
    if fs != [] {
      LaterStartsFewer(fs[1..], e, later);
      assert fs == [fs[0]] + fs[1..];
    }
  }

  // The chosen files are a stretch level[a..b] of a sorted level.
  ghost predicate IsRun(level: seq<File>, files: seq<File>, a: nat, b: nat) {
    a < b <= |level| && files == level[a..b]
  }

  ghost predicate IsSomeRun(level: seq<File>, files: seq<File>) {
    exists a: nat, b: nat :: IsRun(level, files, a, b)
  }

  lemma BoundaryFileIsNext(level: seq<File>, files: seq<File>, a: nat, b: nat, f: File)
    requires SortedLevel(level) && IsRun(level, files, a, b)
    requires f in level && IsBoundary(f, level[b - 1].Largest())
    requires forall g | g in level && IsBoundary(g, level[b - 1].Largest()) :: !Before(g.Smallest(), f.Smallest())
    ensures b < |level| && f == level[b] && IsRun(level, files + [f], a, b + 1)
  {
    hide IsBoundary, Before, SortedLevel;
    var j: nat :| j < |level| && level[j] == f;
    BoundaryFileIsBehind(level, b - 1, j);
    FirstBoundaryFile(level, b, j);
    assert level[b] in level;
  }

  lemma BoundaryFileIsBehind(level: seq<File>, last: nat, j: nat)
    requires SortedLevel(level) && last < |level| && j < |level| && IsBoundary(level[j], level[last].Largest())
    ensures j > last
  {
    EntriesLieInRange(level[j], level[j].Largest());
    EntriesLieInRange(level[last], level[last].Largest());
    FilesInOrder(level, j, last);
  }

  lemma FilesInOrder(level: seq<File>, i: nat, j: nat)
    requires SortedLevel(level) && i < |level| && j < |level|
    ensures i < j ==> Before(level[i].Largest(), level[j].Smallest())
  {
  }

  // A file between would carry on the key as well.
  lemma FirstBoundaryFile(level: seq<File>, b: nat, j: nat)
    requires SortedLevel(level) && 0 < b <= j < |level| && IsBoundary(level[j], level[b - 1].Largest())
    ensures IsBoundary(level[b], level[b - 1].Largest()) && (b < j ==> Before(level[b].Smallest(), level[j].Smallest()))
  {
    EntriesLieInRange(level[b], level[b].Largest());
    assert Before(level[b - 1].Largest(), level[b].Smallest());
    assert b < j ==> Before(level[b].Largest(), level[j].Smallest());
  }

  lemma LargestKeysAscend(level: seq<File>, i: nat, j: nat)
    requires SortedLevel(level) && i < |level| && j < |level|
    ensures i < j ==> Before(level[i].Largest(), level[j].Largest())
  {
    if i < j {
      EntriesLieInRange(level[j], level[j].Largest());
      assert Before(level[i].Largest(), level[j].Smallest());
    }
  }

  lemma LastOfRunIsLargest(level: seq<File>, files: seq<File>, a: nat, b: nat, e: Entry)
    requires SortedLevel(level) && IsRun(level, files, a, b)
    requires exists f | f in files :: f.Largest() == e
    requires forall f | f in files :: !Before(e, f.Largest())
    ensures e == level[b - 1].Largest()
  {
    var f :| f in files && f.Largest() == e;
    var j :| a <= j < b && level[j] == f;
    LargestKeysAscend(level, j, b - 1);
    assert files[b - 1 - a] in files;
  }

  lemma BoundaryKeepsRun(level: seq<File>, files: seq<File>, e: Entry, f: File)
    requires SortedLevel(level) && IsSomeRun(level, files)
    requires exists g | g in files :: g.Largest() == e
    requires forall g | g in files :: !Before(e, g.Largest())
    requires f in level && IsBoundary(f, e)
    requires forall g | g in level && IsBoundary(g, e) :: !Before(g.Smallest(), f.Smallest())
    ensures IsSomeRun(level, files + [f])
  {
    var a: nat, b: nat :| IsRun(level, files, a, b);
    LastOfRunIsLargest(level, files, a, b, e);
    BoundaryFileIsNext(level, files, a, b, f);
  }

  // The largest key of the files.
  ghost predicate EndsAt(files: seq<File>, e: Entry) {
    (exists f | f in files :: f.Largest() == e) && forall f | f in files :: !Before(e, f.Largest())
  }

  ghost predicate IsFirstBoundary(level: seq<File>, e: Entry, f: File) {
    f in level && IsBoundary(f, e) && forall g | g in level && IsBoundary(g, e) :: !Before(g.Smallest(), f.Smallest())
  }

  ghost predicate CarriesOn(level: seq<File>, files: seq<File>, f: File) {
    exists e :: EndsAt(files, e) && IsFirstBoundary(level, e, f)
  }

  // The files and then, one by one, those that carry on the largest key so far, until none does.
  ghost predicate Completes(level: seq<File>, files: seq<File>, whole: seq<File>) {
    && files <= whole
    && (forall i: nat | |files| <= i < |whole| :: CarriesOn(level, whole[..i], whole[i]))
    && forall f | f in level :: !CarriesOn(level, whole, f)
  }

  ghost predicate Carried(level: seq<File>, files: seq<File>, part: seq<File>) {
    files <= part && forall i: nat | |files| <= i < |part| :: CarriesOn(level, part[..i], part[i])
  }

  lemma CarriedFurther(level: seq<File>, files: seq<File>, part: seq<File>, e: Entry, f: File)
    requires Carried(level, files, part) && EndsAt(part, e) && IsFirstBoundary(level, e, f)
    ensures Carried(level, files, part + [f]) && EndsAt(part + [f], f.Largest())
  {
    hide CarriesOn, EndsAt, IsBoundary;
    EndsLater(level, part, e, f);
    CarriesHere(level, part, e, f);
    var more := part + [f];
    forall i: nat | |files| <= i < |more| ensures CarriesOn(level, more[..i], more[i]) {
      if i < |part| {
        assert more[..i] == part[..i];
      } else {
        assert more[..i] == part;
      }
    }
  }

  lemma CarriesHere(level: seq<File>, files: seq<File>, e: Entry, f: File)
    requires EndsAt(files, e) && IsFirstBoundary(level, e, f)
    ensures CarriesOn(level, files, f)
  {
  }

  lemma EndsLater(level: seq<File>, part: seq<File>, e: Entry, f: File)
    requires EndsAt(part, e) && IsFirstBoundary(level, e, f)
    ensures EndsAt(part + [f], f.Largest())
  {
    hide IsBoundary, Before;
    BoundaryEndsLater(e, f);
    var more := part + [f];
    assert more[|part|] == f;
    forall g | g in more ensures !Before(f.Largest(), g.Largest()) {
      if g in part {
        NotPast(e, f.Largest(), g.Largest());
      } else {
        NotPast(e, f.Largest(), f.Largest());
      }
    }
  }

  lemma NotPast(e: Entry, later: Entry, other: Entry)
    requires Before(e, later) && (!Before(e, other) || other == later)
    ensures !Before(later, other)
  {
  }

  lemma BoundaryEndsLater(e: Entry, f: File)
    requires IsBoundary(f, e)
    ensures Before(e, f.Largest())
  {
    EntriesLieInRange(f, f.Largest());
  }

  lemma OneEnd(files: seq<File>, e: Entry, other: Entry)
    requires EndsAt(files, e) && EndsAt(files, other)
    ensures !Before(e, other) && !Before(other, e)
  {
  }

  lemma NothingCarriesOn(level: seq<File>, files: seq<File>, whole: seq<File>, e: Entry)
    requires Carried(level, files, whole) && EndsAt(whole, e) && forall f | f in level :: !IsBoundary(f, e)
    ensures Completes(level, files, whole)
  {
    hide IsBoundary;
    forall f | f in level ensures !CarriesOn(level, whole, f) {
      if CarriesOn(level, whole, f) {
        var other :| EndsAt(whole, other) && IsFirstBoundary(level, other, f);
        OneEnd(whole, e, other);
        SameBoundary(f, e, other);
      }
    }
  }

  lemma SameBoundary(f: File, e: Entry, other: Entry)
    requires !Before(e, other) && !Before(other, e)
    ensures IsBoundary(f, e) <==> IsBoundary(f, other)
  {
  }

  // In a level where no two files start at the same entry there is just one way to complete a selection.
  lemma CompletionIsUnique(level: seq<File>, files: seq<File>, one: seq<File>, two: seq<File>, i: nat)
    requires Completes(level, files, one) && Completes(level, files, two) && |files| <= i <= |one|
    requires StartsDiffer(level)
    ensures i <= |two| && one[..i] == two[..i]
    decreases i
  {
    hide CarriesOn;
    if i == |files| {
      assert one[..i] == files == two[..i];
    } else {
      CompletionIsUnique(level, files, one, two, i - 1);
      assert CarriesOn(level, one[..i - 1], one[i - 1]);
      CarriesInLevel(level, one[..i - 1], one[i - 1]);
      MoreToCome(level, files, two, one[..i - 1], one[i - 1]);
      assert CarriesOn(level, two[..i - 1], two[i - 1]);
      OneCarriesOn(level, one[..i - 1], one[i - 1], two[i - 1]);
      assert one[..i] == one[..i - 1] + [one[i - 1]] && two[..i] == two[..i - 1] + [two[i - 1]];
    }
  }

  lemma MoreToCome(level: seq<File>, files: seq<File>, whole: seq<File>, front: seq<File>, f: File)
    requires Completes(level, files, whole) && front <= whole && f in level && CarriesOn(level, front, f)
    ensures |front| < |whole|
  {
    hide CarriesOn;
    assert front != whole;
  }

  lemma CarriesInLevel(level: seq<File>, files: seq<File>, f: File)
    requires CarriesOn(level, files, f)
    ensures f in level
  {
  }

  lemma OneCarriesOn(level: seq<File>, files: seq<File>, f: File, g: File)
    requires CarriesOn(level, files, f) && CarriesOn(level, files, g)
    ensures !Before(f.Smallest(), g.Smallest()) && !Before(g.Smallest(), f.Smallest()) && f in level && g in level
  {
    hide IsBoundary, Before, EndsAt;
    var e :| EndsAt(files, e) && IsFirstBoundary(level, e, f);
    var other :| EndsAt(files, other) && IsFirstBoundary(level, other, g);
    OneEnd(files, e, other);
    SameBoundary(f, e, other);
    SameBoundary(g, e, other);
  }

  // Ends with no file of the level carrying on the last user key of the selection.  `beside` are other files,
  // to say that no gap opens between them and the selection.
  method AddBoundaryInputs(level: seq<File>, files: seq<File>, ghost beside: seq<File>)
    returns (extended: seq<File>, ghost last: Entry)
    ensures files == [] ==> extended == []
    ensures files != [] ==>
      && (exists f | f in extended :: f.Largest() == last)
      && (forall f | f in extended :: !Before(last, f.Largest()))
      && (forall f | f in level :: !IsBoundary(f, last))
    ensures files <= extended && forall f | f in extended :: f in files || f in level
    ensures SortedLevel(level) && IsSomeRun(level, files) ==> IsSomeRun(level, extended)
    ensures (forall f, g | f in files && g in level && IsBoundary(g, f.Largest()) :: g in files) ==> extended == files
    ensures Gapless(beside + files) ==> Gapless(beside + extended)
    ensures Completes(level, files, extended)
  {
    hide SortedLevel, IsSomeRun, StartsAfter, Sorted, Gapless, CarriesOn, Completes, Carried;
    extended := files;
    var largest := FindLargestKey(files);
    if largest.None? {
      last := Entry(0.0, 0, Deletion);
      NothingCompletes(level);
      return;
    }
    var key := largest.value;
    var searching := true;
    NotCarriedYet(level, files);
    while searching
      invariant Carried(level, files, extended) && EndsAt(extended, key)
      invariant files <= extended && forall f | f in extended :: f in files || f in level
      invariant exists f | f in extended :: f.Largest() == key
      invariant forall f | f in extended :: !Before(key, f.Largest())
      invariant !searching ==> forall f | f in level :: !IsBoundary(f, key)
      invariant SortedLevel(level) && IsSomeRun(level, files) ==> IsSomeRun(level, extended)
      invariant (forall f, g | f in files && g in level && IsBoundary(g, f.Largest()) :: g in files) ==> extended == files
      invariant Gapless(beside + files) ==> Gapless(beside + extended)
      decreases StartsAfter(level, key), searching
    {
      var boundary := FindSmallestBoundaryFile(level, key);
      if boundary.Some? {
        var f := boundary.value;
        EntriesLieInRange(f, f.Largest());
        LaterStartsFewer(level, key, f.Largest());
        if SortedLevel(level) && IsSomeRun(level, extended) {
          BoundaryKeepsRun(level, extended, key, f);
        }
        if extended == files && f in files {
          assert Before(key, f.Largest());
        }
        assert (extended + [f])[|extended|] == f;
        if Gapless(beside + extended) {
          BoundaryLeavesNoGap(beside, extended, key, f);
        }
        CarriedFurther(level, files, extended, key, f);
        extended := extended + [f];
        key := f.Largest();
      } else {
        searching := false;
      }
    }
    last := key;
    NothingCarriesOn(level, files, extended, key);
  }

  lemma NothingCompletes(level: seq<File>)
    ensures Completes(level, [], [])
  {
  }

  lemma NotCarriedYet(level: seq<File>, files: seq<File>)
    ensures Carried(level, files, files)
  {
  }

  lemma BoundaryLeavesNoGap(beside: seq<File>, files: seq<File>, largest: Entry, f: File)
    requires Gapless(beside + files) && (exists g | g in files :: g.Largest() == largest) && IsBoundary(f, largest)
    ensures Gapless(beside + (files + [f]))
  {
    hide Gapless;
    var g :| g in files && g.Largest() == largest;
    GaplessSnoc(beside + files, g, f);
    assert (beside + files) + [f] == beside + (files + [f]);
  }

  // ----- SetupOtherInputs -----

  function LowKey(fs: seq<File>): (k: Key)
    requires fs != []
  {
    var n := |fs| - 1;
    if n == 0 then fs[0].Smallest().key
    else
      var k := LowKey(fs[..n]);
      if fs[n].Smallest().key < k then fs[n].Smallest().key else k
  }

  function HighKey(fs: seq<File>): (k: Key)
    requires fs != []
  {
    var n := |fs| - 1;
    if n == 0 then fs[0].Largest().key
    else
      var k := HighKey(fs[..n]);
      if fs[n].Largest().key > k then fs[n].Largest().key else k
  }

  // The user keys a set of files spans.
  function Hull(fs: seq<File>): Range
    requires fs != []
  {
    Range(Some(LowKey(fs)), Some(HighKey(fs)))
  }

  lemma {:induction false} HullIsTight(fs: seq<File>)
    requires fs != []
    ensures forall f | f in fs :: Hull(fs).Encloses(f)
    ensures exists f | f in fs :: f.Smallest().key == LowKey(fs)
    ensures exists f | f in fs :: f.Largest().key == HighKey(fs)
  {
    var n := |fs| - 1;
    assert fs == fs[..n] + [fs[n]];
    if n > 0 {
      HullIsTight(fs[..n]);
    }
  }

  // GetRange; only the user keys of its two internal keys are ever used to select files.
  method GetRange(inputs: seq<File>) returns (smallest: Entry, largest: Entry)
    requires inputs != []
    ensures Range(Some(smallest.key), Some(largest.key)) == Hull(inputs)
  {
    smallest, largest := inputs[0].Smallest(), inputs[0].Largest();
    for i := 1 to |inputs|
      invariant smallest.key == LowKey(inputs[..i]) && largest.key == HighKey(inputs[..i])
    {
      assert inputs[..i + 1][..i] == inputs[..i];
      if Before(inputs[i].Smallest(), smallest) {
        smallest := inputs[i].Smallest();
      }
      if Before(largest, inputs[i].Largest()) {
        largest := inputs[i].Largest();
      }
    }
    assert inputs[..|inputs|] == inputs;
  }

  function TotalFileSize(fs: seq<File>): nat {
    if fs == [] then 0 else fs[0].size + TotalFileSize(fs[1..])
  }

  lemma NoFilesNoSize()
    ensures TotalFileSize([]) == 0
  {
  }

  lemma {:induction false} TotalOfOneMore(fs: seq<File>, i: nat)
    requires i < |fs|
    ensures TotalFileSize(fs[..i + 1]) == TotalFileSize(fs[..i]) + fs[i].size
  {
    if i > 0 {
      assert fs[..i + 1][1..] == fs[1..][..i] && fs[..i][1..] == fs[1..][..i - 1];
      TotalOfOneMore(fs[1..], i - 1);
    }
  }

  lemma SizeSnoc(fs: seq<File>, f: File)
    ensures TotalFileSize(fs + [f]) == TotalFileSize(fs) + f.size
  {
    TotalOfOneMore(fs + [f], |fs|);
    assert (fs + [f])[..|fs|] == fs && (fs + [f])[..|fs| + 1] == fs + [f];
  }

  ghost predicate Distinct(fs: seq<File>) {
    forall i, j | 0 <= i < j < |fs| :: fs[i] != fs[j]
  }

  lemma {:induction false} OverlappingIsDistinct(fs: seq<File>, r: Range)
    requires Distinct(fs)
    ensures Distinct(Overlapping(fs, r))
  {
    if fs != [] {
      var n := |fs| - 1;
      OverlappingIsDistinct(fs[..n], r);
      OverlappingMembers(fs[..n], r);
      assert forall f | f in fs[..n] :: f != fs[n];
    }
  }

  lemma SortedIsDistinct(fs: seq<File>)
    requires SortedLevel(fs)
    ensures Distinct(fs)
  {
    forall i, j | 0 <= i < j < |fs| ensures fs[i] != fs[j] {
      EntriesLieInRange(fs[i], fs[i].Largest());
      assert Before(fs[i].Largest(), fs[j].Smallest());
    }
  }

  lemma SeedIsDistinct(level: nat, fs: seq<File>, chosen: seq<File>)
    requires IsSeed(level, fs, chosen)
    requires if level == 0 then NumberedByAge(fs) else SortedLevel(fs)
    ensures Distinct(chosen)
  {
    if level == 0 {
      var r :| Closed(fs, r) && chosen == Overlapping(fs, r);
      OverlappingIsDistinct(fs, r);
    } else {
      SortedIsDistinct(fs);
    }
  }

  // What a compaction may start from: at level 0 everything touching a closed range, below a run.
  ghost predicate IsSeed(level: nat, fs: seq<File>, chosen: seq<File>) {
    && chosen != []
    && (level == 0 ==> exists r :: Closed(fs, r) && chosen == Overlapping(fs, r))
    && (level > 0 ==> IsSomeRun(fs, chosen))
  }

  // Whatever stays in the level is newer, key by key, than what leaves it.
  ghost predicate LeavesNewer(fs: seq<File>, chosen: seq<File>) {
    forall f, g | f in fs && f !in chosen && g in chosen :: Newer(Of(f.entries), Of(g.entries))
  }

  ghost predicate Selects(v: Levels, level: nat, inputs0: seq<File>, inputs1: seq<File>)
    requires level + 1 < |v|
  {
    && inputs0 != []
    && Distinct(inputs0)
    && (forall f | f in inputs0 :: f in v[level])
    && LeavesNewer(v[level], inputs0)
    && inputs1 == Overlapping(v[level + 1], Hull(inputs0))
  }

  lemma ClosedLeavesNewer(fs: seq<File>, r: Range)
    requires Closed(fs, r)
    ensures LeavesNewer(fs, Overlapping(fs, r))
  {
    OverlappingMembers(fs, r);
    forall f, g | f in fs && f !in Overlapping(fs, r) && g in Overlapping(fs, r)
      ensures Newer(Of(f.entries), Of(g.entries))
    {
      forall x, y | x in f.entries && y in g.entries && x.key == y.key ensures false {
        EntriesLieInRange(f, x);
        EntriesLieInRange(g, y);
      }
    }
  }

  lemma ClosedHasNoBoundary(fs: seq<File>, r: Range, f: File, g: File)
    requires Closed(fs, r)
    requires f in Overlapping(fs, r) && g in fs && IsBoundary(g, f.Largest())
    ensures g in Overlapping(fs, r)
  {
    OverlappingMembers(fs, r);
    EntriesLieInRange(f, f.Largest());
    EntriesLieInRange(g, g.Largest());
  }

  lemma EarlierFileIsNewer(fs: seq<File>, i: nat, j: nat)
    requires SortedLevel(fs) && Unique(ContentsOf(fs))
    requires i < j < |fs|
    ensures Newer(Of(fs[i].entries), Of(fs[j].entries))
  {
    forall x, y | x in fs[i].entries && y in fs[j].entries && x.key == y.key ensures x.seqno > y.seqno {
      EntriesLieInRange(fs[i], x);
      EntriesLieInRange(fs[j], y);
      assert Before(fs[i].Largest(), fs[j].Smallest());
      assert x in ContentsOf(fs) && y in ContentsOf(fs);
    }
  }

  // Past the end of a run without boundary file, no key of the run goes on.
  lemma NoKeyCrossesTheEnd(fs: seq<File>, b: nat, i: nat, j: nat, x: Entry, y: Entry)
    requires SortedLevel(fs)
    requires j < b <= i < |fs| && x in fs[i].entries && y in fs[j].entries && x.key == y.key
    ensures IsBoundary(fs[i], fs[b - 1].Largest())
  {
    EntriesLieInRange(fs[i], x);
    EntriesLieInRange(fs[j], y);
    EntriesLieInRange(fs[b - 1], fs[b - 1].Smallest());
    assert Before(fs[b - 1].Largest(), fs[i].Smallest());
    if j < b - 1 {
      assert Before(fs[j].Largest(), fs[b - 1].Smallest());
    }
  }

  lemma OutsideRunIsNewer(fs: seq<File>, a: nat, b: nat, i: nat, j: nat)
    requires SortedLevel(fs) && Unique(ContentsOf(fs))
    requires a <= j < b <= |fs| && i < |fs| && !(a <= i < b)
    requires !IsBoundary(fs[i], fs[b - 1].Largest())
    ensures Newer(Of(fs[i].entries), Of(fs[j].entries))
  {
    if i < a {
      EarlierFileIsNewer(fs, i, j);
    } else {
      forall x, y | x in fs[i].entries && y in fs[j].entries && x.key == y.key ensures false {
        NoKeyCrossesTheEnd(fs, b, i, j, x, y);
      }
    }
  }

  lemma OutsideAndInside(fs: seq<File>, a: nat, b: nat, f: File, g: File) returns (i: nat, j: nat)
    requires a < b <= |fs| && f in fs && f !in fs[a..b] && g in fs[a..b]
    ensures i < |fs| && fs[i] == f && !(a <= i < b)
    ensures a <= j < b && fs[j] == g
  {
    i :| 0 <= i < |fs| && fs[i] == f;
    j :| a <= j < b && fs[j] == g;
  }

  lemma StretchLeavesNewer(fs: seq<File>, a: nat, b: nat)
    requires a < b <= |fs| && SortedLevel(fs) && Unique(ContentsOf(fs))
    requires forall f | f in fs :: !IsBoundary(f, fs[b - 1].Largest())
    ensures LeavesNewer(fs, fs[a..b])
  {
    hide Newer, SortedLevel, IsBoundary, InFiles, Unique, Table.Valid;
    forall f, g | f in fs && f !in fs[a..b] && g in fs[a..b] ensures Newer(Of(f.entries), Of(g.entries)) {
      var i: nat, j: nat := OutsideAndInside(fs, a, b, f, g);
      OutsideRunIsNewer(fs, a, b, i, j);
    }
  }

  lemma RunLeavesNewer(fs: seq<File>, chosen: seq<File>, last: Entry)
    requires SortedLevel(fs) && IsSomeRun(fs, chosen)
    requires Unique(ContentsOf(fs))
    requires exists f | f in chosen :: f.Largest() == last
    requires forall f | f in chosen :: !Before(last, f.Largest())
    requires forall f | f in fs :: !IsBoundary(f, last)
    ensures LeavesNewer(fs, chosen)
  {
    var a: nat, b: nat :| IsRun(fs, chosen, a, b);
    LastOfRunIsLargest(fs, chosen, a, b, last);
    StretchLeavesNewer(fs, a, b);
  }

  // Between two files that touch a range, every file touches it.
  lemma TouchingIsConvex(fs: seq<File>, r: Range, a: nat, b: nat, n: nat)
    requires SortedLevel(fs) && a <= b <= n < |fs|
    requires r.Touches(fs[a]) && r.Touches(fs[n])
    ensures r.Touches(fs[b])
  {
    if a < b < n {
      EntriesLieInRange(fs[b], fs[b].Largest());
      assert Before(fs[a].Largest(), fs[b].Smallest()) && Before(fs[b].Largest(), fs[n].Smallest());
    }
  }

  lemma TouchingRunReaches(fs: seq<File>, r: Range, n: nat, a: nat, b: nat)
    requires SortedLevel(fs) && a < b <= n < |fs| && r.Touches(fs[n])
    requires Overlapping(fs[..n], r) == fs[a..b]
    ensures b == n
  {
    hide SortedLevel, Overlapping, Meets;
    if b < n {
      OverlappingMembers(fs[..n], r);
      assert fs[a] in fs[a..b];
      TouchingIsConvex(fs, r, a, b, n);
      assert fs[b] in fs[..n];
      SortedIsDistinct(fs);
    }
  }

  lemma SortedPrefix(fs: seq<File>, n: nat)
    requires SortedLevel(fs) && n <= |fs|
    ensures SortedLevel(fs[..n])
  {
  }

  lemma RunGrows(fs: seq<File>, part: seq<File>, n: nat, a: nat, b: nat, more: bool)
    requires n < |fs| && IsRun(fs[..n], part, a, b) && (more ==> b == n)
    ensures IsRun(fs, part + if more then [fs[n]] else [], a, if more then n + 1 else b)
  {
    assert fs[..n][a..b] == fs[a..b];
  }

  lemma RunOfOne(fs: seq<File>, n: nat)
    requires n < |fs|
    ensures IsRun(fs, [] + [fs[n]], n, n + 1)
  {
  }

  lemma {:induction false} OverlappingIsRun(fs: seq<File>, r: Range)
    requires SortedLevel(fs) && Overlapping(fs, r) != []
    ensures IsSomeRun(fs, Overlapping(fs, r))
  {
    hide SortedLevel, Meets, IsRun, Overlapping, Range.Touches;
    NothingOverlaps(fs, r);
    assert fs[..0] == [];
    var n := |fs| - 1;
    assert fs[..n + 1] == fs;
    OverlappingStep(fs, n, r);
    SortedPrefix(fs, n);
    if Overlapping(fs[..n], r) == [] {
      RunOfOne(fs, n);
    } else {
      OverlappingIsRun(fs[..n], r);
      var a: nat, b: nat :| IsRun(fs[..n], Overlapping(fs[..n], r), a, b);
      if r.Touches(fs[n]) {
        RunIsPart(fs[..n], Overlapping(fs[..n], r), a, b);
        assert fs[..n][a..b] == fs[a..b];
        TouchingRunReaches(fs, r, n, a, b);
      }
      RunGrows(fs, Overlapping(fs[..n], r), n, a, b, r.Touches(fs[n]));
    }
  }

  lemma RunIsPart(level: seq<File>, files: seq<File>, a: nat, b: nat)
    requires IsRun(level, files, a, b)
    ensures a < b <= |level| && files == level[a..b]
  {
  }

  lemma SeedMembers(level: nat, fs: seq<File>, chosen: seq<File>)
    requires IsSeed(level, fs, chosen)
    ensures forall f | f in chosen :: f in fs
  {
    if level == 0 {
      var r :| Closed(fs, r) && chosen == Overlapping(fs, r);
      OverlappingMembers(fs, r);
    }
  }

  // A seed closed under boundary files is safe to take out of its level.
  method CompleteSeed(fs: seq<File>, level: nat, seed: seq<File>, ghost beside: seq<File>) returns (chosen: seq<File>)
    requires IsSeed(level, fs, seed) && Unique(ContentsOf(fs))
    requires if level == 0 then NumberedByAge(fs) else SortedLevel(fs)
    ensures IsSeed(level, fs, chosen) && Distinct(chosen) && LeavesNewer(fs, chosen) && seed <= chosen
    ensures Completes(fs, seed, chosen)
    ensures Gapless(beside + seed) ==> Gapless(beside + chosen)
  {
    hide SortedLevel, NumberedByAge, Distinct, LeavesNewer, Unique, IsSomeRun, Gapless, Completes;
    ghost var last;
    chosen, last := AddBoundaryInputs(fs, seed, beside);
    if level == 0 {
      ghost var r :| Closed(fs, r) && seed == Overlapping(fs, r);
      forall f, g | f in seed && g in fs && IsBoundary(g, f.Largest()) ensures g in seed {
        ClosedHasNoBoundary(fs, r, f, g);
      }
      ClosedLeavesNewer(fs, r);
    } else {
      RunLeavesNewer(fs, chosen, last);
    }
    SeedIsDistinct(level, fs, chosen);
  }

  // What is in a hull is met by every range around it.
  lemma HullKeeps(fs: seq<File>, chosen: seq<File>, all: seq<File>, reach: Range)
    requires all != [] && (forall f | f in chosen :: f in fs && f in all) && reach.Contains(Hull(all))
    ensures forall f | f in chosen :: f in Overlapping(fs, reach)
  {
    hide Hull, Overlapping;
    HullIsTight(all);
    OverlappingMembers(fs, reach);
    forall f | f in chosen ensures reach.Touches(f) {
      assert Hull(all).Encloses(f);
      EntriesLieInRange(f, f.Largest());
      RangeAround(reach, Hull(all), f);
    }
  }

  lemma RangeAround(reach: Range, r: Range, f: File)
    requires reach.Contains(r) && r.Encloses(f) && f.Smallest().key <= f.Largest().key
    ensures reach.Touches(f)
  {
  }

  // The wider selection is larger, not too large, and meets no more files below.
  predicate Grows(v: Levels, level: nat, inputs0: seq<File>, inputs1: seq<File>, wide0: seq<File>, maxFileSize: nat)
    requires level + 1 < |v| && wide0 != []
  {
    && |wide0| > |inputs0|
    && TotalFileSize(inputs1) + TotalFileSize(wide0) < 25 * maxFileSize
    && |Overlapping(v[level + 1], Hull(wide0))| == |inputs1|
  }

  // Tries to take more files from "level" without changing the number of "level+1" files.  The wider
  // selection starts with all files of the level that meet the range of all inputs, and goes on with
  // boundary files; it is taken exactly when it is larger, not too large, and meets no more files below.
  method GrowInputs(v: Levels, level: nat, inputs0: seq<File>, inputs1: seq<File>, maxFileSize: nat)
    returns (grown0: seq<File>, grown1: seq<File>, ghost reach0: Range, ghost wide0: seq<File>)
    requires level + 1 < NUM_LEVELS && ValidVersion(v) && Unique(ContentsOf(v[level]))
    requires Selects(v, level, inputs0, inputs1)
    ensures Selects(v, level, grown0, grown1) && forall f | f in inputs0 :: f in grown0
    ensures IsReach(v[level], level, Hull(inputs0 + inputs1), reach0)
    ensures wide0 != [] && Completes(v[level], Overlapping(v[level], reach0), wide0) && LeavesNewer(v[level], wide0)
    ensures (grown0, grown1)
         == if Grows(v, level, inputs0, inputs1, wide0, maxFileSize) then (wide0, Overlapping(v[level + 1], Hull(wide0)))
            else (inputs0, inputs1)
    ensures Gapless(inputs0 + inputs1) ==> Gapless(grown0 + grown1)
  {
    hide Range.Contains, LeavesNewer, Distinct, IsSeed, Overlapping, Hull, TotalFileSize, ValidVersion, Unique, Gapless,
      StaysFilled, Completes, NoWiderThanNeeded, Closed;
    VersionHasLevel(v, level);
    grown0, grown1 := inputs0, inputs1;
    var reach;
    var allStart, allLimit := GetRange(inputs0 + inputs1);
    var expanded0;
    expanded0, reach := GetOverlappingInputs(v[level], level, Some(allStart.key), Some(allLimit.key));
    reach0 := reach;
    HullKeeps(v[level], inputs0, inputs0 + inputs1, reach);
    assert inputs0[0] in expanded0;
    OverlappingIsSeed(v, level, reach);
    ghost var found := expanded0;
    if Gapless(inputs0 + inputs1) {
      ReachLeavesNoGap(v[level], inputs0 + inputs1, reach);
    }
    expanded0 := CompleteSeed(v[level], level, expanded0, inputs0 + inputs1);
    SeedMembers(level, v[level], expanded0);
    wide0 := expanded0;
    if |expanded0| > |inputs0| && TotalFileSize(inputs1) + TotalFileSize(expanded0) < 25 * maxFileSize {
      var newStart, newLimit := GetRange(expanded0);
      var expanded1;
      expanded1, reach := GetOverlappingInputs(v[level + 1], level + 1, Some(newStart.key), Some(newLimit.key));
      if |expanded1| == |inputs1| {
        grown0, grown1 := expanded0, expanded1;
        if Gapless(inputs0 + inputs1) {
          WiderLeavesNoGap(v[level + 1], inputs0, inputs1, expanded0);
        }
      }
    }
  }

  // All files that meet the reach of files without a gap.
  lemma ReachLeavesNoGap(fs: seq<File>, all: seq<File>, reach: Range)
    requires all != [] && Gapless(all) && StaysFilled(fs, Hull(all), reach) && reach.Contains(Hull(all))
    requires reach.lo.Some? && reach.hi.Some?
    ensures Gapless(all + Overlapping(fs, reach))
  {
    hide StaysFilled, Overlapping, LowKey, HighKey, Filled;
    FoundFill(fs, Hull(all), reach, all);
    OverlappingMembers(fs, reach);
    var lo, hi := reach.lo.value, reach.hi.value;
    forall f | f in all + Overlapping(fs, reach) ensures Reaches(f, lo, hi) {
      if f in all {
        HullReached(all, f);
      }
    }
    HullReached(all, all[0]);
    AllReachFilled(all + Overlapping(fs, reach), lo, hi);
  }

  // What the narrower selection meets below, the wider one meets too.
  lemma WiderLeavesNoGap(below: seq<File>, inputs0: seq<File>, inputs1: seq<File>, wide0: seq<File>)
    requires inputs0 != [] && inputs1 == Overlapping(below, Hull(inputs0)) && forall f | f in inputs0 :: f in wide0
    requires wide0 != [] && Gapless(inputs0 + inputs1 + wide0)
    ensures Gapless(wide0 + Overlapping(below, Hull(wide0)))
  {
    hide Overlapping, Gapless, LowKey, HighKey;
    var wide1 := Overlapping(below, Hull(wide0));
    var all := inputs0 + inputs1 + wide0;
    OverlappingMembers(below, Hull(inputs0));
    OverlappingMembers(below, Hull(wide0));
    HullGrows(inputs0, wide0);
    HullGrows(wide0, all);
    forall f | f in inputs1 ensures f in wide1 {
    }
    forall f | f in wide1 ensures Reaches(f, LowKey(all), HighKey(all)) {
    }
    GaplessMore(all, all + wide1);
    GaplessSame(all + wide1, wide0 + wide1);
  }

  lemma HullGrows(fs: seq<File>, more: seq<File>)
    requires fs != [] && forall f | f in fs :: f in more
    ensures more != [] && LowKey(more) <= LowKey(fs) && HighKey(fs) <= HighKey(more)
  {
    hide LowKey, HighKey;
    assert fs[0] in more;
    HullIsTight(fs);
    HullIsTight(more);
  }

  lemma GaplessSame(fs: seq<File>, gs: seq<File>)
    requires Gapless(fs) && forall f :: f in fs <==> f in gs
    ensures Gapless(gs)
  {
    hide LowKey, HighKey, Filled;
    if gs != [] {
      assert gs[0] in fs;
      HullGrows(fs, gs);
      HullGrows(gs, fs);
      FilledMore(fs, gs, LowKey(fs), HighKey(fs));
    }
  }

  // The lower inputs of a selection leave no gap either.
  lemma LowerLeavesNoGap(below: seq<File>, inputs0: seq<File>)
    requires inputs0 != [] && Gapless(inputs0)
    ensures Gapless(inputs0 + Overlapping(below, Hull(inputs0)))
  {
    hide Overlapping, LowKey, HighKey, Filled, Gapless;
    OverlappingMembers(below, Hull(inputs0));
    GaplessMore(inputs0, inputs0 + Overlapping(below, Hull(inputs0)));
  }

  lemma OverlappingIsSeed(v: Levels, level: nat, reach: Range)
    requires level < |v| == NUM_LEVELS && ValidVersion(v) && Overlapping(v[level], reach) != []
    requires level == 0 ==> Closed(v[0], reach)
    ensures IsSeed(level, v[level], Overlapping(v[level], reach))
    ensures if level == 0 then NumberedByAge(v[0]) else SortedLevel(v[level])
  {
    hide Overlapping, Closed, Newer;
    if level > 0 {
      OverlappingIsRun(v[level], reach);
    }
  }

  // PickCompaction starts from a file, and in level 0 from all that its range leads to.
  ghost predicate IsPickedSeed(v: Levels, level: nat, f: File, seed: seq<File>)
    requires level < |v|
  {
    if level > 0 then seed == [f] else
      exists reach ::
        IsReach(v[0], 0, Range(Some(f.Smallest().key), Some(f.Largest().key)), reach) && seed == Overlapping(v[0], reach)
  }

  // As many files as reach the size of one, or all of them.
  ghost predicate IsOneFilesWorth(files: seq<File>, maxFileSize: nat, part: seq<File>) {
    && part <= files && (files != [] ==> part != [])
    && (TotalFileSize(part) >= maxFileSize || part == files)
    && (|part| > 1 ==> TotalFileSize(part[..|part| - 1]) < maxFileSize)
  }

  // CompactRange starts from the files of a range, and below level 0 from no more than one file's worth.
  ghost predicate IsRangeSeed(v: Levels, level: nat, asked: Range, maxFileSize: nat, seed: seq<File>)
    requires level < |v|
  {
    exists reach ::
      && IsReach(v[level], level, asked, reach)
      && if level > 0 then IsOneFilesWorth(Overlapping(v[level], reach), maxFileSize, seed) else seed == Overlapping(v[0], reach)
  }

  // What a compaction takes that starts from a seed: `a` is the seed with the files that carry it on, and b what
  // it meets below; `wide` are the files that meet the range of both, with those that carry them on.
  ghost predicate SetsUp(v: Levels, level: nat, seed: seq<File>, maxFileSize: nat, a: seq<File>, reach: Range,
                         wide: seq<File>, inputs0: seq<File>, inputs1: seq<File>)
    requires level + 1 < |v|
  {
    && a != [] && Completes(v[level], seed, a)
    && var b := Overlapping(v[level + 1], Hull(a));
       if b == [] then inputs0 == a && inputs1 == [] else
         && IsReach(v[level], level, Hull(a + b), reach)
         && wide != [] && Completes(v[level], Overlapping(v[level], reach), wide)
         && (inputs0, inputs1)
            == if Grows(v, level, a, b, wide, maxFileSize) then (wide, Overlapping(v[level + 1], Hull(wide))) else (a, b)
  }

  ghost predicate IsSetUp(v: Levels, level: nat, seed: seq<File>, maxFileSize: nat, inputs0: seq<File>, inputs1: seq<File>)
    requires level + 1 < |v|
  {
    exists a, reach, wide :: SetsUp(v, level, seed, maxFileSize, a, reach, wide, inputs0, inputs1)
  }

  // SetupOtherInputs; maxFileSize is Options::max_file_size.
  method SetupOtherInputs(v: Levels, level: nat, seed: seq<File>, maxFileSize: nat)
    returns (inputs0: seq<File>, inputs1: seq<File>, grandparents: seq<File>)
    requires level + 1 < NUM_LEVELS && ValidVersion(v) && Unique(ContentsOf(v[level]))
    requires IsSeed(level, v[level], seed)
    ensures inputs0 != [] && Selects(v, level, inputs0, inputs1) && forall f | f in seed :: f in inputs0
    ensures IsSetUp(v, level, seed, maxFileSize, inputs0, inputs1)
    ensures grandparents == Grandparents(v, level, inputs0, inputs1)
    ensures Gapless(seed) ==> Gapless(inputs0 + inputs1)
  {
    hide Completes, Grows, NoWiderThanNeeded, IsReach, IsSeed, LeavesNewer, Distinct, Hull, Overlapping, ValidVersion, Unique,
      Range.Contains, Closed, TotalFileSize, Gapless, StaysFilled, Grandparents;
    VersionHasLevel(v, level);
    inputs0 := CompleteSeed(v[level], level, seed, []);
    assert [] + seed == seed && [] + inputs0 == inputs0;
    SeedMembers(level, v[level], inputs0);
    SeedIsNotEmpty(level, v[level], inputs0);
    var reach;
    var smallest, largest := GetRange(inputs0);
    inputs1, reach := GetOverlappingInputs(v[level + 1], level + 1, Some(smallest.key), Some(largest.key));
    if Gapless(seed) {
      LowerLeavesNoGap(v[level + 1], inputs0);
    }
    ghost var a, reach0, wide0 := inputs0, reach, inputs0;
    if inputs1 != [] {
      inputs0, inputs1, reach0, wide0 := GrowInputs(v, level, inputs0, inputs1, maxFileSize);
    }
    assert SetsUp(v, level, seed, maxFileSize, a, reach0, wide0, inputs0, inputs1);
    grandparents := FindGrandparents(v, level, inputs0, inputs1);
  }

  ghost predicate StartsDiffer(fs: seq<File>) {
    forall f, g | f in fs && g in fs && !Before(f.Smallest(), g.Smallest()) && !Before(g.Smallest(), f.Smallest()) :: f == g
  }

  lemma SortedStartsDiffer(fs: seq<File>)
    requires SortedLevel(fs)
    ensures StartsDiffer(fs)
  {
    forall i: nat, j: nat | i < j < |fs| ensures Before(fs[i].Smallest(), fs[j].Smallest()) {
      EntriesLieInRange(fs[i], fs[i].Largest());
      assert Before(fs[i].Largest(), fs[j].Smallest());
    }
  }

  lemma AgedStartsDiffer(fs: seq<File>)
    requires NumberedByAge(fs)
    ensures StartsDiffer(fs)
  {
    forall f, g | f in fs && g in fs && !Before(f.Smallest(), g.Smallest()) && !Before(g.Smallest(), f.Smallest())
      ensures f == g
    {
      assert f.Smallest() in Of(f.entries) && g.Smallest() in Of(g.entries);
    }
  }

  lemma OneCompletion(level: seq<File>, files: seq<File>, one: seq<File>, two: seq<File>)
    requires StartsDiffer(level) && Completes(level, files, one) && Completes(level, files, two)
    ensures one == two
  {
    hide CarriesOn, Before;
    CompletionIsUnique(level, files, one, two, |one|);
    CompletionIsUnique(level, files, two, one, |two|);
    assert one[..|one|] == one && two[..|two|] == two;
  }

  // The inputs of a compaction are determined by its seed.
  lemma OneSetUp(v: Levels, level: nat, seed: seq<File>, maxFileSize: nat, one: (seq<File>, seq<File>), two: (seq<File>, seq<File>))
    requires ValidVersion(v) && level + 1 < NUM_LEVELS
    requires IsSetUp(v, level, seed, maxFileSize, one.0, one.1) && IsSetUp(v, level, seed, maxFileSize, two.0, two.1)
    ensures one == two
  {
    hide Completes, Grows, IsReach, Hull, Overlapping, ValidVersion, StartsDiffer;
    VersionHasLevel(v, level);
    if level == 0 {
      AgedStartsDiffer(v[0]);
    } else {
      SortedStartsDiffer(v[level]);
    }
    var a, reach, wide :| SetsUp(v, level, seed, maxFileSize, a, reach, wide, one.0, one.1);
    var a', reach', wide' :| SetsUp(v, level, seed, maxFileSize, a', reach', wide', two.0, two.1);
    OneCompletion(v[level], seed, a, a');
    var b := Overlapping(v[level + 1], Hull(a));
    if b != [] {
      OneReach(v[level], level, Hull(a + b), reach, reach');
      OneCompletion(v[level], Overlapping(v[level], reach), wide, wide');
    }
  }

  // The files two levels down that the inputs meet.
  method FindGrandparents(v: Levels, level: nat, inputs0: seq<File>, inputs1: seq<File>) returns (grandparents: seq<File>)
    requires level + 1 < NUM_LEVELS == |v| && inputs0 != []
    ensures grandparents == Grandparents(v, level, inputs0, inputs1)
  {
    hide Hull, Overlapping, Range.Contains, Closed, StaysFilled;
    grandparents := [];
    if level + 2 < NUM_LEVELS {
      var allStart, allLimit := GetRange(inputs0 + inputs1);
      var reach;
      grandparents, reach := GetOverlappingInputs(v[level + 2], level + 2, Some(allStart.key), Some(allLimit.key));
    }
  }

  // The files two levels down that a compaction meets.
  function Grandparents(v: Levels, level: nat, inputs0: seq<File>, inputs1: seq<File>): seq<File>
    requires inputs0 != []
  {
    if level + 2 < |v| then Overlapping(v[level + 2], Hull(inputs0 + inputs1)) else []
  }

  lemma VersionHasLevel(v: Levels, level: nat)
    requires ValidVersion(v) && level < NUM_LEVELS
    ensures |v| == NUM_LEVELS && if level == 0 then NumberedByAge(v[0]) else SortedLevel(v[level])
  {
    hide Newer;
  }

  lemma SeedIsNotEmpty(level: nat, fs: seq<File>, chosen: seq<File>)
    requires IsSeed(level, fs, chosen)
    ensures chosen != []
  {
  }
}
