/** When the outputs of a compaction stay clear of the tables that were flushed while it ran: it depends on
    where the kept entries are cut into files. */
module Cuts {
  import opened Sequences
  import opened InternalKeys
  import opened Versions
  import opened Compactions
  import opened CompactionReads
  import opened Installs

  ghost predicate Below(e: Entry, f: File) {
    e.key < f.Smallest().key
  }

  ghost predicate Beyond(e: Entry, f: File) {
    f.Largest().key < e.key
  }

  // The i-th entry is the first one past the table, and the one before it is still in front of it.
  ghost predicate Around(es: seq<Entry>, i: nat, f: File) {
    0 < i < |es| && Below(es[i - 1], f) && Beyond(es[i], f)
  }

  // The entries on both sides of a table that was flushed into the level of the outputs go into one file.
  ghost predicate Bridges(b: Levels, v: Levels, j: Job, es: seq<Entry>, outputs: seq<File>) {
    exists f, i: nat :: Flushed(b, v, j.level + 1, f) && Around(es, i, f) && !CutAt(outputs, i)
  }

  ghost predicate OneSide(es: seq<Entry>, f: File) {
    (forall e | e in es :: Below(e, f)) || (forall e | e in es :: Beyond(e, f))
  }

  // Every such table has all the entries on one side.
  ghost predicate AllOneSide(b: Levels, v: Levels, j: Job, es: seq<Entry>) {
    forall f | Flushed(b, v, j.level + 1, f) :: OneSide(es, f)
  }

  // ----- positions in the outputs -----

  lemma FlattenedUpTo(outputs: seq<File>, n: nat)
    requires n < |outputs|
    ensures Flatten(outputs[..n + 1]) == Flatten(outputs[..n]) + outputs[n].entries
  {
    FlattenMore(outputs[..n], outputs[n]);
    assert outputs[..n] + [outputs[n]] == outputs[..n + 1];
  }

  lemma {:induction false} FlattenedGrows(outputs: seq<File>, n: nat, m: nat)
    requires n <= m <= |outputs|
    ensures Flatten(outputs[..n]) <= Flatten(outputs[..m])
    decreases m - n
  {
    hide Flatten;
    if n < m {
      FlattenedUpTo(outputs, m - 1);
      FlattenedGrows(outputs, n, m - 1);
    }
  }

  // Where the entries of a file are.
  lemma FileAt(outputs: seq<File>, n: nat)
    requires n < |outputs|
    ensures var from := |Flatten(outputs[..n])|;
      Holds(Flatten(outputs), from, outputs[n].entries)
  {
    hide Flatten;
    FlattenedUpTo(outputs, n);
    FlattenedGrows(outputs, n + 1, |outputs|);
    assert outputs[..|outputs|] == outputs;
  }

  // No file ends inside another.
  lemma NoCutInside(outputs: seq<File>, n: nat, i: nat)
    requires n < |outputs| && |Flatten(outputs[..n])| < i < |Flatten(outputs[..n])| + |outputs[n].entries|
    ensures !CutAt(outputs, i)
  {
    hide Flatten;
    FlattenedUpTo(outputs, n);
    forall m: nat | m <= |outputs| ensures |Flatten(outputs[..m])| != i {
      if m <= n {
        FlattenedGrows(outputs, m, n);
      } else {
        FlattenedGrows(outputs, n + 1, m);
      }
    }
  }

  // The file that an entry is in.
  lemma {:induction false} FileWith(outputs: seq<File>, m: nat, i: nat) returns (n: nat)
    requires m <= |outputs| && i < |Flatten(outputs[..m])|
    ensures n < m && |Flatten(outputs[..n])| <= i < |Flatten(outputs[..n])| + |outputs[n].entries|
    decreases m
  {
    hide Flatten;
    NothingFlattened(outputs);
    FlattenedUpTo(outputs, m - 1);
    if i < |Flatten(outputs[..m - 1])| {
      n := FileWith(outputs, m - 1, i);
    } else {
      n := m - 1;
    }
  }

  lemma NothingFlattened(outputs: seq<File>)
    ensures Flatten(outputs[..0]) == []
  {
  }

  // ----- one way to cut -----

  lemma RightCuts(w: Work, outputs: seq<File>, n: nat)
    requires w.CutsAreRight(outputs) && n < |outputs|
    ensures Flatten(outputs) == w.KeptOf(|w.es|) && w.CutAtStops(outputs, |w.es|) && w.Sized(outputs[n])
    ensures n < |outputs| - 1 ==> w.Ended(outputs, n, |w.es|)
  {
    hide Flatten, Kept;
  }

  lemma SameBytes(one: seq<File>, two: seq<File>, n: nat)
    requires Flatten(one) == Flatten(two) && n < |one| && n < |two| && Flatten(one[..n]) == Flatten(two[..n])
    requires |one[n].entries| <= |two[n].entries|
    ensures one[n].entries == two[n].entries[..|one[n].entries|]
    ensures |Flatten(one[..n + 1])| == |Flatten(two[..n])| + |one[n].entries|
    ensures n == |one| - 1 ==> |one[n].entries| == |two[n].entries|
  {
    hide Flatten;
    var from, a, b := |Flatten(one[..n])|, one[n].entries, two[n].entries;
    FileAt(one, n);
    FileAt(two, n);
    FlattenedUpTo(one, n);
    FlattenedUpTo(two, n);
    FlattenedGrows(two, n + 1, |two|);
    assert one[..|one|] == one && two[..|two|] == two;
    forall k | 0 <= k < |a| ensures a[k] == b[..|a|][k] {
      assert Flatten(one)[from + k] == a[k] && Flatten(two)[from + k] == b[k];
    }
  }

  // An output never ends before another one that is cut right from the same place.
  lemma NotShorter(w: Work, one: seq<File>, two: seq<File>, n: nat)
    requires w.CutsAreRight(one) && w.CutsAreRight(two)
    requires n < |one| && n < |two| && Flatten(one[..n]) == Flatten(two[..n])
    ensures |one[n].entries| >= |two[n].entries|
  {
    hide Flatten, Work.CutsAreRight, Work.KeptOf, Work.Stops, CutAt;
    if |one[n].entries| < |two[n].entries| {
      RightCuts(w, one, n);
      RightCuts(w, two, n);
      SameBytes(one, two, n);
      NoCutInside(two, n, |Flatten(one[..n + 1])|);
    }
  }

  lemma {:induction false} SameStart(w: Work, one: seq<File>, two: seq<File>, n: nat)
    requires w.CutsAreRight(one) && w.CutsAreRight(two) && n <= |one|
    ensures n <= |two| && Flatten(one[..n]) == Flatten(two[..n]) && forall k | 0 <= k < n :: one[k].entries == two[k].entries
  {
    hide Flatten, Work.CutsAreRight;
    NothingFlattened(one);
    NothingFlattened(two);
    if n > 0 {
      SameStart(w, one, two, n - 1);
      MoreOutputs(w, one, two, n - 1);
      NotShorter(w, one, two, n - 1);
      NotShorter(w, two, one, n - 1);
      RightCuts(w, one, n - 1);
      RightCuts(w, two, n - 1);
      SameBytes(one, two, n - 1);
      FlattenedUpTo(one, n - 1);
      FlattenedUpTo(two, n - 1);
    }
  }

  lemma MoreOutputs(w: Work, one: seq<File>, two: seq<File>, n: nat)
    requires w.CutsAreRight(one) && w.CutsAreRight(two) && n < |one| && n <= |two| && Flatten(one[..n]) == Flatten(two[..n])
    ensures n < |two|
  {
    hide Flatten, Work.CutAtStops, Work.Sized, Work.Ended, Work.KeptOf;
    FlattenedUpTo(one, n);
    FlattenedGrows(one, n + 1, |one|);
    assert one[..|one|] == one && two[..|two|] == two;
  }

  // There is one way to cut what a compaction keeps.
  lemma OneWayToCut(w: Work, one: seq<File>, two: seq<File>)
    requires w.CutsAreRight(one) && w.CutsAreRight(two)
    ensures |one| == |two| && forall k | 0 <= k < |one| :: one[k].entries == two[k].entries && one[k].size == two[k].size
  {
    hide Flatten, Work.CutsAreRight;
    SameStart(w, one, two, |one|);
    SameStart(w, two, one, |two|);
    forall k | 0 <= k < |one| ensures one[k].size == two[k].size {
      RightCuts(w, one, k);
      RightCuts(w, two, k);
    }
  }

  // ----- one table -----

  // Entries that start below a table and end beyond it go past it somewhere.
  lemma {:induction false} GoesPast(es: seq<Entry>, f: File) returns (i: nat)
    requires es != [] && Below(es[0], f) && Beyond(es[|es| - 1], f)
    requires forall k | 0 <= k < |es| :: Below(es[k], f) || Beyond(es[k], f)
    ensures Around(es, i, f)
    decreases |es|
  {
    var n := |es| - 1;
    NotBoth(es[0], f);
    if Below(es[n - 1], f) {
      i := n;
    } else {
      i := GoesPast(es[..n], f);
    }
  }

  lemma NotBoth(e: Entry, f: File)
    ensures !(Below(e, f) && Beyond(e, f))
  {
    EntriesLieInRange(f, f.Largest());
  }

  // A file that overlaps the table has entries on both sides.
  lemma OverlapIsBridge(outputs: seq<File>, f: File, n: nat) returns (i: nat)
    requires n < |outputs| && !Apart(f, outputs[n])
    requires forall k | 0 <= k < |outputs[n].entries| :: Below(outputs[n].entries[k], f) || Beyond(outputs[n].entries[k], f)
    ensures Around(Flatten(outputs), i, f) && !CutAt(outputs, i)
  {
    hide Flatten, Below, Beyond, CutAt, Apart;
    var g := outputs[n];
    OverlapHasBothSides(f, g);
    var t := GoesPast(g.entries, f);
    FileAt(outputs, n);
    i := |Flatten(outputs[..n])| + t;
    NoCutInside(outputs, n, i);
    assert Flatten(outputs)[|Flatten(outputs[..n])| + (t - 1)] == g.entries[t - 1];
  }

  lemma OverlapHasBothSides(f: File, g: File)
    requires !Apart(f, g) && (Below(g.Smallest(), f) || Beyond(g.Smallest(), f))
      && (Below(g.Largest(), f) || Beyond(g.Largest(), f))
    ensures Below(g.Smallest(), f) && Beyond(g.Largest(), f)
  {
  }

  lemma BridgeIsOverlap(outputs: seq<File>, f: File, i: nat) returns (g: File)
    requires Around(Flatten(outputs), i, f) && !CutAt(outputs, i)
    ensures g in outputs && !Apart(f, g)
  {
    hide Flatten, Below, Beyond;
    assert outputs[..|outputs|] == outputs;
    var n := FileWith(outputs, |outputs|, i);
    g := outputs[n];
    FileAt(outputs, n);
    var from := |Flatten(outputs[..n])|;
    assert from != i;
    assert Flatten(outputs)[from + (i - from)] == g.entries[i - from];
    assert Flatten(outputs)[from + (i - 1 - from)] == g.entries[i - 1 - from];
    BothSidesOverlap(f, g, g.entries[i - 1 - from], g.entries[i - from]);
  }

  lemma BothSidesOverlap(f: File, g: File, x: Entry, y: Entry)
    requires x in g.entries && y in g.entries && Below(x, f) && Beyond(y, f)
    ensures !Apart(f, g)
  {
    EntriesLieInRange(g, x);
    EntriesLieInRange(g, y);
    EntriesLieInRange(f, f.Largest());
  }

  // ----- all tables -----

  // Every entry that is kept lies beside every table flushed into the level of the outputs.
  lemma EntriesAreBeside(mem: Contents, b: Levels, v: Levels, j: Job, f: File, e: Entry)
    requires Setting(mem, b, j) && Overlaid(b, v) && Flushed(b, v, j.level + 1, f) && e in Taken(j)
    ensures Below(e, f) || Beyond(e, f)
  {
    hide Setting, Overlaid, Flushed, Taken;
    var p := BesideInput(mem, b, v, j, f, e);
    EntriesLieInRange(f, f.Largest());
  }

  lemma FileIsBeside(mem: Contents, b: Levels, v: Levels, j: Job, outputs: seq<File>, f: File, g: File)
    requires Setting(mem, b, j) && Overlaid(b, v) && Outputs(j, outputs) && Flushed(b, v, j.level + 1, f) && g in outputs
    ensures forall k | 0 <= k < |g.entries| :: Below(g.entries[k], f) || Beyond(g.entries[k], f)
  {
    hide Setting, Overlaid, Flushed, Taken, Below, Beyond, SortedLevel;
    forall k | 0 <= k < |g.entries| ensures Below(g.entries[k], f) || Beyond(g.entries[k], f) {
      FileHolds(outputs, g, g.entries[k]);
      EntriesAreBeside(mem, b, v, j, f, g.entries[k]);
    }
  }

  // An output overlaps a flushed table if and only if the last entry below the table and the first one
  // beyond it are not cut apart.
  lemma CollidesIsBridge(mem: Contents, b: Levels, v: Levels, j: Job, outputs: seq<File>)
    requires Setting(mem, b, j) && Overlaid(b, v) && Outputs(j, outputs)
    ensures Collides(b, v, j, outputs) <==> Bridges(b, v, j, Flatten(outputs), outputs)
  {
    hide Setting, Overlaid, Flushed, Outputs, Around, CutAt, Apart, Flatten, Below, Beyond;
    if Collides(b, v, j, outputs) {
      var f, g :| Flushed(b, v, j.level + 1, f) && g in outputs && !Apart(f, g);
      FileIsBeside(mem, b, v, j, outputs, f, g);
      var n: nat :| n < |outputs| && outputs[n] == g;
      var i := OverlapIsBridge(outputs, f, n);
    }
    if Bridges(b, v, j, Flatten(outputs), outputs) {
      var f, i: nat :| Flushed(b, v, j.level + 1, f) && Around(Flatten(outputs), i, f) && !CutAt(outputs, i);
      var g := BridgeIsOverlap(outputs, f, i);
    }
  }

  // ----- all ways of cutting -----

  lemma BothSidesAround(es: seq<Entry>, i: nat, f: File)
    requires Around(es, i, f)
    ensures !OneSide(es, f)
  {
    assert es[i - 1] in es && es[i] in es;
    NotBoth(es[i - 1], f);
    NotBoth(es[i], f);
  }

  lemma OneSideIsClear(b: Levels, v: Levels, j: Job, es: seq<Entry>, outputs: seq<File>)
    requires AllOneSide(b, v, j, es)
    ensures !Bridges(b, v, j, es, outputs)
  {
    hide Flushed, CutAt, Around, OneSide;
    forall f, i: nat | Flushed(b, v, j.level + 1, f) && Around(es, i, f) ensures !OneSide(es, f) {
      BothSidesAround(es, i, f);
    }
  }

  // Uncut, entries on both sides of a table make a file across it.
  lemma UncutIsBridge(b: Levels, v: Levels, j: Job, es: seq<Entry>, f: File, g: File)
    requires Flushed(b, v, j.level + 1, f) && g.entries == es && Sorted(es) && !OneSide(es, f)
    requires forall e | e in es :: Below(e, f) || Beyond(e, f)
    ensures Bridges(b, v, j, es, [g])
  {
    hide Flushed, Around, CutAt, Below, Beyond, Sorted, Flatten;
    EndsAreOnBothSides(es, f);
    var i := GoesPast(es, f);
    NothingFlattened([g]);
    OneFlattened(g);
    AroundIsInside(es, i, f);
    NoCutInside([g], 0, i);
  }

  lemma OneFlattened(g: File)
    ensures Flatten([g]) == g.entries
  {
    assert [g][..0] == [];
  }

  lemma AroundIsInside(es: seq<Entry>, i: nat, f: File)
    requires Around(es, i, f)
    ensures 0 < i < |es|
  {
  }

  lemma EndsAreOnBothSides(es: seq<Entry>, f: File)
    requires Sorted(es) && !OneSide(es, f) && forall e | e in es :: Below(e, f) || Beyond(e, f)
    ensures es != [] && Below(es[0], f) && Beyond(es[|es| - 1], f)
  {
    var x :| x in es && !Below(x, f);
    var y :| y in es && !Beyond(y, f);
    var p: nat :| p < |es| && es[p] == x;
    var q: nat :| q < |es| && es[q] == y;
    NotBoth(x, f);
    NotBoth(y, f);
    assert es[0] in es && es[|es| - 1] in es;
    assert p < |es| - 1 ==> Before(es[p], es[|es| - 1]);
    assert q > 0 ==> Before(es[0], es[q]);
    NotBoth(es[0], f);
    NotBoth(es[|es| - 1], f);
  }

  lemma NonEmptyHere(es: seq<Entry>, f: File)
    requires !OneSide(es, f)
    ensures es != []
  {
  }
}
