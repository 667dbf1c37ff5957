/** The version edit as an object: filled in place, written to a manifest record, and read from one. */
module ManifestEdits {
  import opened Options
  import opened Sequences
  import opened ProtoVarints
  import opened ManifestRecords

  class VersionEdit {
    var comparator: Option<Bytes>
    var logNumber: Option<nat>
    var prevLogNumber: Option<nat>
    var nextFileNumber: Option<nat>
    var lastSequence: Option<nat>
    var compactPointers: seq<(nat, Bytes)>
    var deletedFiles: set<(nat, nat)>
    var newFiles: seq<(nat, Meta)>

    function Contents(): Record
      reads this
    {
      Record(comparator, logNumber, prevLogNumber, nextFileNumber, lastSequence, compactPointers, deletedFiles, newFiles)
    }

    constructor ()
      ensures Contents() == Blank()
    {
      comparator, logNumber, prevLogNumber, nextFileNumber, lastSequence := None, None, None, None, None;
      compactPointers, deletedFiles, newFiles := [], {}, [];
    }

    // The compaction pointers stay; of everything else there is nothing, so a later decoding adds to
    // nothing else.
    method Clear()
      modifies this
      ensures compactPointers == old(compactPointers)
      ensures Contents() == Blank().(pointers := old(compactPointers))
      ensures Contents() == Cleared(old(Contents()))
    {
      comparator, logNumber, prevLogNumber, nextFileNumber, lastSequence := None, None, None, None, None;
      deletedFiles, newFiles := {}, [];
    }

    method EncodeTo(dst: Bytes) returns (r: Bytes)
      ensures r == dst + Encoded(Contents())
    {
      hide AllBytes, Head, ItemBytes;
      var head := EncodeHead();
      r := dst + head;
      ghost var done := Head(Contents());
      assert done + PointerItems(compactPointers[..0]) == done;
      for i := 0 to |compactPointers|
        invariant r == dst + AllBytes(done + PointerItems(compactPointers[..i]))
      {
        ghost var before := done + PointerItems(compactPointers[..i]);
        r := r + PutPointer(compactPointers[i]);
        OneMoreItem(before, Pointer(compactPointers[i].0, compactPointers[i].1));
        assert done + PointerItems(compactPointers[..i + 1]) == before + [Pointer(compactPointers[i].0, compactPointers[i].1)];
      }
      assert compactPointers[..|compactPointers|] == compactPointers;
      done := done + PointerItems(compactPointers);
      var deleted := EncodeDeleted(deletedFiles);
      r := r + deleted;
      BytesOfBoth(done, DeletedItems(deletedFiles));
      done := done + DeletedItems(deletedFiles);
      assert done + AddedItems(newFiles[..0]) == done;
      for i := 0 to |newFiles|
        invariant r == dst + AllBytes(done + AddedItems(newFiles[..i]))
      {
        ghost var before := done + AddedItems(newFiles[..i]);
        r := r + PutNewFile(newFiles[i]);
        OneMoreItem(before, Added(newFiles[i].0, newFiles[i].1));
        assert done + AddedItems(newFiles[..i + 1]) == before + [Added(newFiles[i].0, newFiles[i].1)];
      }
      assert newFiles[..|newFiles|] == newFiles;
    }

    // The parts that are there, each after its tag.
    method EncodeHead() returns (r: Bytes)
      ensures r == AllBytes(Head(Contents()))
    {
      hide AllBytes, Head, Slice, Varint, PutTagged;
      r := if comparator.Some? then PutTagged(COMPARATOR, Slice(comparator.value)) else [];
      r := r + PutNumber(LOG_NUMBER, logNumber);
      r := r + PutNumber(PREV_LOG_NUMBER, prevLogNumber);
      r := r + PutNumber(NEXT_FILE_NUMBER, nextFileNumber);
      r := r + PutNumber(LAST_SEQUENCE, lastSequence);
      HeadBytes(Contents());
    }

    method DecodeFrom(src: Bytes) returns (ok: bool)
      modifies this
      ensures var r := Decoded(old(Contents()), src); (ok <==> r.Some?) && (ok ==> Contents() == r.value)
    {
      hide GetVarint32, GetVarint64, GetSlice, GetLevel, GetMeta;
      Clear();
      var pos := 0;
      while pos < |src|
        invariant pos <= |src|
        invariant Decoded(old(Contents()), src) == DecodeItems(src, pos, Contents())
      {
        ghost var item := GetItem(src, pos);
        var tag := GetVarint32(src, pos);
        if tag.Failed? {
          return false;  // invalid tag
        }
        pos := tag.next;
        if tag.value == COMPARATOR {
          var name := GetSlice(src, pos);
          if name.Failed? { return false; }
          comparator, pos := Some(name.value), name.next;
        } else if tag.value == LOG_NUMBER {
          var n := GetVarint64(src, pos);
          if n.Failed? { return false; }
          logNumber, pos := Some(n.value), n.next;
        } else if tag.value == PREV_LOG_NUMBER {
          var n := GetVarint64(src, pos);
          if n.Failed? { return false; }
          prevLogNumber, pos := Some(n.value), n.next;
        } else if tag.value == NEXT_FILE_NUMBER {
          var n := GetVarint64(src, pos);
          if n.Failed? { return false; }
          nextFileNumber, pos := Some(n.value), n.next;
        } else if tag.value == LAST_SEQUENCE {
          var n := GetVarint64(src, pos);
          if n.Failed? { return false; }
          lastSequence, pos := Some(n.value), n.next;
        } else if tag.value == COMPACT_POINTER {
          var level := GetLevel(src, pos);
          if level.Failed? { return false; }
          var key := GetSlice(src, level.next);
          if key.Failed? { return false; }
          compactPointers, pos := compactPointers + [(level.value, key.value)], key.next;
        } else if tag.value == DELETED_FILE {
          var level := GetLevel(src, pos);
          if level.Failed? { return false; }
          var n := GetVarint64(src, level.next);
          if n.Failed? { return false; }
          deletedFiles, pos := deletedFiles + {(level.value, n.value)}, n.next;
        } else if tag.value == NEW_FILE {
          var level := GetLevel(src, pos);
          if level.Failed? { return false; }
          var f := GetMeta(src, level.next);
          if f.Failed? { return false; }
          newFiles, pos := newFiles + [(level.value, f.value)], f.next;
        } else {
          return false;  // unknown tag
        }
      }
      ok := true;
    }
  }

  function PutTagged(tag: nat, rest: Bytes): Bytes {
    Varint(tag) + rest
  }

  function PutNumber(tag: nat, n: Option<nat>): Bytes {
    if n.Some? then PutTagged(tag, Varint(n.value)) else []
  }

  function PutPointer(p: (nat, Bytes)): Bytes {
    PutTagged(COMPACT_POINTER, Varint(p.0) + Slice(p.1))
  }

  function PutNewFile(f: (nat, Meta)): Bytes {
    PutTagged(NEW_FILE, Varint(f.0) + MetaBytes(f.1))
  }

  // From the least pair to the greatest.
  method EncodeDeleted(files: set<(nat, nat)>) returns (r: Bytes)
    ensures r == AllBytes(DeletedItems(files))
  {
    hide ItemBytes;
    r := [];
    var rest := files;
    while rest != {}
      invariant r + AllBytes(DeletedItems(rest)) == AllBytes(DeletedItems(files))
      decreases rest
    {
      LeastExists(rest);
      var d :| d in rest && forall x | x in rest && x != d :: PairBefore(d, x);
      LeastIs(rest, d);
      r := r + PutTagged(DELETED_FILE, Varint(d.0) + Varint(d.1));
      DeletedStep(rest);
      rest := rest - {d};
    }
  }

  lemma LeastIs(s: set<(nat, nat)>, d: (nat, nat))
    requires s != {} && IsLeast(d, s)
    ensures Least(s) == d
  {
    var e := Least(s);
    assert d != e ==> PairBefore(d, e);
    assert d != e ==> PairBefore(e, d);
  }

  lemma DeletedStep(s: set<(nat, nat)>)
    requires s != {}
    ensures var d := Least(s);
      && ItemBytes(Deleted(d.0, d.1)) == PutTagged(DELETED_FILE, Varint(d.0) + Varint(d.1))
      && AllBytes(DeletedItems(s)) == ItemBytes(Deleted(d.0, d.1)) + AllBytes(DeletedItems(s - {d}))
  {
    var d := Least(s);
    assert DeletedItems(s)[1..] == DeletedItems(s - {d});
  }

  lemma {:induction false} BytesOfBoth(a: seq<Item>, b: seq<Item>)
    ensures AllBytes(a + b) == AllBytes(a) + AllBytes(b)
  {
    hide ItemBytes;
    if a == [] {
      assert a + b == b;
    } else {
      assert (a + b)[1..] == a[1..] + b;
      BytesOfBoth(a[1..], b);
    }
  }

  lemma OneMoreItem(items: seq<Item>, i: Item)
    ensures AllBytes(items + [i]) == AllBytes(items) + ItemBytes(i)
    ensures i.Pointer? ==> ItemBytes(i) == PutPointer((i.level, i.key))
    ensures i.Added? ==> ItemBytes(i) == PutNewFile((i.level, i.meta))
  {
    BytesOfBoth(items, [i]);
    assert [i][1..] == [] && ItemBytes(i) + [] == ItemBytes(i);
  }

  lemma PartBytes(some: bool, i: Item)
    ensures AllBytes(if some then [i] else []) == if some then ItemBytes(i) else []
  {
    hide ItemBytes;
    assert [i][1..] == [] && ItemBytes(i) + [] == ItemBytes(i);
  }

  lemma NumberBytes(tag: nat, n: Option<nat>, i: Item)
    requires n.Some? ==> i == NumberItem(tag, n.value)
    requires tag in {LOG_NUMBER, PREV_LOG_NUMBER, NEXT_FILE_NUMBER, LAST_SEQUENCE}
    ensures AllBytes(if n.Some? then [i] else []) == PutNumber(tag, n)
  {
    hide AllBytes, Varint;
    PartBytes(n.Some?, i);
  }

  lemma HeadBytes(r: Record)
    ensures AllBytes(Head(r))
         == (if r.comparator.Some? then PutTagged(COMPARATOR, Slice(r.comparator.value)) else [])
            + PutNumber(LOG_NUMBER, r.logNumber) + PutNumber(PREV_LOG_NUMBER, r.prevLogNumber)
            + PutNumber(NEXT_FILE_NUMBER, r.nextFile) + PutNumber(LAST_SEQUENCE, r.lastSequence)
  {
    hide AllBytes, PutNumber, Slice, Varint;
    var a := if r.comparator.Some? then [Comparator(r.comparator.value)] else [];
    var b := if r.logNumber.Some? then [LogNumber(r.logNumber.value)] else [];
    var c := if r.prevLogNumber.Some? then [PrevLogNumber(r.prevLogNumber.value)] else [];
    var d := if r.nextFile.Some? then [NextFile(r.nextFile.value)] else [];
    var e := if r.lastSequence.Some? then [LastSequence(r.lastSequence.value)] else [];
    PartBytes(r.comparator.Some?, Comparator(if r.comparator.Some? then r.comparator.value else []));
    NumberBytes(LOG_NUMBER, r.logNumber, LogNumber(NumberOf(r.logNumber)));
    NumberBytes(PREV_LOG_NUMBER, r.prevLogNumber, PrevLogNumber(NumberOf(r.prevLogNumber)));
    NumberBytes(NEXT_FILE_NUMBER, r.nextFile, NextFile(NumberOf(r.nextFile)));
    NumberBytes(LAST_SEQUENCE, r.lastSequence, LastSequence(NumberOf(r.lastSequence)));
    BytesOfBoth(a + b + c + d, e);
    BytesOfBoth(a + b + c, d);
    BytesOfBoth(a + b, c);
    BytesOfBoth(a, b);
  }
}
