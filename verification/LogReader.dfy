/** The log reader: reads the file block by block, checks each fragment and puts the records back
    together.  It must give the records of any file, whole, truncated or damaged; the two functions
    Scan and Assemble say what it finds without blocks and buffers. */
module LogReader {
  import opened Sequences
  import opened LogFormat

  datatype Reason =
    | BadRecordLength
    | ChecksumMismatch
    | PartialRecordWithoutEnd
    | MissingStart
    | ErrorInMiddle
    | UnknownType(kind: Byte)

  // What is reported to the reporter.
  datatype Drop = Drop(bytes: nat, reason: Reason)

  // What is at a position: a fragment with the right checksum, a broken one, or nothing more.
  datatype Item =
    | Piece(kind: Byte, payload: Bytes, start: nat, next: nat)
    | Bad(next: nat, drops: seq<Drop>)
    | End

  // kEof and kBadRecord go on with the numbers of the record types, and the type byte of a fragment is
  // passed on as it is: with 5 or 6 in it, a fragment is taken for the end or for a broken one.
  const EOF_TYPE: Byte := 5
  const BAD_TYPE: Byte := 6

  // The type that ReadPhysicalRecord returns.
  function TypeOf(item: Item): Byte {
    match item
    case Piece(kind, _, _, _) => kind
    case Bad(_, _) => BAD_TYPE
    case End => EOF_TYPE
  }

  // Where to look next.
  function After(item: Item, length: nat): nat {
    if item.End? then length else item.next
  }

  // The end of the block of q, or of the file.
  function Limit(length: nat, q: nat): nat {
    var block := q - Offset(q) + BLOCK;
    if block < length then block else length
  }

  // The first item of a buffer that starts at position q of the file; the rest of its block is all
  // there, or the file ends before the block does.
  function Examine(c: Checksum, buffer: Bytes, q: nat, wholeBlock: bool): (i: Item)
    requires |buffer| >= HEADER
    ensures i.Piece? || i.Bad? ==> q + HEADER <= i.next <= q + |buffer|
  {
    var length, kind := Pair(buffer[4], buffer[5]), buffer[6];
    if HEADER + length > |buffer| then
      if wholeBlock then Bad(q + |buffer|, [Drop(|buffer|, BadRecordLength)]) else End
    else if kind == ZERO_TYPE && length == 0 then
      Bad(q + |buffer|, [])
    else if c.value(buffer[6..HEADER + length]) != c.unmask(DecodeFixed32(buffer[..4])) then
      Bad(q + |buffer|, [Drop(|buffer|, ChecksumMismatch)])
    else
      Piece(kind, buffer[HEADER..HEADER + length], q, q + HEADER + length)
  }

  // The item at position `at` of a file.
  function Scan(c: Checksum, file: Bytes, at: nat): (i: Item)
    ensures i.Piece? || i.Bad? ==> at + HEADER <= i.next <= |file|
  {
    var q := NextStart(at);
    if q + HEADER > |file| then End else
      var limit := Limit(|file|, q);
      Examine(c, file[q..limit], q, limit == q - Offset(q) + BLOCK)
  }

  // A record found, the offset of its first fragment, the position after it, and the drops.
  datatype Outcome = Outcome(record: Found, next: nat, drops: seq<Drop>)
  datatype Found = Record(data: Bytes, offset: nat) | NoMore

  // The fragments of a record read so far.
  datatype Partial = Nothing | Begun(scratch: Bytes, offset: nat)

  function ScratchSize(p: Partial): nat {
    if p.Begun? then |p.scratch| else 0
  }

  // What one more item makes of a partial record: go on, or done.
  datatype Progress = Go(partial: Partial, drops: seq<Drop>) | Done(record: Found, drops: seq<Drop>)

  function Feed(partial: Partial, item: Item): (p: Progress)
    ensures TypeOf(item) == EOF_TYPE <==> p == Done(NoMore, [])
    ensures p.Done? ==> !item.Bad? && (p.record.NoMore? <==> TypeOf(item) == EOF_TYPE)
  {
    var unfinished := if ScratchSize(partial) > 0 then [Drop(ScratchSize(partial), PartialRecordWithoutEnd)] else [];
    var kind := TypeOf(item);
    if kind == EOF_TYPE then
      Done(NoMore, [])
    else if kind == BAD_TYPE then
      Go(Nothing, if partial.Begun? then [Drop(|partial.scratch|, ErrorInMiddle)] else [])
    else
      var Piece(_, payload, start, _) := item;
      if kind == FULL then
        Done(Record(payload, start), unfinished)
      else if kind == FIRST then
        Go(Begun(payload, start), unfinished)
      else if kind == MIDDLE || kind == LAST then
        if partial.Nothing? then Go(Nothing, [Drop(|payload|, MissingStart)])
        else if kind == MIDDLE then Go(Begun(partial.scratch + payload, partial.offset), [])
        else Done(Record(partial.scratch + payload, partial.offset), [])
      else
        Go(Nothing, [Drop(|payload| + ScratchSize(partial), UnknownType(kind))])
  }

  // ----- where the bytes go -----

  function PayloadSize(item: Item): nat {
    if item.Piece? then |item.payload| else 0
  }

  // In the record that is begun, or in the one that comes out.
  function ProgressSize(p: Progress): nat {
    if p.Go? then ScratchSize(p.partial) else RecordSize(p.record)
  }

  function RecordSize(record: Found): nat {
    if record.Record? then |record.data| else 0
  }

  // The bytes of whole fragments that could not be made part of a record.
  function Undelivered(drops: seq<Drop>): nat {
    if drops == [] then 0
    else Undelivered(drops[..|drops| - 1]) + if OfReassembly(drops[|drops| - 1].reason) then drops[|drops| - 1].bytes else 0
  }

  predicate OfReassembly(reason: Reason) {
    reason.PartialRecordWithoutEnd? || reason.ErrorInMiddle? || reason.MissingStart? || reason.UnknownType?
  }

  lemma OneDrop(d: Drop)
    ensures Undelivered([d]) == if OfReassembly(d.reason) then d.bytes else 0
  {
    assert [d][..0] == [];
  }

  // What is dropped without a word: the payload of a fragment taken for a broken one, and the payload of
  // one taken for the end together with the record begun before it.
  function Mislaid(partial: Partial, item: Item): nat {
    if !item.Piece? then 0
    else if item.kind == EOF_TYPE then ScratchSize(partial) + |item.payload|
    else if item.kind == BAD_TYPE then |item.payload|
    else 0
  }

  lemma FeedConserves(partial: Partial, item: Item)
    requires !item.End?
    ensures var p := Feed(partial, item);
      ScratchSize(partial) + PayloadSize(item) == ProgressSize(p) + Undelivered(p.drops) + Mislaid(partial, item)
  {
    hide Undelivered;
    var p := Feed(partial, item);
    if p.drops == [] {
      NoDrops();
    } else {
      assert p.drops == [p.drops[0]];
      OneDrop(p.drops[0]);
    }
  }

  lemma NoDrops()
    ensures Undelivered([]) == 0
  {
  }

  // The next record of a file, from position `at` on.
  function Assemble(c: Checksum, file: Bytes, at: nat, partial: Partial): (o: Outcome)
    requires at <= |file|
    ensures o.next <= |file| && (o.record.Record? ==> at < o.next)
    decreases |file| - at
  {
    var item := Scan(c, file, at);
    match Feed(partial, item)
    case Done(record, drops) => Outcome(record, After(item, |file|), drops)
    case Go(more, drops) => Prepend(Reported(item) + drops, Assemble(c, file, item.next, more))
  }

  // What has been reported with the item itself.
  function Reported(item: Item): seq<Drop> {
    if item.Bad? then item.drops else []
  }

  function Prepend(drops: seq<Drop>, o: Outcome): Outcome {
    o.(drops := drops + o.drops)
  }

  class Reader {
    const checksum: Checksum
    const file: Bytes
    var filePos: nat   // how much of the file has been read; end_of_buffer_offset_
    var buffer: Bytes
    var eof: bool      // the last read got less than a block
    var lastRecordOffset: nat
    var drops: seq<Drop>

    // The position of the next byte to look at.
    ghost function At(): nat
      reads `filePos, `buffer
    {
      if |buffer| <= filePos then filePos - |buffer| else 0
    }

    ghost predicate Valid()
      reads `filePos, `buffer, `eof
    {
      && |buffer| <= filePos && Holds(file, At(), buffer)
      && if eof then filePos == |file| && |buffer| <= Offset(filePos) else Offset(filePos) == 0 && |buffer| <= BLOCK
    }

    ghost predicate InFile()
      reads `filePos, `buffer
    {
      At() <= |file|
    }

    constructor (checksum: Checksum, file: Bytes)
      ensures Valid() && At() == 0 && drops == [] && lastRecordOffset == 0
      ensures this.checksum == checksum && this.file == file
    {
      this.checksum, this.file := checksum, file;
      filePos, buffer, eof, lastRecordOffset, drops := 0, [], false, 0, [];
    }

    // Reads the next block, or what is left of the file.
    method ReadBlock()
      requires Valid() && !eof && |buffer| < HEADER
      modifies this`filePos, this`buffer, this`eof
      ensures Valid() && At() == old(filePos)
      ensures filePos == Limit(|file|, old(filePos)) && eof == (filePos < old(filePos) + BLOCK)
    {
      var end := if filePos + BLOCK < |file| then filePos + BLOCK else |file|;
      buffer := file[filePos..end];
      eof := |buffer| < BLOCK;
      BlockEnds(filePos, end);
      filePos := end;
    }

    // Gets a header into the buffer, skipping a trailer, unless the file ends before.
    method FillHeader() returns (more: bool)
      requires Valid()
      modifies this`filePos, this`buffer, this`eof
      ensures Valid()
      ensures more == (NextStart(old(At())) + HEADER <= |file|)
      ensures more ==> At() == NextStart(old(At())) && |buffer| >= HEADER && Limit(|file|, At()) == filePos
      ensures more ==> eof == (filePos < At() - Offset(At()) + BLOCK)
      ensures !more ==> At() == |file|
    {
      hide NextStart, Limit;
      ghost var at := At();
      while |buffer| < HEADER
        invariant Valid() && NextStart(At()) == NextStart(at)
        decreases |file| - filePos, !eof
      {
        if eof {
          // a truncated header at the end of the file is no error
          buffer := [];
          return false;
        }
        // the last read was a full one, so this is a trailer to skip
        TrailerEnds(At(), filePos);
        ReadBlock();
      }
      BufferInBlock(|file|, At(), filePos, !eof);
      return true;
    }

    method ReadPhysicalRecord() returns (i: Item)
      requires Valid()
      modifies this`filePos, this`buffer, this`eof, this`drops
      ensures Valid() && i == Scan(checksum, file, old(At()))
      ensures At() == After(i, |file|)
      ensures drops == old(drops) + Reported(i)
    {
      hide NextStart, Limit, Examine;
      var more := FillHeader();
      if more {
        assert buffer == file[At()..filePos];
        assert Scan(checksum, file, old(At())) == Examine(checksum, buffer, At(), !eof);
        i := TakeFragment();
      } else {
        i := End;
      }
    }

    // The buffer without its first bytes.
    method RemovePrefix(n: nat)
      requires Valid() && n <= |buffer|
      modifies this`buffer
      ensures Valid() && buffer == old(buffer)[n..] && At() == old(At()) + n
    {
      HoldsPart(file, At(), buffer, n, |buffer|);
      buffer := buffer[n..];
    }

    lemma InFileIsKnown()
      requires Valid()
      ensures |buffer| <= filePos && (eof ==> filePos == |file|)
    {
    }

    method TakeFragment() returns (i: Item)
      requires Valid() && |buffer| >= HEADER
      modifies this`buffer, this`drops
      ensures Valid() && i == Examine(checksum, old(buffer), old(At()), !eof)
      ensures At() == After(i, |file|)
      ensures drops == old(drops) + Reported(i)
    {
      hide Valid, DecodeFixed32, Pair;
      InFileIsKnown();
      var length, kind := Pair(buffer[4], buffer[5]), buffer[6];
      if HEADER + length > |buffer| {
        var dropSize := |buffer|;
        RemovePrefix(|buffer|);
        if eof {
          return End;  // the writer died in the middle of the record
        }
        i := Bad(filePos, [Drop(dropSize, BadRecordLength)]);
        drops := drops + i.drops;
        return;
      }
      if kind == ZERO_TYPE && length == 0 {
        RemovePrefix(|buffer|);
        return Bad(filePos, []);
      }
      var expected := checksum.unmask(DecodeFixed32(buffer[..4]));
      var actual := checksum.value(buffer[6..HEADER + length]);
      if actual != expected {
        // the length may be damaged too, so nothing of the rest can be trusted
        var dropSize := |buffer|;
        RemovePrefix(|buffer|);
        i := Bad(filePos, [Drop(dropSize, ChecksumMismatch)]);
        drops := drops + i.drops;
        return;
      }
      i := Piece(kind, buffer[HEADER..HEADER + length], filePos - |buffer|, filePos - |buffer| + HEADER + length);
      RemovePrefix(HEADER + length);
    }

    // A record, or none when the file has no more.
    method ReadRecord() returns (record: Found)
      requires Valid()
      modifies this
      ensures Valid()
      ensures var o := Assemble(checksum, file, old(At()), Nothing);
        && record == o.record && At() == o.next && drops == old(drops) + o.drops
        && lastRecordOffset == if record.Record? then record.offset else old(lastRecordOffset)
    {
      assert InFile();
      hide Scan, Valid, At, Assemble, Feed, Continues, After, Reported, Undelivered, Mislaid;
      var partial := Nothing;
      ghost var whole := Assemble(checksum, file, At(), partial);
      ContinuesItself(drops, whole);
      while true
        invariant Valid() && InFile() && lastRecordOffset == old(lastRecordOffset)
        invariant Continues(drops, Assemble(checksum, file, At(), partial), old(drops), whole)
        decreases |file| - At()
      {
        AssembleStep(checksum, file, At(), partial, drops, old(drops), whole);
        var progress := ReadAndAccept(partial);
        if progress.Done? {
          return progress.record;
        }
        partial := progress.partial;
      }
    }

    // One round: the next item, and what it makes of the record begun.
    method ReadAndAccept(partial: Partial) returns (p: Progress)
      requires Valid()
      modifies this
      ensures Valid() && p == Feed(partial, Scan(checksum, file, old(At())))
      ensures At() == After(Scan(checksum, file, old(At())), |file|)
      ensures drops == old(drops) + Reported(Scan(checksum, file, old(At()))) + p.drops
      ensures lastRecordOffset == if p.Done? && p.record.Record? then p.record.offset else old(lastRecordOffset)
    {
      hide Scan, Valid, At, Feed, After, Reported, Undelivered, Mislaid;
      var item := ReadPhysicalRecord();
      p := Accept(partial, item);
    }

    // Makes what it can of an item: every byte begun or coming with the item goes on, comes out, is
    // reported, or is mislaid.
    method Accept(partial: Partial, item: Item) returns (p: Progress)
      modifies this`drops, this`lastRecordOffset
      ensures !item.End? ==>
        ScratchSize(partial) + PayloadSize(item) == ProgressSize(p) + Undelivered(p.drops) + Mislaid(partial, item)
      ensures p == Feed(partial, item)
      ensures drops == old(drops) + p.drops
      ensures lastRecordOffset == if p.Done? && p.record.Record? then p.record.offset else old(lastRecordOffset)
    {
      if !item.End? {
        FeedConserves(partial, item);
      }
      var kind := TypeOf(item);
      if kind == EOF_TYPE {
        return Done(NoMore, []);  // the writer died before the record was complete, or so it seems
      }
      if kind == BAD_TYPE {
        p := Go(Nothing, []);
        if partial.Begun? {
          p := Go(Nothing, [Drop(|partial.scratch|, ErrorInMiddle)]);
        }
        drops := drops + p.drops;
        return;
      }
      var payload, start := item.payload, item.start;
      var unfinished := [];
      if ScratchSize(partial) > 0 {
        unfinished := [Drop(ScratchSize(partial), PartialRecordWithoutEnd)];
      }
      if kind == FULL {
        p := Done(Record(payload, start), unfinished);
        lastRecordOffset := start;
      } else if kind == FIRST {
        p := Go(Begun(payload, start), unfinished);
      } else if kind == MIDDLE {
        if partial.Nothing? {
          p := Go(Nothing, [Drop(|payload|, MissingStart)]);
        } else {
          p := Go(Begun(partial.scratch + payload, partial.offset), []);
        }
      } else if kind == LAST {
        if partial.Nothing? {
          p := Go(Nothing, [Drop(|payload|, MissingStart)]);
        } else {
          p := Done(Record(partial.scratch + payload, partial.offset), []);
          lastRecordOffset := partial.offset;
        }
      } else {
        p := Go(Nothing, [Drop(|payload| + ScratchSize(partial), UnknownType(kind))]);
      }
      drops := drops + p.drops;
    }
  }

  // Having reported `now`, what is still to come is what was to come of the whole.
  ghost predicate Continues(now: seq<Drop>, rest: Outcome, before: seq<Drop>, whole: Outcome) {
    rest.record == whole.record && rest.next == whole.next && now + rest.drops == before + whole.drops
  }

  lemma ContinuesItself(now: seq<Drop>, whole: Outcome)
    ensures Continues(now, whole, now, whole)
  {
  }

  lemma AssembleStep(c: Checksum, file: Bytes, at: nat, partial: Partial, now: seq<Drop>, before: seq<Drop>, whole: Outcome)
    requires at <= |file| && Continues(now, Assemble(c, file, at, partial), before, whole)
    ensures var item := Scan(c, file, at);
      var p := Feed(partial, item);
      var reported := now + Reported(item) + p.drops;
      if p.Done? then
        p.record == whole.record && reported == before + whole.drops && whole.next == After(item, |file|)
      else
        && at < After(item, |file|) <= |file|
        && Continues(reported, Assemble(c, file, After(item, |file|), p.partial), before, whole)
  {
    hide Scan, Feed;
  }

  lemma BufferInBlock(length: nat, at: nat, end: nat, wholeBlock: bool)
    requires at + HEADER <= end <= length
    requires if wholeBlock then Offset(end) == 0 && end - at <= BLOCK else end == length && end - at <= Offset(end)
    ensures NextStart(at) == at && Limit(length, at) == end
    ensures if wholeBlock then at - Offset(at) + BLOCK == end else at - Offset(at) + BLOCK > end
  {
  }

  lemma BlockEnds(p: nat, end: nat)
    requires Offset(p) == 0 && p <= end <= p + BLOCK
    ensures end < p + BLOCK ==> Offset(end) == end - p
    ensures end == p + BLOCK ==> Offset(end) == 0
  {
  }

  lemma TrailerEnds(at: nat, end: nat)
    requires at <= end < at + HEADER && Offset(end) == 0
    ensures NextStart(at) == end == NextStart(end)
  {
  }
}
