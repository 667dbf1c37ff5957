/** What the reader makes of a file that is damaged, said about its bytes: whatever comes back stands in the
    file with the right checksum, and a fragment that is broken takes the rest of its block with it. */
module LogDamage {
  import opened Sequences
  import opened LogFormat
  import opened LogReader
  import opened LogRecovery

  // A fragment at its place in a file.
  datatype Placed = Placed(start: nat, kind: Byte, payload: Bytes) {
    function End(): nat {
      start + HEADER + |payload|
    }
  }

  // The length that the header at o gives.
  function LengthAt(file: Bytes, o: nat): nat
    requires o + HEADER <= |file|
  {
    file[o + 4] as int + 256 * file[o + 5] as int
  }

  // The checksum in the header is that of the type byte and the payload.
  ghost predicate ChecksumFits(c: Checksum, file: Bytes, o: nat)
    requires o + HEADER <= |file| && o + HEADER + LengthAt(file, o) <= |file|
  {
    c.unmask(DecodeFixed32(file[o..o + 4])) == c.value(file[o + 6..o + HEADER + LengthAt(file, o)])
  }

  // The bytes of the fragment are there, inside one block, and their checksum is right.
  ghost predicate Stands(c: Checksum, file: Bytes, f: Placed) {
    && f.End() <= |file| && f.start % 32768 + HEADER + |f.payload| <= 32768
    && LengthAt(file, f.start) == |f.payload| && file[f.start + 6] == f.kind
    && file[f.start + HEADER..f.End()] == f.payload
    && ChecksumFits(c, file, f.start)
  }

  // Each follows the one before at once, or after the trailer of the block.
  ghost predicate InARow(fs: seq<Placed>) {
    forall i | 0 <= i < |fs| - 1 :: fs[i + 1].start == NextStart(fs[i].End())
  }

  function Joined(fs: seq<Placed>): Bytes {
    if fs == [] then [] else Joined(fs[..|fs| - 1]) + fs[|fs| - 1].payload
  }

  // The beginning of a record: one fragment of type 2, and others of type 3.
  ghost predicate Opens(c: Checksum, file: Bytes, fs: seq<Placed>) {
    && (forall i | 0 <= i < |fs| :: Stands(c, file, fs[i]) && fs[i].kind == if i == 0 then 2 else 3)
    && InARow(fs)
  }

  // The fragments of a whole record: one of type 1, or one of type 2, others of type 3, and one of type 4.
  ghost predicate MakesUp(c: Checksum, file: Bytes, fs: seq<Placed>, data: Bytes) {
    && fs != [] && InARow(fs) && Joined(fs) == data
    && (forall i | 0 <= i < |fs| :: Stands(c, file, fs[i]))
    && if |fs| == 1 then fs[0].kind == 1 else
         && fs[0].kind == 2 && fs[|fs| - 1].kind == 4
         && forall i | 0 < i < |fs| - 1 :: fs[i].kind == 3
  }

  // The end of the block of q, or of the file if that comes first.
  function EndOfBlock(file: Bytes, q: nat): (r: nat)
    ensures q <= |file| ==> q <= r <= |file|
  {
    var end := (q / 32768 + 1) * 32768;
    if end < |file| then end else |file|
  }

  lemma BlockOf(file: Bytes, q: nat)
    ensures EndOfBlock(file, q) == Limit(|file|, q)
    ensures q - Offset(q) + BLOCK == (q / 32768 + 1) * 32768
  {
  }

  lemma PartOf(file: Bytes, q: nat, end: nat, i: nat, j: nat)
    requires q <= end <= |file| && i <= j <= end - q
    ensures file[q..end][i..j] == file[q + i..q + j]
  {
    var a, b := file[q..end][i..j], file[q + i..q + j];
    assert |a| == |b| && forall k | 0 <= k < |a| :: a[k] == b[k];
  }

  // What is at a position, said about the bytes there.
  lemma ScanBytes(c: Checksum, file: Bytes, at: nat)
    requires NextStart(at) + HEADER <= |file|
    ensures var q := NextStart(at);
      var end, length, kind := EndOfBlock(file, q), LengthAt(file, q), file[q + 6];
      Scan(c, file, at)
      == if q + HEADER + length > end then
           (if end == (q / 32768 + 1) * 32768 then Bad(end, [Drop(end - q, BadRecordLength)]) else LogReader.End)
         else if kind == 0 && length == 0 then Bad(end, [])
         else if !ChecksumFits(c, file, q) then Bad(end, [Drop(end - q, ChecksumMismatch)])
         else Piece(kind, file[q + HEADER..q + HEADER + length], q, q + HEADER + length)
  {
    hide DecodeFixed32, NextStart, EndOfBlock, Limit;
    var q := NextStart(at);
    BlockOf(file, q);
    var end, length := EndOfBlock(file, q), LengthAt(file, q);
    StartInBlockFits(file, q, at);
    var buffer := file[q..end];
    HeaderOf(file, q, end);
    if HEADER + length <= |buffer| {
      PartOf(file, q, end, 0, 4);
      PartOf(file, q, end, 6, HEADER + length);
      PartOf(file, q, end, HEADER, HEADER + length);
      assert buffer[..4] == buffer[0..4];
    }
  }

  lemma HeaderOf(file: Bytes, q: nat, end: nat)
    requires q + HEADER <= end <= |file|
    ensures var buffer := file[q..end];
      buffer[4] == file[q + 4] && buffer[5] == file[q + 5] && buffer[6] == file[q + 6]
      && Pair(buffer[4], buffer[5]) == LengthAt(file, q)
  {
  }

  // ----- what comes back stands in the file -----

  lemma PieceStands(c: Checksum, file: Bytes, at: nat)
    requires Scan(c, file, at).Piece?
    ensures var i := Scan(c, file, at);
      var f := Placed(i.start, i.kind, i.payload);
      Stands(c, file, f) && f.start == NextStart(at) && i.next == f.End()
  {
    hide Scan, NextStart, ChecksumFits;
    var q := NextStart(at);
    if q + HEADER <= |file| {
      ScanBytes(c, file, at);
      StartInBlock(file, q);
    } else {
      NoScan(c, file, at);
    }
  }

  lemma StartInBlock(file: Bytes, q: nat)
    requires q + HEADER <= |file|
    ensures EndOfBlock(file, q) - q <= 32768 - q % 32768
  {
  }

  lemma NoScan(c: Checksum, file: Bytes, at: nat)
    requires NextStart(at) + HEADER > |file|
    ensures Scan(c, file, at) == LogReader.End
  {
  }

  // The fragments read so far make up the record begun.
  ghost predicate Holding(c: Checksum, file: Bytes, partial: Partial, fs: seq<Placed>, at: nat) {
    if partial.Nothing? then fs == [] else
      && fs != [] && Opens(c, file, fs) && Joined(fs) == partial.scratch
      && fs[|fs| - 1].End() == at && fs[0].start == partial.offset
  }

  lemma OneMore(c: Checksum, file: Bytes, partial: Partial, fs: seq<Placed>, at: nat, f: Placed)
    requires Holding(c, file, partial, fs, at) && Stands(c, file, f) && f.start == NextStart(at)
    ensures f.kind == 2 ==> Holding(c, file, Begun(f.payload, f.start), [f], f.End())
    ensures f.kind == 1 ==> MakesUp(c, file, [f], f.payload)
    ensures partial.Begun? && f.kind == 3 ==>
      Holding(c, file, Begun(partial.scratch + f.payload, partial.offset), fs + [f], f.End())
    ensures partial.Begun? && f.kind == 4 ==> MakesUp(c, file, fs + [f], partial.scratch + f.payload)
    ensures partial.Begun? ==> fs != []
  {
    hide Stands, NextStart;
    assert [f][..0] == [];
    assert Joined([f]) == [] + f.payload == f.payload;
    assert (fs + [f])[..|fs|] == fs;
  }

  lemma ItemSound(c: Checksum, file: Bytes, lo: nat, at: nat, partial: Partial, fs: seq<Placed>) returns (gs: seq<Placed>)
    requires lo <= at && Holding(c, file, partial, fs, at) && (fs != [] ==> lo <= fs[0].start)
    ensures gs != [] ==> lo <= gs[0].start
    ensures var item := Scan(c, file, at);
      match Feed(partial, item)
      case Go(more, _) => Holding(c, file, more, gs, After(item, |file|))
      case Done(record, _) => record.Record? ==>
        && gs != [] && MakesUp(c, file, gs, record.data)
        && gs[0].start == record.offset && gs[|gs| - 1].End() == After(item, |file|)
  {
    hide Scan, Stands, MakesUp, Opens, Joined, NextStart;
    var item := Scan(c, file, at);
    gs := [];
    if item.Piece? {
      PieceStands(c, file, at);
      var f := Placed(item.start, item.kind, item.payload);
      OneMore(c, file, partial, fs, at, f);
      gs := match item.kind
        case 1 => [f]
        case 2 => [f]
        case 3 => if partial.Begun? then fs + [f] else []
        case 4 => if partial.Begun? then fs + [f] else []
        case _ => [];
    }
  }

  lemma {:induction false} RecordSound(c: Checksum, file: Bytes, lo: nat, at: nat, partial: Partial, fs: seq<Placed>)
    returns (gs: seq<Placed>)
    requires lo <= at <= |file| && Holding(c, file, partial, fs, at) && (fs != [] ==> lo <= fs[0].start)
    ensures var o := Assemble(c, file, at, partial);
      o.record.Record? ==>
        && gs != [] && MakesUp(c, file, gs, o.record.data) && gs[0].start == o.record.offset && gs[|gs| - 1].End() == o.next
        && lo <= gs[0].start
    decreases |file| - at
  {
    hide Scan, Feed, Holding, MakesUp;
    gs := ItemSound(c, file, lo, at, partial, fs);
    var item := Scan(c, file, at);
    var p := Feed(partial, item);
    if p.Go? {
      gs := RecordSound(c, file, lo, item.next, p.partial, gs);
    }
  }

  // The places of some records, one after the other from position lo on.
  ghost predicate MakeUpAll(c: Checksum, file: Bytes, lo: nat, places: seq<seq<Placed>>, records: seq<Bytes>) {
    && |places| == |records|
    && (forall j | 0 <= j < |records| :: MakesUp(c, file, places[j], records[j]) && lo <= places[j][0].start)
    && forall j | 0 <= j < |records| - 1 :: places[j][|places[j]| - 1].End() <= places[j + 1][0].start
  }

  // Whatever the file, every record that comes back is made up of fragments that stand in it one after the
  // other, each inside a block and with the right checksum; and no two records share a byte.
  lemma {:induction false} RecordsStand(c: Checksum, file: Bytes, at: nat) returns (places: seq<seq<Placed>>)
    requires at <= |file|
    ensures MakeUpAll(c, file, at, places, AllRecords(c, file, at).0)
    decreases |file| - at
  {
    hide Assemble, MakesUp, AllRecords;
    NextRecord(c, file, at);
    var o := Assemble(c, file, at, Nothing);
    if o.record.NoMore? {
      places := [];
    } else {
      var fs := RecordSound(c, file, at, at, Nothing, []);
      var rest := RecordsStand(c, file, o.next);
      places := [fs] + rest;
      FirstPlace(c, file, at, o.next, fs, o.record.data, rest, AllRecords(c, file, o.next).0);
    }
  }

  lemma NotEmpty(c: Checksum, file: Bytes, fs: seq<Placed>, data: Bytes)
    requires MakesUp(c, file, fs, data)
    ensures fs != []
  {
  }

  lemma FirstPlace(c: Checksum, file: Bytes, lo: nat, next: nat, fs: seq<Placed>, data: Bytes,
                   rest: seq<seq<Placed>>, records: seq<Bytes>)
    requires fs != [] && MakesUp(c, file, fs, data) && lo <= fs[0].start && fs[|fs| - 1].End() == next >= lo
    requires MakeUpAll(c, file, next, rest, records)
    ensures MakeUpAll(c, file, lo, [fs] + rest, [data] + records)
  {
    hide MakesUp;
    var places: seq<seq<Placed>>, all: seq<Bytes> := [fs] + rest, [data] + records;
    forall j | 0 <= j < |rest| ensures rest[j] != [] {
      assert MakesUp(c, file, rest[j], records[j]);
      NotEmpty(c, file, rest[j], records[j]);
    }
    assert forall j | 0 <= j < |all| :: places[j] != [];
    forall j | 0 <= j < |all| ensures MakesUp(c, file, places[j], all[j]) && lo <= places[j][0].start {
      if j > 0 {
        assert places[j] == rest[j - 1] && all[j] == records[j - 1];
        assert MakesUp(c, file, rest[j - 1], records[j - 1]);
      }
    }
    forall j | 0 <= j < |all| - 1 ensures places[j][|places[j]| - 1].End() <= places[j + 1][0].start {
      assert places[j + 1] == rest[j] && MakesUp(c, file, rest[j], records[j]);
      if j > 0 {
        assert places[j] == rest[j - 1];
      }
    }
  }

  // ----- broken fragments -----

  // A header whose length stays in the block; one of zeros is something else.
  ghost predicate HasFragment(file: Bytes, q: nat) {
    && q + HEADER <= |file| && q + HEADER + LengthAt(file, q) <= EndOfBlock(file, q)
    && (file[q + 6] != 0 || LengthAt(file, q) > 0)
  }

  lemma StartsInside(file: Bytes, q: nat)
    requires HasFragment(file, q)
    ensures q + HEADER <= |file|
  {
  }

  lemma BrokenScan(c: Checksum, file: Bytes, at: nat)
    requires var q := NextStart(at); HasFragment(file, q) && !ChecksumFits(c, file, q)
    ensures var q := NextStart(at);
      var end := EndOfBlock(file, q);
      Scan(c, file, at) == Bad(end, [Drop(end - q, ChecksumMismatch)])
  {
    hide Scan, NextStart, ChecksumFits, EndOfBlock;
    ScanBytes(c, file, at);
  }

  // A broken item is passed over, and what it says is reported.
  lemma PassedOver(c: Checksum, file: Bytes, at: nat, next: nat, drops: seq<Drop>)
    requires at <= |file| && Scan(c, file, at) == Bad(next, drops)
    ensures at < next <= |file|
    ensures AllRecords(c, file, at) == (AllRecords(c, file, next).0, drops + AllRecords(c, file, next).1)
  {
    hide Scan;
    var o := Assemble(c, file, next, Nothing);
    assert Assemble(c, file, at, Nothing) == Prepend(drops + [], o);
    assert drops + [] == drops;
    NextRecord(c, file, at);
    NextRecord(c, file, next);
    if o.record.Record? {
      assert drops + o.drops + AllRecords(c, file, o.next).1 == drops + (o.drops + AllRecords(c, file, o.next).1);
    }
  }

  // Behind any log, what follows a broken item is read as if nothing had been there.
  lemma BehindLog(c: Checksum, records: seq<Bytes>, file: Bytes, next: nat, drops: seq<Drop>)
    requires c.Lawful() && Holds(file, 0, LogOf(c, records)) && Scan(c, file, |LogOf(c, records)|) == Bad(next, drops)
    ensures |LogOf(c, records)| < next <= |file|
    ensures var rest := AllRecords(c, file, next);
      AllRecords(c, file, 0) == (records + rest.0, drops + rest.1)
  {
    hide LogOf, Scan, AllRecords;
    assert records[..0] == [] && records[0..] == records;
    NoRecords(c);
    RecordsBefore(c, records, file, 0);
    PassedOver(c, file, |LogOf(c, records)|, next, drops);
  }

  // A fragment with a wrong checksum: nothing of the rest of its block comes back, exactly that rest is
  // reported, and reading goes on with the next block.
  lemma WrongChecksumDropsBlock(c: Checksum, records: seq<Bytes>, file: Bytes)
    requires c.Lawful() && Holds(file, 0, LogOf(c, records))
    requires var q := NextStart(|LogOf(c, records)|); HasFragment(file, q) && !ChecksumFits(c, file, q)
    ensures var q := NextStart(|LogOf(c, records)|);
      var end := EndOfBlock(file, q);
      var rest := AllRecords(c, file, end);
      AllRecords(c, file, 0) == (records + rest.0, [Drop(end - q, ChecksumMismatch)] + rest.1)
  {
    hide LogOf, Scan, AllRecords, NextStart, HasFragment, ChecksumFits;
    var q := NextStart(|LogOf(c, records)|);
    assert q <= |file| by { StartsInside(file, q); }
    BrokenScan(c, file, |LogOf(c, records)|);
    BehindLog(c, records, file, EndOfBlock(file, q), [Drop(EndOfBlock(file, q) - q, ChecksumMismatch)]);
  }

  // With a length that goes past its block, likewise.
  lemma WrongLengthDropsBlock(c: Checksum, records: seq<Bytes>, file: Bytes)
    requires c.Lawful() && Holds(file, 0, LogOf(c, records))
    requires var q := NextStart(|LogOf(c, records)|);
      var end := (q / 32768 + 1) * 32768;
      end <= |file| && q + HEADER + LengthAt(file, q) > end
    ensures var q := NextStart(|LogOf(c, records)|);
      var end := (q / 32768 + 1) * 32768;
      var rest := AllRecords(c, file, end);
      AllRecords(c, file, 0) == (records + rest.0, [Drop(end - q, BadRecordLength)] + rest.1)
  {
    hide LogOf, AllRecords, Scan, NextStart;
    var q := NextStart(|LogOf(c, records)|);
    var end := EndOfBlock(file, q);
    ScanBytes(c, file, |LogOf(c, records)|);
    BehindLog(c, records, file, end, [Drop(end - q, BadRecordLength)]);
  }

  // Past the end of the file, the writer died: nothing more comes back, and nothing is reported.
  lemma WrongLengthEndsFile(c: Checksum, records: seq<Bytes>, file: Bytes)
    requires c.Lawful() && Holds(file, 0, LogOf(c, records))
    requires var q := NextStart(|LogOf(c, records)|);
      q + HEADER <= |file| < (q / 32768 + 1) * 32768 && q + HEADER + LengthAt(file, q) > |file|
    ensures AllRecords(c, file, 0) == (records, [])
  {
    hide LogOf, AllRecords, Scan, NextStart;
    var at := |LogOf(c, records)|;
    ScanBytes(c, file, at);
    AssembleEnd(c, file, at, Nothing);
    NextRecord(c, file, at);
    assert records[..0] == [] && records[0..] == records && records + [] == records;
    NoRecords(c);
    RecordsBefore(c, records, file, 0);
  }

  lemma StartInBlockFits(file: Bytes, q: nat, at: nat)
    requires q == NextStart(at) && q + HEADER <= |file|
    ensures q + HEADER <= EndOfBlock(file, q)
  {
  }

  // Space that was laid out in advance is skipped up to the end of the block, in silence.
  lemma ZerosAreSkipped(c: Checksum, records: seq<Bytes>, file: Bytes)
    requires c.Lawful() && Holds(file, 0, LogOf(c, records))
    requires var q := NextStart(|LogOf(c, records)|);
      q + HEADER <= |file| && file[q + 6] == 0 && LengthAt(file, q) == 0
    ensures var rest := AllRecords(c, file, EndOfBlock(file, NextStart(|LogOf(c, records)|)));
      AllRecords(c, file, 0) == (records + rest.0, rest.1)
  {
    hide LogOf, AllRecords, Scan, NextStart;
    var q := NextStart(|LogOf(c, records)|);
    var end := EndOfBlock(file, q);
    ScanBytes(c, file, |LogOf(c, records)|);
    StartInBlockFits(file, q, |LogOf(c, records)|);
    BehindLog(c, records, file, end, []);
    assert [] + AllRecords(c, file, end).1 == AllRecords(c, file, end).1;
  }

  // One byte that changes in a fragment is found out: nothing comes back, and all 8 bytes are reported.
  lemma ChangedByteIsFound(c: Checksum)
    requires c.Lawful() && c.value([1, 8]) != c.value([1, 9])
    ensures var file := Physical(c, FULL, [9]); AllRecords(c, file[7 := 8], 0) == ([], [Drop(8, ChecksumMismatch)])
  {
    hide EncodeFixed32, DecodeFixed32, AllRecords;
    var good := Physical(c, FULL, [9]);
    var file := good[7 := 8];
    var code := EncodeFixed32(c.mask(c.value([1, 9])));
    assert [FULL] + [9] == [1, 9];
    assert file[0..4] == code;
    assert file[6..8] == [1, 8];
    NoRecords(c);
    WrongChecksumDropsBlock(c, [], file);
    NothingAtTheEnd(c, file);
    assert [Drop(8, ChecksumMismatch)] + [] == [Drop(8, ChecksumMismatch)];
  }

  // ----- good fragments out of place -----

  // A file of two fragments, with the bytes 7, 7 and 8.
  function TwoParts(c: Checksum, kind: Byte, kind2: Byte): Bytes {
    Physical(c, kind, [7, 7]) + Physical(c, kind2, [8])
  }

  lemma TwoAreRead(c: Checksum, kind: Byte, kind2: Byte)
    requires c.Lawful() && kind > 0 && kind2 > 0
    ensures var file := TwoParts(c, kind, kind2);
      && |file| == 17 && Scan(c, file, 0) == Piece(kind, [7, 7], 0, 9) && Scan(c, file, 9) == Piece(kind2, [8], 9, 17)
      && (forall p :: Assemble(c, file, 17, p) == Outcome(NoMore, 17, []))
      && AllRecords(c, file, 17) == ([], [])
  {
    hide Physical, Scan, AllRecords;
    TwoFragments(c, kind, [7, 7], kind2, [8]);
    var file := TwoParts(c, kind, kind2);
    forall p ensures Assemble(c, file, 17, p) == Outcome(NoMore, 17, []) {
      AssembleEnd(c, file, 17, p);
    }
    NothingAtTheEnd(c, file);
  }

  // Without its first fragment, a part is dropped with a report.
  lemma PartsWithoutStart(c: Checksum)
    requires c.Lawful()
    ensures AllRecords(c, TwoParts(c, 3, 4), 0) == ([], [Drop(2, MissingStart), Drop(1, MissingStart)])
  {
    hide TwoParts, Scan, AllRecords;
    var file := TwoParts(c, 3, 4);
    TwoAreRead(c, 3, 4);
    assert Assemble(c, file, 9, Nothing) == Outcome(NoMore, 17, [Drop(1, MissingStart)]);
    assert Assemble(c, file, 0, Nothing) == Outcome(NoMore, 17, [Drop(2, MissingStart), Drop(1, MissingStart)]);
    NextRecord(c, file, 0);
  }

  // So is a record begun when another one starts.
  lemma PartWithoutEnd(c: Checksum)
    requires c.Lawful()
    ensures AllRecords(c, TwoParts(c, 2, 1), 0) == ([[8]], [Drop(2, PartialRecordWithoutEnd)])
  {
    hide TwoParts, Scan, AllRecords;
    var file := TwoParts(c, 2, 1);
    TwoAreRead(c, 2, 1);
    assert Assemble(c, file, 9, Begun([7, 7], 0)) == Outcome(Record([8], 9), 17, [Drop(2, PartialRecordWithoutEnd)]);
    assert Assemble(c, file, 0, Nothing) == Outcome(Record([8], 9), 17, [Drop(2, PartialRecordWithoutEnd)]);
    NextRecord(c, file, 0);
    assert [[8]] + [] == [[8]] && [Drop(2, PartialRecordWithoutEnd)] + [] == [Drop(2, PartialRecordWithoutEnd)];
  }

  lemma PartsThatFit(c: Checksum)
    requires c.Lawful()
    ensures AllRecords(c, TwoParts(c, 2, 4), 0) == ([[7, 7, 8]], [])
  {
    hide TwoParts, Scan, AllRecords;
    var file := TwoParts(c, 2, 4);
    TwoAreRead(c, 2, 4);
    assert [7, 7] + [8] == [7, 7, 8];
    assert Assemble(c, file, 9, Begun([7, 7], 0)) == Outcome(Record([7, 7, 8], 0), 17, []);
    assert Assemble(c, file, 0, Nothing) == Outcome(Record([7, 7, 8], 0), 17, []);
    NextRecord(c, file, 0);
    assert [[7, 7, 8]] + [] == [[7, 7, 8]];
  }

  // And when what follows is broken, or of an unknown type; that is dropped with it.
  lemma ErrorBehindPart(c: Checksum)
    requires c.Lawful()
    ensures AllRecords(c, TwoParts(c, 2, 6), 0) == ([], [Drop(2, ErrorInMiddle)])
    ensures AllRecords(c, TwoParts(c, 2, 9), 0) == ([], [Drop(3, UnknownType(9))])
  {
    hide TwoParts, Scan, AllRecords;
    var broken, unknown := TwoParts(c, 2, 6), TwoParts(c, 2, 9);
    TwoAreRead(c, 2, 6);
    TwoAreRead(c, 2, 9);
    assert Assemble(c, broken, 9, Begun([7, 7], 0)) == Outcome(NoMore, 17, [Drop(2, ErrorInMiddle)]);
    assert Assemble(c, unknown, 9, Begun([7, 7], 0)) == Outcome(NoMore, 17, [Drop(3, UnknownType(9))]);
    assert Assemble(c, broken, 0, Nothing) == Outcome(NoMore, 17, [Drop(2, ErrorInMiddle)]);
    assert Assemble(c, unknown, 0, Nothing) == Outcome(NoMore, 17, [Drop(3, UnknownType(9))]);
    NextRecord(c, broken, 0);
    NextRecord(c, unknown, 0);
  }
}
