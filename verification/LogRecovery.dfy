/** What the reader recovers from a log, whole or cut off anywhere. */
module LogRecovery {
  import opened Sequences
  import opened LogFormat
  import opened LogReader

  // All records of a file from `at` on, and all drops.
  function AllRecords(c: Checksum, file: Bytes, at: nat): (r: (seq<Bytes>, seq<Drop>))
    requires at <= |file|
    decreases |file| - at
  {
    var o := Assemble(c, file, at, Nothing);
    if o.record.NoMore? then ([], o.drops) else
      var rest := AllRecords(c, file, o.next);
      ([o.record.data] + rest.0, o.drops + rest.1)
  }

  // One record further.
  lemma NextRecord(c: Checksum, file: Bytes, at: nat)
    requires at <= |file|
    ensures var o := Assemble(c, file, at, Nothing);
      AllRecords(c, file, at)
      == if o.record.NoMore? then ([], o.drops)
         else ([o.record.data] + AllRecords(c, file, o.next).0, o.drops + AllRecords(c, file, o.next).1)
  {
    hide Assemble;
  }

  // And with what came before.
  lemma RecordsFrom(c: Checksum, file: Bytes, at: nat, records: seq<Bytes>, drops: seq<Drop>)
    requires at <= |file|
    ensures var o, all := Assemble(c, file, at, Nothing), AllRecords(c, file, at);
      if o.record.NoMore? then records + all.0 == records && drops + all.1 == drops + o.drops
      else
        && records + all.0 == records + [o.record.data] + AllRecords(c, file, o.next).0
        && drops + all.1 == drops + o.drops + AllRecords(c, file, o.next).1
  {
    hide Assemble, AllRecords;
    NextRecord(c, file, at);
  }

  // Replays a log file from its beginning.
  method ReadAll(c: Checksum, file: Bytes) returns (records: seq<Bytes>, drops: seq<Drop>)
    ensures (records, drops) == AllRecords(c, file, 0)
  {
    hide AllRecords, Assemble, Reader.Valid;
    var reader := new Reader(c, file);
    records := [];
    while true
      invariant fresh(reader) && reader.Valid() && reader.InFile() && reader.checksum == c && reader.file == file
      invariant AllRecords(c, file, 0).0 == records + AllRecords(c, file, reader.At()).0
      invariant AllRecords(c, file, 0).1 == reader.drops + AllRecords(c, file, reader.At()).1
      decreases |file| - reader.At()
    {
      RecordsFrom(c, file, reader.At(), records, reader.drops);
      var found := reader.ReadRecord();
      if found.NoMore? {
        break;
      }
      records := records + [found.data];
    }
    drops := reader.drops;
  }

  // ----- what becomes of the bytes -----

  // The payload bytes of all good fragments from `at` on.
  function Payloads(c: Checksum, file: Bytes, at: nat): nat
    decreases |file| - at
  {
    var item := Scan(c, file, at);
    if item.End? then 0 else PayloadSize(item) + Payloads(c, file, item.next)
  }

  // The size of the record that is begun when the file ends.
  function Unfinished(c: Checksum, file: Bytes, at: nat, partial: Partial): nat
    decreases |file| - at
  {
    var item := Scan(c, file, at);
    if item.End? then ScratchSize(partial)
    else if TypeOf(item) == EOF_TYPE then 0
    else Unfinished(c, file, item.next, Onward(partial, item))
  }

  // What is begun after an item.
  function Onward(partial: Partial, item: Item): Partial {
    var p := Feed(partial, item);
    if p.Go? then p.partial else Nothing
  }

  // All that is lost without a word: what single items mislay, and whatever comes after one taken for the end.
  function Lost(c: Checksum, file: Bytes, at: nat, partial: Partial): nat
    decreases |file| - at
  {
    var item := Scan(c, file, at);
    if item.End? then 0 else
      Mislaid(partial, item)
      + if TypeOf(item) == EOF_TYPE then Payloads(c, file, item.next) else Lost(c, file, item.next, Onward(partial, item))
  }

  function TotalSize(records: seq<Bytes>): nat {
    if records == [] then 0 else |records[0]| + TotalSize(records[1..])
  }

  lemma {:induction false} UndeliveredAdds(a: seq<Drop>, b: seq<Drop>)
    ensures Undelivered(a + b) == Undelivered(a) + Undelivered(b)
  {
    if b == [] {
      assert a + b == a;
    } else {
      var n := |b| - 1;
      assert (a + b)[..|a + b| - 1] == a + b[..n] && (a + b)[|a + b| - 1] == b[n];
      UndeliveredAdds(a, b[..n]);
    }
  }

  // What the scan itself reports are broken fragments.
  lemma ReportedIsBroken(c: Checksum, file: Bytes, at: nat)
    ensures Undelivered(Reported(Scan(c, file, at))) == 0
  {
    hide DecodeFixed32;
    var drops := Reported(Scan(c, file, at));
    if drops != [] {
      assert drops == [drops[0]];
      OneDrop(drops[0]);
    }
  }

  lemma {:induction false} AssembleConserves(c: Checksum, file: Bytes, at: nat, partial: Partial)
    requires at <= |file|
    ensures var o := Assemble(c, file, at, partial);
      var later := if o.record.Record? then Lost(c, file, o.next, Nothing) + Unfinished(c, file, o.next, Nothing) else 0;
      ScratchSize(partial) + Payloads(c, file, at) + later
      == Undelivered(o.drops) + Lost(c, file, at, partial) + Unfinished(c, file, at, partial)
         + if o.record.Record? then |o.record.data| + Payloads(c, file, o.next) else 0
    decreases |file| - at
  {
    hide Scan, Feed, Undelivered, Mislaid;
    var item := Scan(c, file, at);
    if item.End? {
      NoDrops();
      assert Mislaid(partial, item) == 0 by { EndMislaysNothing(partial); }
    } else {
      var p := Feed(partial, item);
      FeedConserves(partial, item);
      if p.Go? {
        AssembleConserves(c, file, item.next, p.partial);
        ReportedIsBroken(c, file, at);
        UndeliveredAdds(Reported(item) + p.drops, Assemble(c, file, item.next, p.partial).drops);
        UndeliveredAdds(Reported(item), p.drops);
      }
    }
  }

  lemma EndMislaysNothing(partial: Partial)
    ensures Mislaid(partial, End) == 0
  {
  }

  // Every payload byte of a good fragment, in any file, is in a record that comes back, in a drop that is
  // reported, in the record that the end of the file leaves unfinished, or lost.
  lemma {:induction false} BytesAreAccountedFor(c: Checksum, file: Bytes, at: nat)
    requires at <= |file|
    ensures var (records, drops) := AllRecords(c, file, at);
      Payloads(c, file, at)
      == TotalSize(records) + Undelivered(drops) + Unfinished(c, file, at, Nothing) + Lost(c, file, at, Nothing)
    decreases |file| - at
  {
    hide Assemble, Payloads, Unfinished, Undelivered, Lost;
    AssembleConserves(c, file, at, Nothing);
    var o := Assemble(c, file, at, Nothing);
    if o.record.Record? {
      BytesAreAccountedFor(c, file, o.next);
      var rest := AllRecords(c, file, o.next);
      UndeliveredAdds(o.drops, rest.1);
      assert ([o.record.data] + rest.0)[1..] == rest.0;
    }
  }

  // ----- when nothing is lost -----

  // The items that a reader looks at, up to the first it takes for the end.
  function Reached(c: Checksum, file: Bytes, at: nat): (items: seq<Item>)
    ensures |items| > 0 && TypeOf(items[|items| - 1]) == EOF_TYPE
    decreases |file| - at
  {
    var item := Scan(c, file, at);
    if TypeOf(item) == EOF_TYPE then [item] else [item] + Reached(c, file, item.next)
  }

  // The record begun after some items.
  function Held(items: seq<Item>, partial: Partial): Partial {
    if items == [] then partial else Held(items[1..], Onward(partial, items[0]))
  }

  // No fragment of type 6 has a payload, and if a fragment of type 5 is taken for the end, no byte is in it,
  // before it in a record begun, or behind it.
  ghost predicate TypesDoNoHarm(c: Checksum, file: Bytes, items: seq<Item>, partial: Partial)
    requires items != []
  {
    var n := |items| - 1;
    && (forall i | 0 <= i < n && items[i].Piece? && items[i].kind == BAD_TYPE :: items[i].payload == [])
    && (items[n].Piece? ==>
          items[n].payload == [] && ScratchSize(Held(items[..n], partial)) == 0 && Payloads(c, file, items[n].next) == 0)
  }

  lemma HarmOfFirst(c: Checksum, file: Bytes, item: Item, rest: seq<Item>, partial: Partial)
    requires rest != [] && TypeOf(item) != EOF_TYPE
    ensures TypesDoNoHarm(c, file, [item] + rest, partial)
        <==> Mislaid(partial, item) == 0 && TypesDoNoHarm(c, file, rest, Onward(partial, item))
  {
    hide Feed, Payloads, Onward, Held;
    var items, n := [item] + rest, |rest| - 1;
    assert items[..n + 1] == [item] + rest[..n] && ([item] + rest[..n])[1..] == rest[..n];
    HeldStep(item, rest[..n], partial);
    assert items[0] == item && items[n + 1] == rest[n];
    if TypesDoNoHarm(c, file, items, partial) {
      forall i | 0 <= i < n && rest[i].Piece? && rest[i].kind == BAD_TYPE ensures rest[i].payload == [] {
        assert items[i + 1] == rest[i];
      }
    }
  }

  lemma HeldStep(item: Item, rest: seq<Item>, partial: Partial)
    ensures Held([item] + rest, partial) == Held(rest, Onward(partial, item))
  {
    hide Onward;
    assert ([item] + rest)[1..] == rest;
  }

  lemma {:induction false} LostIsHarm(c: Checksum, file: Bytes, at: nat, partial: Partial)
    ensures Lost(c, file, at, partial) == 0 <==> TypesDoNoHarm(c, file, Reached(c, file, at), partial)
    decreases |file| - at
  {
    hide Scan, Feed, Onward, Payloads;
    var item := Scan(c, file, at);
    if TypeOf(item) == EOF_TYPE {
      assert [item][..0] == [];
    } else {
      LostIsHarm(c, file, item.next, Onward(partial, item));
      HarmOfFirst(c, file, item, Reached(c, file, item.next), partial);
    }
  }

  // No payload byte of a good fragment vanishes (each is in a record that comes back, in a drop that is
  // reported, or in the record that the end of the file leaves unfinished) if and only if no fragment that
  // is reached has type 5 or 6 with bytes to lose.
  lemma NothingVanishes(c: Checksum, file: Bytes, at: nat)
    requires at <= |file|
    ensures var (records, drops) := AllRecords(c, file, at);
      Payloads(c, file, at) == TotalSize(records) + Undelivered(drops) + Unfinished(c, file, at, Nothing)
      <==> TypesDoNoHarm(c, file, Reached(c, file, at), Nothing)
  {
    hide AllRecords, Payloads, Unfinished, Undelivered, Lost, TypesDoNoHarm, Reached;
    BytesAreAccountedFor(c, file, at);
    LostIsHarm(c, file, at, Nothing);
  }

  // The records that are whole in the first n bytes.
  function CompleteRecords(c: Checksum, records: seq<Bytes>, n: nat): seq<Bytes> {
    records[..Complete(c, records, n)]
  }

  // ----- a log that was cut off -----

  lemma ExaminePhysical(c: Checksum, buffer: Bytes, q: nat, wholeBlock: bool, kind: Byte, payload: Bytes)
    requires c.Lawful() && kind > 0 && |payload| <= 0xffff && |buffer| >= HEADER
    requires forall i | 0 <= i < |buffer| && i < HEADER + |payload| :: buffer[i] == Physical(c, kind, payload)[i]
    requires wholeBlock ==> HEADER + |payload| <= |buffer|
    ensures Examine(c, buffer, q, wholeBlock)
         == if HEADER + |payload| <= |buffer| then Piece(kind, payload, q, q + HEADER + |payload|) else End
  {
    hide EncodeFixed32, DecodeFixed32;
    var p := Physical(c, kind, payload);
    var code := EncodeFixed32(c.mask(c.value([kind] + payload)));
    assert p[..4] == code;
    assert buffer[..4] == code;
    assert buffer[4] == p[4] && buffer[5] == p[5] && buffer[6] == p[6];
    assert Pair(buffer[4], buffer[5]) == |payload|;
    if HEADER + |payload| <= |buffer| {
      assert p[6..] == [kind] + payload;
      assert buffer[6..HEADER + |payload|] == p[6..];
      assert buffer[HEADER..HEADER + |payload|] == payload;
    }
  }

  lemma ScanPhysical(c: Checksum, whole: Bytes, n: nat, at: nat, kind: Byte, payload: Bytes)
    requires c.Lawful() && kind > 0 && n <= |whole| && |payload| <= Room(NextStart(at)) <= 0xffff
    requires Holds(whole, NextStart(at), Physical(c, kind, payload))
    ensures var q := NextStart(at);
      Scan(c, whole[..n], at)
      == if q + HEADER + |payload| <= n then Piece(kind, payload, q, q + HEADER + |payload|) else End
  {
    hide Examine, Physical;
    var q := NextStart(at);
    if q + HEADER <= n {
      var limit := Limit(n, q);
      ExaminePhysical(c, whole[..n][q..limit], q, limit == q - Offset(q) + BLOCK, kind, payload);
    }
  }

  lemma LaidParts(c: Checksum, at: nat, data: Bytes, begin: bool)
    ensures var q := NextStart(at);
      var k := Fitting(q, data);
      var laid, next := Laid(c, at, data, begin), q + HEADER + k;
      && next - at <= |laid| && laid[q - at..next - at] == Physical(c, KindOf(begin, k == |data|), data[..k])
      && if k == |data| then |laid| == next - at else laid[next - at..] == Laid(c, next, data[k..], false)
  {
    hide Physical, NextStart;
  }

  // The next fragment of a record, cut off anywhere.
  lemma ScanLaid(c: Checksum, whole: Bytes, n: nat, at: nat, data: Bytes, begin: bool)
    requires c.Lawful() && at <= n <= |whole| && Holds(whole, at, Laid(c, at, data, begin))
    ensures var q := NextStart(at);
      var k := Fitting(q, data);
      var next := q + HEADER + k;
      && Scan(c, whole[..n], at)
         == (if next <= n then Piece(KindOf(begin, k == |data|), data[..k], q, next) else End)
      && if k == |data| then at + |Laid(c, at, data, begin)| == next else
           && Holds(whole, next, Laid(c, next, data[k..], false))
           && at + |Laid(c, at, data, begin)| == next + |Laid(c, next, data[k..], false)|
  {
    hide Scan, Physical, NextStart, Holds, Laid, Fitting;
    LaidParts(c, at, data, begin);
    var q := NextStart(at);
    var k := Fitting(q, data);
    var kind, payload, next := KindOf(begin, k == |data|), data[..k], q + HEADER + k;
    var laid := Laid(c, at, data, begin);
    HoldsPart(whole, at, laid, q - at, next - at);
    ScanPhysical(c, whole, n, at, kind, payload);
    if k < |data| {
      var rest := Laid(c, next, data[k..], false);
      HoldsPart(whole, at, laid, next - at, |laid|);
      assert laid[next - at..|laid|] == rest;
    }
  }

  // A fragment where it belongs completes the record or brings it forward, without any drops.
  lemma FeedFragment(partial: Partial, begin: bool, end: bool, payload: Bytes, start: nat, next: nat)
    requires begin <==> partial.Nothing?
    ensures Feed(partial, Piece(KindOf(begin, end), payload, start, next))
         == if end then Done(if begin then Record(payload, start) else Record(partial.scratch + payload, partial.offset), [])
            else Go(if begin then Begun(payload, start) else Begun(partial.scratch + payload, partial.offset), [])
  {
  }

  // The record so far, with one more fragment.
  function Extended(partial: Partial, payload: Bytes, start: nat): Partial {
    if partial.Nothing? then Begun(payload, start) else Begun(partial.scratch + payload, partial.offset)
  }

  lemma AssemblePiece(c: Checksum, file: Bytes, at: nat, partial: Partial, end: bool, payload: Bytes, start: nat, next: nat)
    requires at < next <= |file| && Scan(c, file, at) == Piece(KindOf(partial.Nothing?, end), payload, start, next)
    ensures var all := Extended(partial, payload, start);
      Assemble(c, file, at, partial)
      == if end then Outcome(Record(all.scratch, all.offset), next, []) else Assemble(c, file, next, all)
  {
    hide Scan, Feed;
    FeedFragment(partial, partial.Nothing?, end, payload, start, next);
  }

  lemma AssembleEnd(c: Checksum, file: Bytes, at: nat, partial: Partial)
    requires at <= |file| && Scan(c, file, at) == End
    ensures Assemble(c, file, at, partial) == Outcome(NoMore, |file|, [])
  {
    hide Scan;
  }

  lemma AssembledOnward(at: nat, next: nat, data: Bytes, k: nat, partial: Partial)
    requires k <= |data|
    ensures Assembled(next, data[k..], Extended(partial, data[..k], NextStart(at))) == Assembled(at, data, partial)
    ensures k == |data| ==>
      var all := Extended(partial, data[..k], NextStart(at)); Record(all.scratch, all.offset) == Assembled(at, data, partial)
  {
    hide NextStart;
    assert data[..k] + data[k..] == data;
    if partial.Begun? {
      assert partial.scratch + data[..k] + data[k..] == partial.scratch + data;
    }
  }

  // The fragments of one record, cut off anywhere.
  lemma {:induction false} AssembleLaid(c: Checksum, whole: Bytes, n: nat, at: nat, data: Bytes, begin: bool, partial: Partial)
    requires c.Lawful() && at <= n <= |whole| && Holds(whole, at, Laid(c, at, data, begin))
    requires begin <==> partial.Nothing?
    ensures var o := Assemble(c, whole[..n], at, partial);
      var end := at + |Laid(c, at, data, begin)|;
      && o.drops == []
      && o.next == (if end <= n then end else n)
      && o.record == if end <= n then Assembled(at, data, partial) else NoMore
    decreases |data|, if Room(NextStart(at)) == 0 then 1 else 0
  {
    hide Scan, Laid, NextStart, Holds, Assemble, Assembled, Extended, Checksum.Lawful;
    var q := NextStart(at);
    var k := Fitting(q, data);
    var next := q + HEADER + k;
    ScanLaid(c, whole, n, at, data, begin);
    FillsBlock(q);
    AssembledOnward(at, next, data, k, partial);
    if next > n {
      AssembleEnd(c, whole[..n], at, partial);
    } else {
      AssemblePiece(c, whole[..n], at, partial, k == |data|, data[..k], q, next);
      if k < |data| {
        ExtendedIsBegun(partial, data[..k], q);
        AssembleLaid(c, whole, n, next, data[k..], false, Extended(partial, data[..k], q));
      }
    }
  }

  lemma ExtendedIsBegun(partial: Partial, payload: Bytes, start: nat)
    ensures Extended(partial, payload, start).Begun?
  {
  }

  function Assembled(at: nat, data: Bytes, partial: Partial): Found {
    if partial.Nothing? then Record(data, NextStart(at)) else Record(partial.scratch + data, partial.offset)
  }

  // AddRecord makes the log of one more record.
  lemma LogOfOneMore(c: Checksum, records: seq<Bytes>, data: Bytes)
    ensures LogOf(c, records + [data]) == LogOf(c, records) + Laid(c, |LogOf(c, records)|, data, true)
  {
    hide Laid;
    assert (records + [data])[..|records|] == records;
  }

  lemma RecordHolds(c: Checksum, records: seq<Bytes>, j: nat)
    requires j < |records|
    ensures var at := |LogOf(c, records[..j])|;
      && Holds(LogOf(c, records), at, Laid(c, at, records[j], true))
      && |LogOf(c, records[..j + 1])| == at + |Laid(c, at, records[j], true)|
  {
    hide Laid, LogOf;
    LogGrows(c, records, j + 1);
    assert records[..j + 1] == records[..j] + [records[j]];
    LogOfOneMore(c, records[..j], records[j]);
    HoldsBoth(LogOf(c, records), 0, LogOf(c, records[..j]), Laid(c, |LogOf(c, records[..j])|, records[j], true));
  }

  lemma NothingAtTheEnd(c: Checksum, file: Bytes)
    ensures AllRecords(c, file, |file|) == ([], [])
  {
    hide Examine;
  }

  lemma {:induction false} RecoverFrom(c: Checksum, records: seq<Bytes>, n: nat, j: nat)
    requires c.Lawful() && n <= |LogOf(c, records)| && j <= Complete(c, records, n)
    requires |LogOf(c, records[..j])| <= n
    ensures AllRecords(c, LogOf(c, records)[..n], |LogOf(c, records[..j])|)
         == (records[j..Complete(c, records, n)], [])
    decreases |records| - j
  {
    hide Laid, LogOf, Assemble, Complete, Holds, AllRecords;
    var whole, k := LogOf(c, records), Complete(c, records, n);
    if j == |records| {
      assert records[..j] == records;
      assert whole[..n] == whole;
      NothingAtTheEnd(c, whole);
    } else {
      RecordHolds(c, records, j);
      var at := |LogOf(c, records[..j])|;
      AssembleLaid(c, whole, n, at, records[j], true, Nothing);
      NextRecord(c, whole[..n], at);
      CompleteMeans(c, records, n, j + 1);
      if j < k {
        RecoverFrom(c, records, n, j + 1);
        assert records[j..k] == [records[j]] + records[j + 1..k];
      } else {
        assert records[j..k] == [];
      }
    }
  }

  // However a log is cut off, exactly its complete records are recovered, in order, and nothing is
  // reported as damaged.
  lemma CrashSafe(c: Checksum, records: seq<Bytes>, n: nat)
    requires c.Lawful() && n <= |LogOf(c, records)|
    ensures AllRecords(c, LogOf(c, records)[..n], 0) == (CompleteRecords(c, records, n), [])
  {
    hide Laid;
    assert records[..0] == [];
    RecoverFrom(c, records, n, 0);
  }

  // ----- fragments taken for something else -----

  lemma SmallOffsets(p: nat)
    requires p < 100
    ensures NextStart(p) == p && Room(p) >= 100
  {
  }

  // A file of two small fragments.
  lemma TwoFragments(c: Checksum, kind: Byte, payload: Bytes, kind2: Byte, payload2: Bytes)
    requires c.Lawful() && kind > 0 && kind2 > 0 && |payload| < 40 && |payload2| < 40
    ensures var file, middle, end := Physical(c, kind, payload) + Physical(c, kind2, payload2), HEADER + |payload|,
      2 * HEADER + |payload| + |payload2|;
      && |file| == end && Scan(c, file, 0) == Piece(kind, payload, 0, middle)
      && Scan(c, file, middle) == Piece(kind2, payload2, middle, end) && Scan(c, file, end) == End
  {
    hide Physical, NextStart;
    var a, b := Physical(c, kind, payload), Physical(c, kind2, payload2);
    var file := a + b;
    SmallOffsets(0);
    SmallOffsets(|a|);
    SmallOffsets(|file|);
    HoldsBoth(file, 0, a, b);
    assert file[..|file|] == file;
    ScanPhysical(c, file, |file|, 0, kind, payload);
    ScanPhysical(c, file, |file|, |a|, kind2, payload2);
  }

  // With the right checksum and type 5, a fragment ends the file for the reader: its bytes and all that
  // follow are lost, and nothing is reported.
  lemma FragmentTakenForEnd(c: Checksum)
    requires c.Lawful()
    ensures var file := Physical(c, EOF_TYPE, [1, 2, 3]) + Physical(c, FULL, [9]);
      AllRecords(c, file, 0) == ([], []) && Payloads(c, file, 0) == 4 && Unfinished(c, file, 0, Nothing) == 0
  {
    hide Physical, Scan;
    TwoFragments(c, EOF_TYPE, [1, 2, 3], FULL, [9]);
    var file := Physical(c, EOF_TYPE, [1, 2, 3]) + Physical(c, FULL, [9]);
    assert Payloads(c, file, 18) == 0 && Payloads(c, file, 10) == 1;
  }

  // With type 6, it is skipped in silence.
  lemma FragmentTakenForBad(c: Checksum)
    requires c.Lawful()
    ensures var file := Physical(c, BAD_TYPE, [1, 2, 3]) + Physical(c, FULL, [9]);
      AllRecords(c, file, 0) == ([[9]], []) && Payloads(c, file, 0) == 4 && Unfinished(c, file, 0, Nothing) == 0
  {
    hide Physical, Scan;
    TwoFragments(c, BAD_TYPE, [1, 2, 3], FULL, [9]);
    var file := Physical(c, BAD_TYPE, [1, 2, 3]) + Physical(c, FULL, [9]);
    assert Payloads(c, file, 18) == 0 && Payloads(c, file, 10) == 1;
    assert Unfinished(c, file, 18, Nothing) == 0 && Unfinished(c, file, 10, Nothing) == 0;
    assert Assemble(c, file, 18, Nothing) == Outcome(NoMore, 18, []);
    assert Assemble(c, file, 10, Nothing) == Outcome(Record([9], 10), 18, []);
    assert Assemble(c, file, 0, Nothing) == Outcome(Record([9], 10), 18, []);
    assert AllRecords(c, file, 18) == ([], []);
    NextRecord(c, file, 0);
    assert [[9]] + [] == [[9]];
  }

  // ----- a log with anything behind it -----

  lemma {:induction false} RecordsBefore(c: Checksum, records: seq<Bytes>, file: Bytes, j: nat)
    requires c.Lawful() && j <= |records| && Holds(file, 0, LogOf(c, records))
    ensures |LogOf(c, records[..j])| <= |LogOf(c, records)| <= |file|
    ensures var rest := AllRecords(c, file, |LogOf(c, records)|);
      AllRecords(c, file, |LogOf(c, records[..j])|) == (records[j..] + rest.0, rest.1)
    decreases |records| - j
  {
    hide Laid, LogOf, Assemble, AllRecords;
    LogGrows(c, records, j);
    var rest := AllRecords(c, file, |LogOf(c, records)|);
    if j == |records| {
      assert records[..j] == records && records[j..] + rest.0 == rest.0;
    } else {
      var at, laid := |LogOf(c, records[..j])|, Laid(c, |LogOf(c, records[..j])|, records[j], true);
      RecordHolds(c, records, j);
      HoldsInside(file, 0, LogOf(c, records), at, laid);
      assert file[..|file|] == file;
      LogGrows(c, records, j + 1);
      AssembleLaid(c, file, |file|, at, records[j], true, Nothing);
      NextRecord(c, file, at);
      RecordsBefore(c, records, file, j + 1);
      assert records[j..] + rest.0 == [records[j]] + (records[j + 1..] + rest.0) && [] + rest.1 == rest.1;
    }
  }

  // Behind a log, a fragment of type 5 hides whatever follows.
  lemma HiddenBehindEnd(c: Checksum, records: seq<Bytes>, payload: Bytes, file: Bytes)
    requires c.Lawful() && Holds(file, 0, LogOf(c, records))
    requires var q := NextStart(|LogOf(c, records)|);
      |payload| <= Room(q) <= 0xffff && Holds(file, q, Physical(c, EOF_TYPE, payload))
    ensures AllRecords(c, file, 0) == (records, [])
  {
    hide LogOf, Physical, NextStart, AllRecords;
    var at := |LogOf(c, records)|;
    assert file[..|file|] == file;
    ScanPhysical(c, file, |file|, at, EOF_TYPE, payload);
    NextRecord(c, file, at);
    assert records[..0] == [] && records[0..] == records && records + [] == records;
    NoRecords(c);
    RecordsBefore(c, records, file, 0);
  }

  lemma NoRecords(c: Checksum)
    ensures LogOf(c, []) == []
  {
  }
}
