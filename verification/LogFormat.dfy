/** The log file format: blocks of 32768 bytes, in which every record is laid out as one or more
    fragments that never cross a block. */
module LogFormat {
  import opened Sequences

  type Word = x: nat | x < 0x1_0000_0000

  const BLOCK: nat := 32768
  const HEADER: nat := 7

  const ZERO_TYPE: Byte := 0
  const FULL: Byte := 1
  const FIRST: Byte := 2
  const MIDDLE: Byte := 3
  const LAST: Byte := 4

  // The offset of a position in its block.
  function Offset(p: nat): (o: nat)
    ensures o < BLOCK && o <= p
  {
    p % 32768
  }

  // crc32c, of which the log needs no more than these two laws.
  datatype Checksum = Checksum(value: Bytes -> Word, extend: (Word, Bytes) -> Word, mask: Word -> Word, unmask: Word -> Word) {
    ghost predicate Lawful() {
      && (forall a, b :: extend(value(a), b) == value(a + b))
      && (forall w :: unmask(mask(w)) == w)
    }
  }

  // Low byte first.
  function EncodeFixed32(w: Word): (r: Bytes)
    ensures |r| == 4 && DecodeFixed32(r) == w
  {
    var low, high := w % 0x1_0000, w / 0x1_0000;
    [low % 0x100, low / 0x100, high % 0x100, high / 0x100]
  }

  function Pair(low: Byte, high: Byte): (n: nat)
    ensures n <= 0xffff
  {
    low as int + 0x100 * high as int
  }

  function DecodeFixed32(b: Bytes): Word
    requires |b| == 4
  {
    Pair(b[0], b[1]) + 0x1_0000 * Pair(b[2], b[3])
  }

  // The place of the next fragment: the last six bytes of a block are never the start of one.
  function NextStart(p: nat): (q: nat)
    ensures q >= p && BLOCK - Offset(q) >= HEADER
  {
    if BLOCK - Offset(p) < HEADER then p + (BLOCK - Offset(p)) else p
  }

  function Room(q: nat): nat
    requires BLOCK - Offset(q) >= HEADER
  {
    BLOCK - Offset(q) - HEADER
  }

  function KindOf(begin: bool, end: bool): Byte {
    if begin then (if end then FULL else FIRST) else (if end then LAST else MIDDLE)
  }

  function Physical(c: Checksum, kind: Byte, payload: Bytes): (r: Bytes)
    requires |payload| <= 0xffff
    ensures |r| == HEADER + |payload|
  {
    EncodeFixed32(c.mask(c.value([kind] + payload))) + [|payload| % 0x100, |payload| / 0x100, kind] + payload
  }

  // How many bytes of the record go into the fragment at q.
  function Fitting(q: nat, data: Bytes): (n: nat)
    requires BLOCK - Offset(q) >= HEADER
    ensures n <= |data| && n <= Room(q) <= 0xffff
  {
    if |data| < Room(q) then |data| else Room(q)
  }

  // The next fragment of a record, with the trailer before it.
  function Fragment(c: Checksum, p: nat, data: Bytes, begin: bool): (r: Bytes)
    ensures |r| == NextStart(p) - p + HEADER + Fitting(NextStart(p), data)
  {
    var q := NextStart(p);
    var n := Fitting(q, data);
    Zeros(q - p) + Physical(c, KindOf(begin, n == |data|), data[..n])
  }

  // What is left of a record, written at position p of the file.
  function Laid(c: Checksum, p: nat, data: Bytes, begin: bool): (r: Bytes)
    ensures |r| >= HEADER
    decreases |data|, if Room(NextStart(p)) == 0 then 1 else 0
  {
    var q := NextStart(p);
    var n := Fitting(q, data);
    if n == |data| then Fragment(c, p, data, begin) else
      FillsBlock(q);
      Fragment(c, p, data, begin) + Laid(c, q + HEADER + n, data[n..], false)
  }

  // A fragment without room ends its block, so the next one has room.
  lemma FillsBlock(q: nat)
    requires BLOCK - Offset(q) >= HEADER
    ensures Offset(q + HEADER + Room(q)) == 0
    ensures Room(NextStart(q + HEADER + Room(q))) > 0
  {
    assert q + HEADER + Room(q) == (q / BLOCK + 1) * BLOCK;
  }

  // The whole log of some records.
  function LogOf(c: Checksum, records: seq<Bytes>): (r: Bytes) {
    if records == [] then [] else
      var before := LogOf(c, records[..|records| - 1]);
      before + Laid(c, |before|, records[|records| - 1], true)
  }

  // How many of the records are whole in the first n bytes of their log.
  function Complete(c: Checksum, records: seq<Bytes>, n: nat): (k: nat)
    ensures k <= |records|
  {
    if records == [] || |LogOf(c, records)| <= n then |records| else Complete(c, records[..|records| - 1], n)
  }

  lemma {:induction false} LogGrows(c: Checksum, records: seq<Bytes>, j: nat)
    requires j <= |records|
    ensures LogOf(c, records[..j]) <= LogOf(c, records)
    ensures j < |records| ==> |LogOf(c, records[..j])| < |LogOf(c, records)|
  {
    hide Laid;
    if j < |records| {
      var init := records[..|records| - 1];
      assert init[..j] == records[..j];
      LogGrows(c, init, j);
    } else {
      assert records[..j] == records;
    }
  }

  // A record is complete exactly when its last byte is there.
  lemma {:induction false} CompleteMeans(c: Checksum, records: seq<Bytes>, n: nat, j: nat)
    requires j <= |records|
    ensures j <= Complete(c, records, n) <==> |LogOf(c, records[..j])| <= n
  {
    hide Laid;
    LogGrows(c, records, j);
    if records != [] && |LogOf(c, records)| > n {
      if j < |records| {
        var init := records[..|records| - 1];
        assert init[..j] == records[..j];
        CompleteMeans(c, init, n, j);
      } else {
        assert records[..j] == records;
      }
    }
  }

  // ----- the bytes themselves -----

  // Low byte first.
  lemma FixedBytes()
    ensures EncodeFixed32(0x04030201) == [1, 2, 3, 4]
  {
    assert 0x04030201 % 0x1_0000 == 0x0201 && 0x04030201 / 0x1_0000 == 0x0403;
  }

  // What is left of a block that has no room for a header is filled with zeros.
  lemma TrailerIsZero(c: Checksum, p: nat, data: Bytes, begin: bool, i: nat)
    requires p + i < NextStart(p)
    ensures i < |Laid(c, p, data, begin)| && Laid(c, p, data, begin)[i] == 0
  {
    hide Physical;
  }
}
