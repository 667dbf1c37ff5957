/** The log writer: splits a record into fragments and appends them. */
module LogWriter {
  import opened Sequences
  import opened LogFormat

  class Writer {
    const checksum: Checksum
    const typeCrc: seq<Word>
    var dest: Bytes
    var blockOffset: nat

    ghost predicate Valid()
      reads this
    {
      && checksum.Lawful()
      && |typeCrc| == LAST + 1 && (forall t: Byte | t <= LAST :: typeCrc[t] == checksum.value([t]))
      && blockOffset <= BLOCK && Offset(blockOffset) == Offset(|dest|)
    }

    // Continues a file that already holds `dest`.
    constructor (checksum: Checksum, dest: Bytes)
      requires checksum.Lawful()
      ensures Valid() && this.dest == dest && this.checksum == checksum
    {
      this.checksum := checksum;
      this.dest := dest;
      this.blockOffset := Offset(|dest|);
      this.typeCrc := seq(LAST + 1, t requires 0 <= t <= LAST => checksum.value([t]));
    }

    method AddRecord(data: Bytes)
      requires Valid()
      modifies this
      ensures Valid() && dest == old(dest) + Laid(checksum, |old(dest)|, data, true)
    {
      hide Laid, Fragment, Physical, NextStart, Checksum.Lawful;
      var left, begin := data, true;
      while true
        invariant Valid()
        invariant dest + Laid(checksum, |dest|, left, begin) == old(dest) + Laid(checksum, |old(dest)|, data, true)
        decreases |left|, if Room(NextStart(|dest|)) == 0 then 1 else 0
      {
        ghost var before, p := dest, |dest|;
        var leftover := BLOCK - blockOffset;
        OffsetTellsRoom(p, blockOffset);
        if leftover < HEADER {
          // switch to a new block, filling the trailer
          if leftover > 0 {
            dest := dest + Zeros(leftover);
          }
          blockOffset := 0;
        }
        assert dest == before + Zeros(NextStart(p) - p);
        var avail := BLOCK - blockOffset - HEADER;
        var length := if |left| < avail then |left| else avail;
        assert length == Fitting(NextStart(p), left);
        EmitPhysicalRecord(KindOf(begin, |left| == length), left[..length]);
        LaidStep(checksum, before, left, begin, dest);
        FillsBlock(NextStart(p));
        if |left| == length {
          return;
        }
        left := left[length..];
        begin := false;
      }
    }

    method EmitPhysicalRecord(t: Byte, payload: Bytes)
      requires Valid() && FULL <= t <= LAST && blockOffset + HEADER + |payload| <= BLOCK
      modifies this
      ensures Valid() && dest == old(dest) + Physical(checksum, t, payload)
      ensures blockOffset == old(blockOffset) + HEADER + |payload|
    {
      hide EncodeFixed32, Checksum.Lawful;
      var crc := checksum.extend(typeCrc[t], payload);
      ExtendsType(checksum, t, payload);
      OffsetsStayEqual(|dest|, blockOffset, HEADER + |payload|);
      var header := EncodeFixed32(checksum.mask(crc)) + [|payload| % 0x100, |payload| / 0x100, t];
      dest := dest + header;
      dest := dest + payload;
      blockOffset := blockOffset + HEADER + |payload|;
    }
  }

  lemma ExtendsType(c: Checksum, t: Byte, payload: Bytes)
    requires c.Lawful()
    ensures c.extend(c.value([t]), payload) == c.value([t] + payload)
  {
  }

  lemma OffsetsStayEqual(p: nat, offset: nat, n: nat)
    requires Offset(offset) == Offset(p)
    ensures Offset(offset + n) == Offset(p + n)
  {
    assert p - offset == (p / BLOCK - offset / BLOCK) * BLOCK;
  }

  lemma OffsetTellsRoom(p: nat, offset: nat)
    requires offset <= BLOCK && Offset(offset) == Offset(p)
    ensures BLOCK - offset < HEADER ==> NextStart(p) == p + (BLOCK - offset) && Offset(NextStart(p)) == 0
    ensures BLOCK - offset >= HEADER ==> NextStart(p) == p && Offset(p) == offset
  {
    if offset < BLOCK {
      assert Offset(p) == offset;
      assert p + (BLOCK - offset) == (p / BLOCK + 1) * BLOCK;
    }
  }

  // One fragment, and the rest laid after it.
  lemma LaidStep(c: Checksum, before: Bytes, data: Bytes, begin: bool, after: Bytes)
    requires var q := NextStart(|before|);
             var n := Fitting(q, data);
             after == before + Zeros(q - |before|) + Physical(c, KindOf(begin, n == |data|), data[..n])
    ensures var n := Fitting(NextStart(|before|), data);
      && |after| == NextStart(|before|) + HEADER + n
      && before + Laid(c, |before|, data, begin) == if n == |data| then after else after + Laid(c, |after|, data[n..], false)
  {
    hide Laid, Physical, NextStart, Zeros, Fitting;
    assert after == before + Fragment(c, |before|, data, begin);
    LaidUnfolds(c, before, data, begin);
  }

  lemma LaidUnfolds(c: Checksum, before: Bytes, data: Bytes, begin: bool)
    ensures var n := Fitting(NextStart(|before|), data);
      var after := before + Fragment(c, |before|, data, begin);
      && |after| == NextStart(|before|) + HEADER + n
      && before + Laid(c, |before|, data, begin) == if n == |data| then after else after + Laid(c, |after|, data[n..], false)
  {
    hide Fragment, NextStart, Fitting;
  }
}
