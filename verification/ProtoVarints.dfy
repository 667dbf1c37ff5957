/** Base 128 varints and fixed-width integers of the protocol buffers wire format. */
module ProtoVarints {
  import opened Naturals
  import opened Sequences

  datatype Parsed<+T> = Failed | Read(value: T, next: nat)

  // ----- varints -----

  // Seven bits in a byte, lowest first; the top bit says that more follow.
  function Varint(v: nat): (r: Bytes)
    ensures |r| >= 1
  {
    if v < 128 then [v] else [128 + v % 128] + Varint(v / 128)
  }

  lemma MarkTakenOff(buffer: Bytes, low: nat)
    requires low < 128
    ensures Unmarked(buffer + [128 + low]) == buffer + [low]
  {
  }

  lemma OneMore(buffer: Bytes, byte: nat, tail: Bytes)
    requires byte < 256
    ensures buffer + [byte] + tail == buffer + ([byte] + tail)
  {
  }

  // The marked byte of a round, against the rest of the varint.
  lemma ByteAppended(buffer: Bytes, v: nat)
    ensures var more := buffer + [128 + v % 128];
      if v < 128 then Unmarked(more) == buffer + Varint(v) else more + Varint(v / 128) == buffer + Varint(v)
    ensures v < 128 <==> v / 128 == 0
    ensures v > 0 ==> v / 128 < v
  {
    hide Varint, Unmarked;
    VarintStep(v);
    if v < 128 {
      MarkTakenOff(buffer, v);
      assert v % 128 == v;
    } else {
      OneMore(buffer, 128 + v % 128, Varint(v / 128));
    }
  }

  // The encoder fills a buffer with continued bytes, and takes the mark off the last one.
  method EncodeVarint(value: nat) returns (buffer: Bytes)
    ensures buffer == Varint(value)
  {
    hide Varint, Unmarked;
    if value < 128 {
      VarintStep(value);
      return [value];
    }
    var v: nat := value;
    buffer := [];
    while v > 0
      invariant v == 0 ==> buffer != [] && buffer[|buffer| - 1] >= 128
      invariant v > 0 ==> buffer + Varint(v) == Varint(value)
      invariant v == 0 ==> Unmarked(buffer) == Varint(value)
    {
      ByteAppended(buffer, v);
      buffer := buffer + [128 + v % 128];
      v := v / 128;
    }
    buffer := Unmarked(buffer);
  }

  lemma VarintStep(v: nat)
    ensures Varint(v) == if v < 128 then [v] else [128 + v % 128] + Varint(v / 128)
  {
  }

  function Unmarked(b: Bytes): Bytes
    requires b != [] && b[|b| - 1] >= 128
  {
    b[|b| - 1 := b[|b| - 1] - 128]
  }

  const LIMIT64: nat := 0x1_0000_0000_0000_0000
  const LIMIT32: nat := 0x1_0000_0000

  // pb_decode_varint: up to 64 bits.
  function DecodeVarint(b: Bytes, pos: nat, bitpos: nat, result: nat): (p: Parsed<nat>)
    ensures p.Read? ==> pos < p.next <= |b|
    decreases |b| - pos
  {
    if bitpos >= 64 || pos >= |b| then Failed else
      var more := result + Remainder(b[pos] % 128 * Two(bitpos), LIMIT64);
      if b[pos] >= 128 then DecodeVarint(b, pos + 1, bitpos + 7, more) else Read(more, pos + 1)
  }

  // pb_decode_varint32: 32 bits, or a negative number that has been extended to 64.  The position of the next
  // bits is kept in a byte, so it wraps around.
  function DecodeVarint32(b: Bytes, pos: nat): (p: Parsed<nat>)
    ensures p.Read? ==> pos < p.next <= |b|
  {
    if pos >= |b| then Failed
    else if b[pos] < 128 then Read(b[pos], pos + 1)
    else DecodeMore32(b, pos + 1, 7, b[pos] % 128)
  }

  function DecodeMore32(b: Bytes, pos: nat, bitpos: nat, result: nat): (p: Parsed<nat>)
    ensures p.Read? ==> pos < p.next <= |b|
    decreases |b| - pos
  {
    if pos >= |b| then Failed else
      var byte := b[pos];
      var sign := if bitpos < 63 then 255 else 1;
      if bitpos >= 32 && byte % 128 != 0 && (result < LIMIT32 / 2 || byte != sign) then Failed else
        var more := if bitpos >= 32 then result else BitOr(result, Remainder(byte % 128 * Two(bitpos), LIMIT32));
        var after := (bitpos + 7) % 256;
        if byte >= 128 then DecodeMore32(b, pos + 1, after, more)
        else if after == 35 && byte / 16 % 8 != 0 then Failed
        else Read(more, pos + 1)
  }

  // The short decoder, one byte further.
  lemma More32Step(b: Bytes, pos: nat, bitpos: nat, result: nat)
    ensures DecodeMore32(b, pos, bitpos, result)
         == if pos >= |b| then Failed
            else if bitpos >= 32 && b[pos] % 128 != 0
                    && (result < LIMIT32 / 2 || b[pos] != if bitpos < 63 then 255 else 1) then Failed
            else
              var more := if bitpos >= 32 then result else BitOr(result, Remainder(b[pos] % 128 * Two(bitpos), LIMIT32));
              var after := (bitpos + 7) % 256;
              if b[pos] >= 128 then DecodeMore32(b, pos + 1, after, more)
              else if after == 35 && b[pos] / 16 % 8 != 0 then Failed
              else Read(more, pos + 1)
  {
    hide Two, Remainder, BitOr;
  }

  // ----- round trips -----

  // The low seven bits and the rest, shifted into place.
  lemma SevenBits(v: nat, bitpos: nat, acc: nat, limit: nat)
    requires acc + v * Two(bitpos) < limit
    ensures var low, rest := v % 128 * Two(bitpos), v / 128 * Two(bitpos + 7);
      && v * Two(bitpos) == low + rest && Remainder(low, limit) == low
      && acc + low + rest < limit && low <= 127 * Two(bitpos) && Two(bitpos + 7) == 128 * Two(bitpos)
  {
    hide Two, Remainder;
    var p := Two(bitpos);
    TwoAdds(bitpos, 7);
    SmallTwo();
    Distribute(v % 128, 128 * (v / 128), p);
    Associate(v / 128, 128, p);
    Monotone(v % 128, 127, p);
    assert v == v % 128 + 128 * (v / 128);
    Monotone(0, v / 128, 128 * p);
    QuotientIs(v % 128 * p, limit, 0, v % 128 * p);
  }

  lemma SmallTwo()
    ensures Two(7) == 128
  {
    assert Two(3) == 8;
    TwoAdds(3, 3);
    TwoAdds(6, 1);
    assert Two(1) == 2;
  }

  lemma FitsIn(v: nat, bitpos: nat, limit: nat, width: nat)
    requires v > 0 && v * Two(bitpos) < limit == Two(width)
    ensures bitpos < width
  {
    if bitpos >= width {
      TwoMonotone(width, bitpos);
      Monotone(1, v, Two(bitpos));
    }
  }

  lemma VarintHeld(b: Bytes, pos: nat, v: nat)
    requires Holds(b, pos, Varint(v))
    ensures pos < |b|
    ensures v < 128 ==> b[pos] == v && |Varint(v)| == 1
    ensures v >= 128 ==> b[pos] == 128 + v % 128 && Holds(b, pos + 1, Varint(v / 128))
                         && |Varint(v)| == 1 + |Varint(v / 128)|
  {
    if v >= 128 {
      HoldsBoth(b, pos, [128 + v % 128], Varint(v / 128));
      assert [128 + v % 128][0] == b[pos + 0];
    } else {
      assert Varint(v)[0] == b[pos + 0];
    }
  }

  // One byte of the long decoder.
  lemma DecodesByte(b: Bytes, pos: nat, bitpos: nat, acc: nat, low: nat)
    requires pos < |b| && bitpos < 64 && low == Remainder(b[pos] % 128 * Two(bitpos), LIMIT64)
    ensures DecodeVarint(b, pos, bitpos, acc)
         == if b[pos] >= 128 then DecodeVarint(b, pos + 1, bitpos + 7, acc + low) else Read(acc + low, pos + 1)
  {
    hide Two, Remainder;
  }

  lemma ByteOfVarint(v: nat, byte: nat)
    requires byte == if v < 128 then v else 128 + v % 128
    ensures byte % 128 == v % 128 && (v < 128 ==> v / 128 == 0)
  {
  }

  lemma {:induction false} VarintDecodes(b: Bytes, pos: nat, v: nat, bitpos: nat, acc: nat)
    requires Holds(b, pos, Varint(v)) && acc + v * Two(bitpos) < LIMIT64 && (v > 0 || bitpos < 64)
    ensures DecodeVarint(b, pos, bitpos, acc) == Read(acc + v * Two(bitpos), pos + |Varint(v)|)
    decreases v
  {
    hide Two, Varint, Remainder, Holds, DecodeVarint;
    TwoOfWidths();
    if v > 0 {
      FitsIn(v, bitpos, LIMIT64, 64);
    }
    VarintHeld(b, pos, v);
    ByteOfVarint(v, b[pos]);
    SevenBits(v, bitpos, acc, LIMIT64);
    var low := v % 128 * Two(bitpos);
    DecodesByte(b, pos, bitpos, acc, low);
    if v >= 128 {
      VarintDecodes(b, pos + 1, v / 128, bitpos + 7, acc + low);
    }
  }

  // One continuation byte of the short decoder, and its last byte.
  lemma ContinuesMore32(b: Bytes, pos: nat, bitpos: nat, acc: nat, low: nat)
    requires pos < |b| && b[pos] >= 128 && bitpos < 32
    requires low == Remainder(b[pos] % 128 * Two(bitpos), LIMIT32) && BitOr(acc, low) == acc + low
    ensures DecodeMore32(b, pos, bitpos, acc) == DecodeMore32(b, pos + 1, bitpos + 7, acc + low)
  {
    hide Two, Remainder, BitOr;
  }

  lemma EndsMore32(b: Bytes, pos: nat, bitpos: nat, acc: nat, low: nat)
    requires pos < |b| && b[pos] < 128 && bitpos < 32 && (bitpos == 28 ==> b[pos] < 16)
    requires low == Remainder(b[pos] * Two(bitpos), LIMIT32) && BitOr(acc, low) == acc + low
    ensures DecodeMore32(b, pos, bitpos, acc) == Read(acc + low, pos + 1)
  {
    hide Two, Remainder, BitOr;
  }

  // The numbers of one byte: what is added, what is left, and that all of it stays in range.
  lemma ByteAdds(v: nat, bitpos: nat, acc: nat) returns (low: nat)
    requires v > 0 && acc < Two(bitpos) && acc + v * Two(bitpos) < LIMIT32
    ensures bitpos < 32 && (bitpos == 28 ==> v < 16)
    ensures low == v % 128 * Two(bitpos) == Remainder(v % 128 * Two(bitpos), LIMIT32)
    ensures acc + low + v / 128 * Two(bitpos + 7) == acc + v * Two(bitpos) && acc + low < Two(bitpos + 7)
    ensures BitOr(acc, low) == acc + low
  {
    hide Two, Remainder, BitOr;
    TwoOfWidths();
    FitsIn(v, bitpos, LIMIT32, 32);
    SevenBits(v, bitpos, acc, LIMIT32);
    low := v % 128 * Two(bitpos);
    OrIsSum(acc, v % 128, bitpos);
    if bitpos == 28 {
      LastFourBits(v);
    }
  }

  lemma LastByteAdds(v: nat, bitpos: nat, acc: nat) returns (low: nat)
    requires 0 < v < 128 && acc < Two(bitpos) && acc + v * Two(bitpos) < LIMIT32
    ensures bitpos < 32 && (bitpos == 28 ==> v < 16)
    ensures low == v * Two(bitpos) == Remainder(v * Two(bitpos), LIMIT32) && BitOr(acc, low) == acc + low
  {
    hide Two, Remainder, BitOr;
    low := ByteAdds(v, bitpos, acc);
    assert v % 128 == v && v / 128 == 0;
  }

  lemma {:induction false} VarintDecodesMore32(b: Bytes, pos: nat, v: nat, bitpos: nat, acc: nat)
    requires Holds(b, pos, Varint(v)) && v > 0 && acc < Two(bitpos) && acc + v * Two(bitpos) < LIMIT32
    ensures DecodeMore32(b, pos, bitpos, acc) == Read(acc + v * Two(bitpos), pos + |Varint(v)|)
    decreases v
  {
    hide Two, Varint, Remainder, Holds, DecodeMore32, BitOr;
    VarintHeld(b, pos, v);
    if v >= 128 {
      var low := ByteAdds(v, bitpos, acc);
      ByteOfVarint(v, b[pos]);
      ContinuesMore32(b, pos, bitpos, acc, low);
      VarintDecodesMore32(b, pos + 1, v / 128, bitpos + 7, acc + low);
    } else {
      var low := LastByteAdds(v, bitpos, acc);
      EndsMore32(b, pos, bitpos, acc, low);
    }
  }

  // Bytes 0x80 are taken in any number, and move the position around the byte it is kept in.
  lemma {:induction false} PaddingWraps(b: Bytes, pos: nat, n: nat, bitpos: nat, acc: nat)
    requires pos + n <= |b| && bitpos < 256 && acc < LIMIT32 && forall i | pos <= i < pos + n :: b[i] == 128
    ensures DecodeMore32(b, pos, bitpos, acc) == DecodeMore32(b, pos + n, (bitpos + 7 * n) % 256, acc)
    decreases n
  {
    hide Two, Remainder, DecodeMore32, BitOr;
    if n == 0 {
      assert (bitpos + 7 * n) % 256 == bitpos;
    } else {
      PaddingByte(b, pos, bitpos, acc);
      PaddingWraps(b, pos + 1, n - 1, (bitpos + 7) % 256, acc);
      WrapsAgain(bitpos, n);
    }
  }

  lemma WrapsAgain(bitpos: nat, n: nat)
    requires n > 0
    ensures ((bitpos + 7) % 256 + 7 * (n - 1)) % 256 == (bitpos + 7 * n) % 256
  {
    var q, r := (bitpos + 7) / 256, (bitpos + 7) % 256;
    assert bitpos + 7 * n == r + 7 * (n - 1) + 256 * q;
    WholeTurns(r + 7 * (n - 1), q);
  }

  lemma WholeTurns(x: nat, q: nat)
    ensures (x + 256 * q) % 256 == x % 256
  {
    var d, m := x / 256, x % 256;
    assert x + 256 * q == 256 * (d + q) + m;
  }

  lemma PaddingByte(b: Bytes, pos: nat, bitpos: nat, acc: nat)
    requires pos < |b| && b[pos] == 128
    ensures DecodeMore32(b, pos, bitpos, acc) == DecodeMore32(b, pos + 1, (bitpos + 7) % 256, acc)
  {
    hide Two, Remainder;
    QuotientIs(0, LIMIT32, 0, 0);
    assert b[pos] % 128 * Two(bitpos) == 0;
    OrNothing(acc);
  }

  lemma OrNothing(a: nat)
    ensures BitOr(a, 0) == a
  {
  }

  // So an overlong varint is taken, and its last byte lands among the low bits again: one more byte 1 after 37
  // bytes 0x80 reads as 8.
  lemma OverlongIsTaken(b: Bytes)
    requires |b| == 38 && b[37] == 1 && forall i | 0 <= i < 37 :: b[i] == 128
    ensures DecodeVarint32(b, 0) == Read(8, 38) && DecodeVarint(b, 0, 0, 0) == Failed
  {
    hide DecodeMore32, DecodeVarint, Two, Remainder, BitOr;
    PaddingWraps(b, 1, 36, 7, 0);
    assert (7 + 7 * 36) % 256 == 3;
    assert DecodeMore32(b, 37, 3, 0) == Read(8, 38) by { OneAtThree(b); }
    PaddingFails(b, 0, 0);
  }

  lemma OneAtThree(b: Bytes)
    requires |b| == 38 && b[37] == 1
    ensures DecodeMore32(b, 37, 3, 0) == Read(8, 38)
  {
    hide Remainder;
    assert Two(3) == 8;
    QuotientIs(8, LIMIT32, 0, 8);
  }

  // The long decoder gives up after ten bytes.
  lemma {:induction false} PaddingFails(b: Bytes, pos: nat, n: nat)
    requires n <= 10 && pos == n && |b| >= 10 && forall i | 0 <= i < 10 :: b[i] == 128
    ensures DecodeVarint(b, pos, 7 * n, 0) == Failed
    decreases 10 - n
  {
    hide Two, Remainder;
    if n < 10 {
      QuotientIs(0, LIMIT64, 0, 0);
      assert b[pos] % 128 * Two(7 * n) == 0;
      PaddingFails(b, pos + 1, n + 1);
    }
  }

  lemma LastFourBits(v: nat)
    requires v * Two(28) < LIMIT32
    ensures v < 16
  {
    hide Two;
    TwoAdds(28, 4);
    TwoOfFour();
    TwoOfWidths();
    if v >= 16 {
      Monotone(16, v, Two(28));
    }
  }

  // A varint of 64 bits is read back, wherever it stands.
  lemma VarintRoundTrip(b: Bytes, pos: nat, v: nat)
    requires Holds(b, pos, Varint(v)) && v < LIMIT64
    ensures DecodeVarint(b, pos, 0, 0) == Read(v, pos + |Varint(v)|)
  {
    TwoOfZero();
    VarintDecodes(b, pos, v, 0, 0);
  }

  // One of 32 bits also by the short decoder.
  lemma Varint32RoundTrip(b: Bytes, pos: nat, v: nat)
    requires Holds(b, pos, Varint(v)) && v < LIMIT32
    ensures DecodeVarint32(b, pos) == Read(v, pos + |Varint(v)|)
  {
    hide Two, Varint, Holds, DecodeMore32;
    VarintHeld(b, pos, v);
    if v >= 128 {
      TwoOfZero();
      SmallTwo();
      SevenBits(v, 0, 0, LIMIT32);
      VarintDecodesMore32(b, pos + 1, v / 128, 7, v % 128);
    }
  }

  // ----- extended signs -----

  lemma FiveGroups(b: Bytes, g: nat)
    requires |b| >= 5 && b[0] == b[1] == b[2] == b[3] == 128 && b[4] == 128 + g && 0 < g < 16
    ensures DecodeVarint32(b, 0) == DecodeMore32(b, 5, 35, g * 0x1000_0000)
  {
    hide DecodeMore32, BitOr, Two, Remainder;
    PaddingWraps(b, 1, 3, 7, 0);
    More32Step(b, 4, 28, 0);
    TwoOf28();
    TwoOfWidths();
    QuotientIs(g * 0x1000_0000, LIMIT32, 0, g * 0x1000_0000);
    OrOfNothing(g * 0x1000_0000);
  }

  lemma TwoOf28()
    ensures Two(28) == 0x1000_0000
  {
    TwoOfFour();
    TwoOfSixteen();
    TwoAdds(16, 4);
    TwoAdds(20, 4);
    TwoAdds(24, 4);
  }

  lemma OrOfNothing(a: nat)
    ensures BitOr(0, a) == a
  {
  }

  // A negative number of 32 bits that has been extended to 64 is taken, as the last byte shows; the smallest one.
  lemma ExtendedSignIsTaken(b: Bytes)
    requires b == [128, 128, 128, 128, 136, 255, 255, 255, 255, 1]
    ensures DecodeVarint32(b, 0) == Read(0x8000_0000, 10)
  {
    hide DecodeMore32;
    FiveGroups(b, 8);
    More32Step(b, 5, 35, 0x8000_0000);
    More32Step(b, 6, 42, 0x8000_0000);
    More32Step(b, 7, 49, 0x8000_0000);
    More32Step(b, 8, 56, 0x8000_0000);
    More32Step(b, 9, 63, 0x8000_0000);
  }

  // With any other bits behind the low 32, or behind a number that is not negative, it is refused; and so are bits
  // past the 32 in the last byte.
  lemma OtherBitsAreRefused(b: Bytes)
    ensures |b| >= 6 && b[..6] == [128, 128, 128, 128, 136, 254] ==> DecodeVarint32(b, 0) == Failed
    ensures |b| >= 6 && b[..6] == [128, 128, 128, 128, 129, 255] ==> DecodeVarint32(b, 0) == Failed
    ensures |b| >= 5 && b[..5] == [128, 128, 128, 128, 16] ==> DecodeVarint32(b, 0) == Failed
  {
    hide DecodeMore32, BitOr, Two, Remainder;
    if |b| >= 6 && b[..6] == [128, 128, 128, 128, 136, 254] {
      FirstBytes(b, [128, 128, 128, 128, 136, 254]);
      FiveGroups(b, 8);
      More32Step(b, 5, 35, 0x8000_0000);
    }
    if |b| >= 6 && b[..6] == [128, 128, 128, 128, 129, 255] {
      FirstBytes(b, [128, 128, 128, 128, 129, 255]);
      FiveGroups(b, 1);
      More32Step(b, 5, 35, 0x1000_0000);
    }
    if |b| >= 5 && b[..5] == [128, 128, 128, 128, 16] {
      FirstBytes(b, [128, 128, 128, 128, 16]);
      PaddingWraps(b, 1, 3, 7, 0);
      More32Step(b, 4, 28, 0);
    }
  }

  lemma FirstBytes(b: Bytes, first: Bytes)
    requires |first| <= |b| && b[..|first|] == first
    ensures forall i | 0 <= i < |first| :: b[i] == first[i]
  {
    assert forall i | 0 <= i < |first| :: b[..|first|][i] == first[i];
  }
}
