/** Fields that a message does not have, in front of any bytes whatever. */
module ProtoSkipping {
  import opened Naturals
  import opened Sequences
  import opened Options
  import opened ProtoVarints
  import opened ProtoScalars
  import opened ProtoMessages
  import opened ProtoRoundTrip
  import opened ProtoStreams

  // ----- bytes in front of others -----

  function Moved<T>(p: Parsed<T>, n: nat): Parsed<T> {
    if p.Read? then Read(p.value, n + p.next) else Failed
  }

  lemma {:induction false} VarintMoved(a: Bytes, b: Bytes, pos: nat, bitpos: nat, acc: nat)
    ensures DecodeVarint(a + b, |a| + pos, bitpos, acc) == Moved(DecodeVarint(b, pos, bitpos, acc), |a|)
    decreases |b| - pos
  {
    hide Two, Remainder;
    if bitpos < 64 && pos < |b| {
      assert (a + b)[|a| + pos] == b[pos];
      VarintMoved(a, b, pos + 1, bitpos + 7, acc + Remainder(b[pos] % 128 * Two(bitpos), LIMIT64));
    }
  }

  lemma {:induction false} More32Moved(a: Bytes, b: Bytes, pos: nat, bitpos: nat, acc: nat)
    ensures DecodeMore32(a + b, |a| + pos, bitpos, acc) == Moved(DecodeMore32(b, pos, bitpos, acc), |a|)
    decreases |b| - pos
  {
    hide Two, Remainder, BitOr, DecodeMore32;
    More32Step(a + b, |a| + pos, bitpos, acc);
    More32Step(b, pos, bitpos, acc);
    if pos < |b| {
      assert (a + b)[|a| + pos] == b[pos];
      var more := if bitpos >= 32 then acc else BitOr(acc, Remainder(b[pos] % 128 * Two(bitpos), LIMIT32));
      More32Moved(a, b, pos + 1, (bitpos + 7) % 256, more);
    }
  }

  lemma Varint32Moved(a: Bytes, b: Bytes, pos: nat)
    ensures DecodeVarint32(a + b, |a| + pos) == Moved(DecodeVarint32(b, pos), |a|)
  {
    hide DecodeMore32;
    if pos < |b| {
      assert (a + b)[|a| + pos] == b[pos];
      More32Moved(a, b, pos + 1, 7, b[pos] % 128);
    }
  }

  lemma SliceMoved(a: Bytes, b: Bytes, i: nat, j: nat)
    requires i <= j <= |b|
    ensures (a + b)[|a| + i..|a| + j] == b[i..j]
  {
  }

  lemma PrefixedMoved(a: Bytes, b: Bytes, pos: nat)
    ensures DecodePrefixed(a + b, |a| + pos) == Moved(DecodePrefixed(b, pos), |a|)
  {
    hide DecodeVarint32;
    Varint32Moved(a, b, pos);
    var size := DecodeVarint32(b, pos);
    if size.Read? && size.next + size.value <= |b| {
      SliceMoved(a, b, size.next, size.next + size.value);
    }
  }

  lemma FixedMoved(a: Bytes, b: Bytes, pos: nat, n: nat)
    requires n > 0
    ensures DecodeFixed(a + b, |a| + pos, n) == Moved(DecodeFixed(b, pos, n), |a|)
  {
    if pos + n <= |b| {
      SliceMoved(a, b, pos, pos + n);
    }
  }

  lemma IntegerMoved(t: Type, a: Bytes, b: Bytes, pos: nat, before: Option<Value>)
    requires pos <= |b| && (t.SignedInt? || t.UnsignedInt? || t.ZigZagInt?)
    ensures DecodeValue(t, a + b, |a| + pos, before) == Moved(DecodeValue(t, b, pos, before), |a|)
  {
    hide DecodeVarint, UnZigZag, SignedValue, Signed, Unsigned, IsWidth;
    VarintMoved(a, b, pos, 0, 0);
  }

  lemma BytesMoved(t: Type, a: Bytes, b: Bytes, pos: nat, before: Option<Value>)
    requires pos <= |b| && (t.Blob? || t.Text? || t.FixedBlob? || t.Submessage?)
    ensures DecodeValue(t, a + b, |a| + pos, before) == Moved(DecodeValue(t, b, pos, before), |a|)
  {
    hide DecodePrefixed, UpToZero, DecodeMessage, Existing;
    PrefixedMoved(a, b, pos);
  }

  lemma ValueMoved(t: Type, a: Bytes, b: Bytes, pos: nat, before: Option<Value>)
    requires pos <= |b|
    ensures DecodeValue(t, a + b, |a| + pos, before) == Moved(DecodeValue(t, b, pos, before), |a|)
  {
    if t.SignedInt? || t.UnsignedInt? || t.ZigZagInt? {
      IntegerMoved(t, a, b, pos, before);
    } else if t.Bool? || t.Fixed32? || t.Fixed64? {
      hide DecodeVarint32, DecodeFixed;
      Varint32Moved(a, b, pos);
      FixedMoved(a, b, pos, 4);
      FixedMoved(a, b, pos, 8);
    } else {
      BytesMoved(t, a, b, pos, before);
    }
  }

  lemma FieldMoved(f: Field, a: Bytes, b: Bytes, pos: nat, wire: nat, vs: Slot)
    requires pos <= |b|
    ensures DecodeField(f, a + b, |a| + pos, wire, vs) == Moved(DecodeField(f, b, pos, wire, vs), |a|)
  {
    hide DecodeValue, DecodePrefixed, DecodePacked;
    PrefixedMoved(a, b, pos);
    ValueMoved(f.ty, a, b, pos, None);
    if vs != [] {
      ValueMoved(f.ty, a, b, pos, Some(vs[0]));
    }
  }

  lemma {:induction false} SkipVarintMoved(a: Bytes, b: Bytes, pos: nat)
    ensures SkipVarint(a + b, |a| + pos) == Moved(SkipVarint(b, pos), |a|)
    decreases |b| - pos
  {
    if pos < |b| {
      assert (a + b)[|a| + pos] == b[pos];
      SkipVarintMoved(a, b, pos + 1);
    }
  }

  lemma SkipMoved(a: Bytes, b: Bytes, pos: nat, wire: nat)
    ensures SkipField(a + b, |a| + pos, wire) == Moved(SkipField(b, pos, wire), |a|)
  {
    hide DecodePrefixed, SkipVarint;
    SkipVarintMoved(a, b, pos);
    PrefixedMoved(a, b, pos);
  }

  // What the decoder does depends on nothing that lies behind it.
  lemma {:induction false} MessageMoved(fields: seq<Field>, a: Bytes, b: Bytes, pos: nat, slots: seq<Slot>, seen: set<nat>)
    requires pos <= |b| && |slots| == |fields|
    ensures DecodeMessage(fields, a + b, |a| + pos, slots, seen) == DecodeMessage(fields, b, pos, slots, seen)
    decreases |b| - pos
  {
    hide DecodeVarint32, DecodeField, SkipField, SetSlot, FindField, Finish;
    if pos < |b| {
      Varint32Moved(a, b, pos);
      var tag := DecodeVarint32(b, pos);
      if tag.Read? && tag.value != 0 {
        var i := FindField(fields, tag.value / 8);
        if fields == [] && tag.value / 8 == 0 {
          Varint32Moved(a, b, tag.next);
          var skipped := DecodeVarint32(b, tag.next);
          if skipped.Read? {
            MessageMoved(fields, a, b, skipped.next, slots, seen);
          }
        } else if i == |fields| {
          SkipMoved(a, b, tag.next, tag.value % 8);
          var skipped := SkipField(b, tag.next, tag.value % 8);
          if skipped.Read? {
            MessageMoved(fields, a, b, skipped.next, slots, seen);
          }
        } else {
          FieldMoved(fields[i], a, b, tag.next, tag.value % 8, slots[i]);
          var vs := DecodeField(fields[i], b, tag.next, tag.value % 8, slots[i]);
          if vs.Read? {
            MessageMoved(fields, a, b, vs.next, SetSlot(fields, slots, i, vs.value), seen + {i});
          }
        }
      }
    }
  }

  // Whatever follows, well formed or not: a field the message does not have changes nothing in front of it.
  lemma UnknownInFront(fields: seq<Field>, number: nat, p: Foreign, b: Bytes)
    requires GoodItem(fields, Unknown(number, p))
    ensures Decode(fields, Tag(ForeignWire(p), number) + ForeignBytes(p) + b) == Decode(fields, b)
  {
    hide DecodeMessage, Tag, ForeignBytes, GoodForeign;
    var u, slots := Tag(ForeignWire(p), number) + ForeignBytes(p), seq(|fields|, _ => []);
    HoldsItself(u);
    HoldsLonger(u, b, 0, u);
    UnknownStep(fields, u + b, 0, slots, {}, number, p);
    MessageMoved(fields, u, b, 0, slots, {});
  }

  // A wire type that does not exist ends in failure.
  lemma StrangeWireFails(fields: seq<Field>, number: nat, wire: nat, b: Bytes)
    requires 0 < number < 0x2000_0000 && (forall f | f in fields :: f.tag != number)
    requires wire == 3 || wire == 4 || wire == 6 || wire == 7
    ensures Decode(fields, Tag(wire, number) + b) == None
  {
    hide Tag, FindField, DecodeVarint32, DecodeField;
    var all := Tag(wire, number) + b;
    HoldsItself(Tag(wire, number));
    HoldsLonger(Tag(wire, number), b, 0, Tag(wire, number));
    TagRoundTrip(all, 0, wire, number);
    NotFound(fields, number);
  }
}
