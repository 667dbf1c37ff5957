/** Messages with their bytes written out, most of them from the Protocol Buffers Encoding documentation. */
module ProtoExamples {
  import opened Sequences
  import opened Options
  import opened ProtoVarints
  import opened ProtoScalars
  import opened ProtoMessages

  lemma VarintExamples()
    ensures Varint(1) == [0x01] && Varint(150) == [0x96, 0x01] && Varint(300) == [0xAC, 0x02]
    ensures Varint(270) == [0x8E, 0x02] && Varint(86942) == [0x9E, 0xA7, 0x05]
  {
    TwoBytes(150, 22, 1);
    TwoBytes(300, 44, 2);
    TwoBytes(270, 14, 2);
    TwoBytes(679, 39, 5);
    VarintStep(86942);
    assert 86942 % 128 == 30 && 86942 / 128 == 679;
    assert [0x9E] + [0xA7, 0x05] == [0x9E, 0xA7, 0x05];
  }

  lemma TwoBytes(v: nat, low: nat, high: nat)
    requires v == low + 128 * high && low < 128 && 0 < high < 128
    ensures Varint(v) == [128 + low, high]
  {
    VarintStep(v);
    VarintStep(high);
    assert v % 128 == low && v / 128 == high;
    assert [128 + low] + [high] == [128 + low, high];
  }

  // Small signed numbers of either sign have small encodings.
  lemma ZigZagExamples()
    ensures ZigZag(0) == 0 && ZigZag(-1) == 1 && ZigZag(1) == 2 && ZigZag(-2) == 3
    ensures ZigZag(0x7fffffff) == 0xfffffffe && ZigZag(-0x80000000) == 0xffffffff
  {
  }

  // Field number and wire type in the first byte: 0 for varints, 1 for 8 bytes, 2 for a length, 5 for 4 bytes.
  lemma TagExamples()
    ensures Tag(WireType(SignedInt(4)), 1) == [0x08] && Tag(WireType(Bool), 1) == [0x08]
    ensures Tag(WireType(UnsignedInt(8)), 1) == [0x08]
    ensures Tag(WireType(ZigZagInt(4)), 1) == [0x08] && Tag(WireType(Fixed64), 1) == [0x09] && Tag(WireType(Text(8)), 2) == [0x12]
    ensures Tag(WireType(Blob(8)), 2) == [0x12] && Tag(WireType(FixedBlob(8)), 2) == [0x12]
    ensures Tag(WireType(Submessage([])), 3) == [0x1A] && Tag(WireType(Fixed32), 1) == [0x0D]
  {
  }

  lemma OneValue(f: Field, v: Value, tag: Bytes, bytes: Bytes)
    requires !f.kind.Repeated? && Tag(WireType(f.ty), f.tag) == tag && EncodeValue(f.ty, v) == Some(bytes)
    ensures EncodeSlot(f, [v]) == Some(tag + bytes)
  {
    hide EncodeValue, Tag;
  }

  // Field 1 with the number 150.
  lemma NumberExample()
    ensures EncodeSlot(Field(1, Optional, SignedInt(4)), [Int(150)]) == Some([0x08, 0x96, 0x01])
  {
    hide Varint, EncodeSlot;
    TagExamples();
    VarintExamples();
    assert EncodeValue(SignedInt(4), Int(150)) == Some([0x96, 0x01]);
    OneValue(Field(1, Optional, SignedInt(4)), Int(150), [0x08], [0x96, 0x01]);
    assert [0x08] + [0x96, 0x01] == [0x08, 0x96, 0x01];
  }

  // Field 2 with the string "testing".
  lemma StringExample()
    ensures EncodeSlot(Field(2, Optional, Text(8)), [Data([0x74, 0x65, 0x73, 0x74, 0x69, 0x6e, 0x67])])
         == Some([0x12, 0x07, 0x74, 0x65, 0x73, 0x74, 0x69, 0x6e, 0x67])
  {
    hide EncodeSlot;
    TagExamples();
    var d: Bytes := [0x74, 0x65, 0x73, 0x74, 0x69, 0x6e, 0x67];
    assert Varint(7) == [7];
    OneValue(Field(2, Optional, Text(8)), Data(d), [0x12], [7] + d);
    assert [0x12] + ([7] + d) == [0x12, 0x07, 0x74, 0x65, 0x73, 0x74, 0x69, 0x6e, 0x67];
  }

  // Field 3 with a message whose field 1 is 150.
  lemma MessageExample()
    ensures EncodeSlot(Field(3, Optional, Submessage([Field(1, Optional, SignedInt(4))])), [Message([[Int(150)]])])
         == Some([0x1A, 0x03, 0x08, 0x96, 0x01])
  {
    hide EncodeSlot, Varint;
    TagExamples();
    NumberExample();
    var f := Field(1, Optional, SignedInt(4));
    assert [f][1..] == [] && [[Int(150)]][1..] == [];
    assert EncodeFields([], []) == Some([]);
    assert [0x08, 0x96, 0x01] + [] == [0x08, 0x96, 0x01];
    assert EncodeFields([f], [[Int(150)]]) == Some([0x08, 0x96, 0x01]);
    VarintStep(3);
    assert EncodeValue(Submessage([f]), Message([[Int(150)]])) == Some([3] + [0x08, 0x96, 0x01]);
    assert Tag(WireType(Submessage([f])), 3) == Tag(WireType(Submessage([])), 3);
    OneValue(Field(3, Optional, Submessage([f])), Message([[Int(150)]]), [0x1A], [3] + [0x08, 0x96, 0x01]);
    assert [0x1A] + ([3] + [0x08, 0x96, 0x01]) == [0x1A, 0x03, 0x08, 0x96, 0x01];
  }

  // Field 6 with a packed array of 3, 270 and 86942.
  lemma PackedExample()
    ensures EncodeSlot(Field(6, Repeated(8), UnsignedInt(4)), [Int(3), Int(270), Int(86942)])
         == Some([0x32, 0x06, 0x03, 0x8E, 0x02, 0x9E, 0xA7, 0x05])
  {
    hide Varint;
    VarintExamples();
    VarintStep(3);
    VarintStep(6);
    var t, vs := UnsignedInt(4), [Int(3), Int(270), Int(86942)];
    assert vs[1..] == [Int(270), Int(86942)] && vs[1..][1..] == [Int(86942)] && vs[1..][1..][1..] == [];
    assert EncodeItems(t, [], []) == Some([]);
    assert EncodeItems(t, [], [Int(86942)]) == Some([] + [0x9E, 0xA7, 0x05] + []);
    assert [] + [0x9E, 0xA7, 0x05] + [] == [0x9E, 0xA7, 0x05];
    assert EncodeItems(t, [], [Int(270), Int(86942)]) == Some([] + [0x8E, 0x02] + [0x9E, 0xA7, 0x05]);
    assert [] + [0x8E, 0x02] + [0x9E, 0xA7, 0x05] == [0x8E, 0x02, 0x9E, 0xA7, 0x05];
    assert EncodeItems(t, [], vs) == Some([] + [0x03] + [0x8E, 0x02, 0x9E, 0xA7, 0x05]);
    VarintStep(50);
    assert Tag(STRING, 6) == [0x32];
    var items := [] + [0x03] + [0x8E, 0x02, 0x9E, 0xA7, 0x05];
    assert |items| == 6;
    assert [0x32] + ([6] + items) == [0x32, 0x06, 0x03, 0x8E, 0x02, 0x9E, 0xA7, 0x05];
  }

  // Numbers of fixed width have their low byte first.
  lemma FixedExamples()
    ensures EncodeValue(Fixed32, Int(0x04030201)) == Some([1, 2, 3, 4])
  {
    hide LittleEndian;
    LowByte(0x04030201, 4);
    LowByte(0x040302, 3);
    LowByte(0x0403, 2);
    LowByte(0x04, 1);
    LowByte(0, 0);
    assert LittleEndian(0x04030201, 4) == [1, 2, 3, 4];
  }

  lemma LongFixedExample()
    ensures EncodeValue(Fixed64, Int(0x0807060504030201)) == Some([1, 2, 3, 4, 5, 6, 7, 8])
  {
    hide LittleEndian;
    LowByte(0, 0);
    LowByte(0x0807060504030201, 8);
    LowByte(0x08070605040302, 7);
    LowByte(0x080706050403, 6);
    LowByte(0x0807060504, 5);
    LowByte(0x08070605, 4);
    LowByte(0x080706, 3);
    LowByte(0x0807, 2);
    LowByte(0x08, 1);
    assert LittleEndian(0x0807060504030201, 8) == [1, 2, 3, 4, 5, 6, 7, 8];
  }

  lemma LowByte(v: nat, n: nat)
    ensures LittleEndian(v, n) == if n == 0 then [] else [v % 256] + LittleEndian(v / 256, n - 1)
  {
  }

  // ----- decoding what no encoder here writes -----

  // A signed number of at most 32 bits is taken from the low 32 bits of the varint, and has to fit its member.
  lemma LowBitsExamples()
    ensures SignedValue(0x1_0000_0005, 4) == Some(5) && SignedValue(0xffff_fffe, 4) == Some(-2)
    ensures SignedValue(0xffff_ffff_ffff_fffe, 4) == Some(-2) && SignedValue(0xffff_fffe, 8) == Some(0xffff_fffe)
    ensures SignedValue(0xffff_ffff_ffff_fffe, 8) == Some(-2) && SignedValue(200, 1) == None && SignedValue(100, 1) == Some(100)
  {
  }

  // Any number but zero is true.
  lemma BoolExample()
    ensures DecodeValue(Bool, [7], 0, None) == Read(Int(1), 1) && DecodeValue(Bool, [0], 0, None) == Read(Int(0), 1)
  {
  }

  // A buffer of fixed length is cleared by an empty one, and takes no other length than its own.
  lemma FixedBufferExamples()
    ensures DecodeValue(FixedBlob(2), [0], 0, None) == Read(Data([0, 0]), 1)
    ensures DecodeValue(FixedBlob(2), [1, 5], 0, None) == Failed
    ensures DecodeValue(FixedBlob(2), [2, 5, 6], 0, None) == Read(Data([5, 6]), 3)
  {
    assert DecodeVarint32([0], 0) == Read(0, 1) && [0][1..1] == [];
    assert Zeros(2) == [0, 0];
    assert DecodeVarint32([1, 5], 0) == Read(1, 1);
    assert DecodeVarint32([2, 5, 6], 0) == Read(2, 1) && [2, 5, 6][1..3] == [5, 6];
  }

  // A string ends at its first zero.
  lemma ZeroInString()
    ensures DecodeValue(Text(4), [3, 65, 0, 66], 0, None) == Read(Data([65]), 4)
  {
    assert DecodeVarint32([3, 65, 0, 66], 0) == Read(3, 1);
    var d: Bytes := [65, 0, 66];
    assert [3, 65, 0, 66][1..4] == d && d[1..] == [0, 66];
    assert UpToZero(d[1..]) == [] && UpToZero(d) == [65];
  }

  // A zero tag ends the message, whatever follows.
  lemma ZeroTagEnds(fields: seq<Field>, b: Bytes)
    requires forall f | f in fields :: !f.kind.Required?
    ensures Decode(fields, [0] + b) == Some(seq(|fields|, _ => []))
  {
    var all: Bytes := [0] + b;
    assert DecodeVarint32(all, 0) == Read(0, 1);
    forall i | 0 <= i < |fields| ensures !fields[i].kind.Required? {
      assert fields[i] in fields;
    }
  }
}
