/** Whatever the bytes are, what the decoder stores fits into the struct; and exactly when a message comes back. */
module ProtoBounds {
  import opened Sequences
  import opened Options
  import opened ProtoVarints
  import opened ProtoScalars
  import opened ProtoMessages
  import opened ProtoRoundTrip

  // Integers in their width, bytes in their buffer, strings with room for a zero, arrays in their bounds,
  // and one member of a oneof at most.
  ghost predicate Fits(t: Type, v: Value)
    decreases t, 0
  {
    match t
    case Bool => v.Int? && (v.i == 0 || v.i == 1)
    case SignedInt(w) => v.Int? && IsWidth(w) && Signed(w, v.i)
    case UnsignedInt(w) => v.Int? && IsWidth(w) && Unsigned(w, v.i)
    case ZigZagInt(w) => v.Int? && IsWidth(w) && Signed(w, v.i)
    case Fixed32 => v.Int? && 0 <= v.i < LIMIT32
    case Fixed64 => v.Int? && 0 <= v.i < LIMIT64
    case Blob(max) => v.Data? && |v.bytes| <= max
    case Text(size) => v.Data? && |v.bytes| < size && 0 !in v.bytes
    case FixedBlob(length) => v.Data? && |v.bytes| == length
    case Submessage(fields) => v.Message? && FitsAll(fields, v.slots)
  }

  ghost predicate FitsSlot(f: Field, vs: Slot)
    decreases f, 1
  {
    && (forall k: nat | k < |vs| :: Fits(f.ty, vs[k]))
    && |vs| <= if f.kind.Repeated? then f.kind.max else 1
  }

  ghost predicate FitsAll(fields: seq<Field>, slots: seq<Slot>)
    decreases fields, 2
  {
    && |slots| == |fields|
    && (forall i: nat | i < |fields| :: FitsSlot(fields[i], slots[i]))
    && (forall i: nat, j: nat | i < j < |fields| && fields[i].kind.Oneof? && fields[i].kind == fields[j].kind ::
          slots[i] == [] || slots[j] == [])
  }

  // ----- scalars -----

  lemma {:induction false} LittleEndianBound(b: Bytes)
    ensures FromLittleEndian(b) < Range(|b|)
  {
    if b != [] {
      LittleEndianBound(b[1..]);
    }
  }

  lemma FixedFits(b: Bytes, pos: nat, n: nat)
    requires n > 0 && DecodeFixed(b, pos, n).Read?
    ensures var v := DecodeFixed(b, pos, n).value; v.Int? && 0 <= v.i < Range(n)
  {
    LittleEndianBound(b[pos..pos + n]);
  }

  lemma {:induction false} UpToZeroFits(b: Bytes)
    ensures |UpToZero(b)| <= |b| && 0 !in UpToZero(b)
  {
    if b != [] {
      UpToZeroFits(b[1..]);
    }
  }

  lemma ScalarFits(t: Type, b: Bytes, pos: nat, before: Option<Value>)
    requires !t.Submessage? && pos <= |b| && DecodeValue(t, b, pos, before).Read?
    ensures Fits(t, DecodeValue(t, b, pos, before).value)
  {
    hide DecodeVarint, DecodeVarint32, DecodePrefixed, DecodeFixed, UpToZero, UnZigZag, FromLittleEndian;
    Ranges();
    match t
    case Fixed32 => FixedFits(b, pos, 4);
    case Fixed64 => FixedFits(b, pos, 8);
    case Text(_) => UpToZeroFits(DecodePrefixed(b, pos).value);
    case _ =>
  }

  // ----- messages -----

  lemma {:induction false} ValueFits(t: Type, b: Bytes, pos: nat, before: Option<Value>)
    requires pos <= |b| && DecodeValue(t, b, pos, before).Read? && (before.Some? ==> Fits(t, before.value))
    ensures Fits(t, DecodeValue(t, b, pos, before).value)
    decreases |b| - pos, 0
  {
    if t.Submessage? {
      ExistingFits(t.fields, before);
      MessageFits(t.fields, DecodePrefixed(b, pos).value, 0, Existing(t.fields, before), {});
    } else {
      ScalarFits(t, b, pos, before);
    }
  }

  lemma ExistingFits(fields: seq<Field>, before: Option<Value>)
    requires before.Some? ==> Fits(Submessage(fields), before.value)
    ensures FitsAll(fields, Existing(fields, before))
  {
  }

  lemma {:induction false} PackedFits(f: Field, b: Bytes, pos: nat, vs: Slot)
    requires f.kind.Repeated? && FitsSlot(f, vs) && pos <= |b| && DecodePacked(f.ty, b, pos, vs, f.kind.max).Some?
    ensures FitsSlot(f, DecodePacked(f.ty, b, pos, vs, f.kind.max).value)
    decreases |b| - pos, 1
  {
    hide Fits, DecodeValue;
    if pos < |b| {
      ValueFits(f.ty, b, pos, None);
      var v := DecodeValue(f.ty, b, pos, None);
      PackedFits(f, b, v.next, vs + [v.value]);
    }
  }

  lemma {:induction false} FieldFits(f: Field, b: Bytes, pos: nat, wire: nat, vs: Slot)
    requires FitsSlot(f, vs) && pos <= |b| && DecodeField(f, b, pos, wire, vs).Read?
    ensures FitsSlot(f, DecodeField(f, b, pos, wire, vs).value)
    decreases |b| - pos, 2
  {
    hide Fits, DecodeValue, DecodePacked, DecodePrefixed;
    if f.kind.Repeated? && wire == STRING && Packable(f.ty) {
      PackedFits(f, DecodePrefixed(b, pos).value, 0, vs);
    } else {
      ValueFits(f.ty, b, pos, if f.kind.Repeated? || vs == [] then None else Some(vs[0]));
    }
  }

  lemma SetSlotFits(fields: seq<Field>, slots: seq<Slot>, i: nat, vs: Slot)
    requires FitsAll(fields, slots) && i < |fields| && FitsSlot(fields[i], vs)
    ensures FitsAll(fields, SetSlot(fields, slots, i, vs))
  {
    hide Fits;
  }

  // From any bytes, on top of any contents that fit.
  lemma {:induction false} MessageFits(fields: seq<Field>, b: Bytes, pos: nat, slots: seq<Slot>, seen: set<nat>)
    requires FitsAll(fields, slots) && pos <= |b| && DecodeMessage(fields, b, pos, slots, seen).Some?
    ensures FitsAll(fields, DecodeMessage(fields, b, pos, slots, seen).value)
    decreases |b| - pos, 3
  {
    hide FitsSlot, Fits, DecodeField, SkipField, DecodeVarint32, Finish;
    if pos < |b| {
      var tag := DecodeVarint32(b, pos);
      if tag.value != 0 {
        var i := FindField(fields, tag.value / 8);
        if fields == [] && tag.value / 8 == 0 {
          MessageFits(fields, b, DecodeVarint32(b, tag.next).next, slots, seen);
        } else if i == |fields| {
          MessageFits(fields, b, SkipField(b, tag.next, tag.value % 8).next, slots, seen);
        } else {
          FieldFits(fields[i], b, tag.next, tag.value % 8, slots[i]);
          var vs := DecodeField(fields[i], b, tag.next, tag.value % 8, slots[i]);
          SetSlotFits(fields, slots, i, vs.value);
          MessageFits(fields, b, vs.next, SetSlot(fields, slots, i, vs.value), seen + {i});
        }
      }
    }
  }

  lemma DecodedFits(fields: seq<Field>, b: Bytes)
    requires Decode(fields, b).Some?
    ensures FitsAll(fields, Decode(fields, b).value)
  {
    MessageFits(fields, b, 0, seq(|fields|, _ => []), {});
  }

  // ----- when a message comes back -----

  lemma {:induction false} FitsTerminated(t: Type, v: Value)
    requires Fits(t, v)
    ensures Terminated(t, v)
    decreases t, 0
  {
    if t.Submessage? {
      FitsAllTerminated(t.fields, v.slots);
    }
  }

  lemma {:induction false} FitsAllTerminated(fields: seq<Field>, slots: seq<Slot>)
    requires FitsAll(fields, slots)
    ensures AllTerminated(fields, slots)
    decreases fields, 2
  {
    forall i: nat | i < |fields| ensures TerminatedSlot(fields[i], slots[i]) {
      assert FitsSlot(fields[i], slots[i]);
      FitsSlotTerminated(fields[i], slots[i]);
    }
  }

  lemma {:induction false} FitsSlotTerminated(f: Field, vs: Slot)
    requires FitsSlot(f, vs)
    ensures TerminatedSlot(f, vs)
    decreases f, 1
  {
    forall k: nat | k < |vs| ensures Terminated(f.ty, vs[k]) {
      FitsTerminated(f.ty, vs[k]);
    }
  }

  // An encoded message is decoded to itself if and only if no char array is full to the last byte.
  lemma ComesBack(fields: seq<Field>, slots: seq<Slot>)
    requires GoodFields(fields) && Shaped(fields, slots)
    requires EncodeFields(fields, slots).Some? && |EncodeFields(fields, slots).value| < LIMIT32
    ensures Decode(fields, EncodeFields(fields, slots).value) == Some(slots) <==> AllTerminated(fields, slots)
  {
    hide GoodFields, Shaped, EncodeFields, DecodeMessage, FitsAll, AllTerminated;
    ShapedLength(fields, slots);
    var m := EncodeFields(fields, slots).value;
    if AllTerminated(fields, slots) {
      MessageRoundTrip(fields, slots, m);
    }
    if Decode(fields, m) == Some(slots) {
      DecodedFits(fields, m);
      FitsAllTerminated(fields, slots);
    }
  }

  // One byte in a char array of one byte: it is encoded, and refused by the decoder.
  lemma FullStringIsLost()
    ensures var fields, slots := [Field(1, Required, Text(1))], [[Data([65])]];
      Shaped(fields, slots) && EncodeFields(fields, slots) == Some([10, 1, 65]) && Decode(fields, [10, 1, 65]) == None
  {
    var t: Type := Text(1);
    var f: Field := Field(1, Required, t);
    var b: Bytes := [10, 1, 65];
    assert Prefixed([65]) == [1, 65];
    assert Tag(STRING, 1) == [10];
    assert EncodeValue(t, Data([65])) == Some([1, 65]);
    assert Tag(STRING, 1) + [1, 65] == b;
    assert EncodeSlot(f, [Data([65])]) == Some([10, 1, 65]);
    assert [f][1..] == [] && [[Data([65])]][1..] == [];
    assert b + [] == b;
    assert DecodeVarint32(b, 0) == Read(10, 1);
    assert DecodePrefixed(b, 1) == Read([65], 3);
    assert DecodeValue(t, b, 1, None) == Failed;
    assert DecodeField(f, b, 1, 2, []) == Failed;
  }

  // ----- what has been decoded can be encoded -----

  // Buffers and strings have lengths of 32 bits.
  ghost predicate SizesFit(t: Type)
    decreases t, 0
  {
    match t
    case Blob(max) => max < LIMIT32
    case Text(size) => size < LIMIT32
    case FixedBlob(length) => length < LIMIT32
    case Submessage(fields) => AllSizesFit(fields)
    case _ => true
  }

  ghost predicate SlotSizesFit(f: Field)
    decreases f, 1
  {
    SizesFit(f.ty)
  }

  ghost predicate AllSizesFit(fields: seq<Field>)
    decreases fields, 2
  {
    forall i: nat | i < |fields| :: SlotSizesFit(fields[i])
  }

  // No required field is missing, in nested messages neither.
  ghost predicate Whole(t: Type, v: Value)
    decreases t, 0
  {
    t.Submessage? && v.Message? ==> AllWhole(t.fields, v.slots)
  }

  ghost predicate WholeSlot(f: Field, vs: Slot)
    decreases f, 1
  {
    (f.kind.Required? ==> vs != []) && forall k: nat | k < |vs| :: Whole(f.ty, vs[k])
  }

  ghost predicate AllWhole(fields: seq<Field>, slots: seq<Slot>)
    decreases fields, 2
  {
    |slots| == |fields| && forall i: nat | i < |fields| :: WholeSlot(fields[i], slots[i])
  }

  lemma {:induction false} FittingIsStorable(t: Type, v: Value)
    requires Fits(t, v) && SizesFit(t) && Whole(t, v)
    ensures Storable(t, v) && EncodeValue(t, v).Some?
    decreases t, 0
  {
    if t.Submessage? {
      AllFittingIsShaped(t.fields, v.slots);
    } else {
      ScalarIsStorable(t, v);
    }
  }

  lemma ScalarIsStorable(t: Type, v: Value)
    requires Fits(t, v) && SizesFit(t) && !t.Submessage?
    ensures Storable(t, v) && EncodeValue(t, v).Some?
  {
    hide Varint, LittleEndian, Wrapped, ZigZag;
    match t
    case SignedInt(w) => SignedNests(v.i, w);
    case ZigZagInt(w) => SignedNests(v.i, w);
    case _ =>
  }

  lemma {:induction false} SlotIsStorable(f: Field, vs: Slot)
    requires FitsSlot(f, vs) && SlotSizesFit(f) && WholeSlot(f, vs)
    ensures StorableSlot(f, vs) && EncodeSlot(f, vs).Some?
    decreases f, 1
  {
    hide Fits, Whole, EncodeValue, Storable, Tag, SizesFit;
    forall k: nat | k < |vs| ensures Storable(f.ty, vs[k]) && EncodeValue(f.ty, vs[k]).Some? {
      assert Fits(f.ty, vs[k]) && Whole(f.ty, vs[k]);
      FittingIsStorable(f.ty, vs[k]);
    }
    ItemsEncode(f.ty, [], vs);
    ItemsEncode(f.ty, Tag(WireType(f.ty), f.tag), vs);
  }

  lemma {:induction false} ItemsEncode(t: Type, before: Bytes, vs: seq<Value>)
    requires forall k: nat | k < |vs| :: EncodeValue(t, vs[k]).Some?
    ensures EncodeItems(t, before, vs).Some?
    decreases |vs|
  {
    hide EncodeValue;
    if vs != [] {
      ItemsEncode(t, before, vs[1..]);
    }
  }

  lemma {:induction false} AllFittingIsShaped(fields: seq<Field>, slots: seq<Slot>)
    requires FitsAll(fields, slots) && AllSizesFit(fields) && AllWhole(fields, slots)
    ensures Shaped(fields, slots) && EncodeFields(fields, slots).Some?
    decreases fields, 2
  {
    hide FitsSlot, SlotSizesFit, WholeSlot, StorableSlot, EncodeSlot, EncodeFields;
    forall i: nat | i < |fields| ensures StorableSlot(fields[i], slots[i]) && EncodeSlot(fields[i], slots[i]).Some? {
      assert FitsSlot(fields[i], slots[i]) && SlotSizesFit(fields[i]) && WholeSlot(fields[i], slots[i]);
      SlotIsStorable(fields[i], slots[i]);
    }
    SlotsEncode(fields, slots);
  }

  lemma {:induction false} SlotsEncode(fields: seq<Field>, slots: seq<Slot>)
    requires |fields| == |slots| && forall i: nat | i < |fields| :: EncodeSlot(fields[i], slots[i]).Some?
    ensures EncodeFields(fields, slots).Some?
    decreases |fields|
  {
    hide EncodeSlot;
    if fields != [] {
      forall i: nat | i < |fields[1..]| ensures EncodeSlot(fields[1..][i], slots[1..][i]).Some? {
        assert EncodeSlot(fields[i + 1], slots[i + 1]).Some?;
      }
      SlotsEncode(fields[1..], slots[1..]);
    }
  }

  // Whatever has been decoded with no required field missing can be encoded, and is decoded to itself again: for
  // all values that the members can hold, up to the largest.
  lemma DecodedComesBack(fields: seq<Field>, b: Bytes)
    requires GoodFields(fields) && AllSizesFit(fields) && Decode(fields, b).Some? && AllWhole(fields, Decode(fields, b).value)
    ensures var slots := Decode(fields, b).value;
      && EncodeFields(fields, slots).Some?
      && (|EncodeFields(fields, slots).value| < LIMIT32 ==> Decode(fields, EncodeFields(fields, slots).value) == Some(slots))
  {
    hide GoodFields, Shaped, EncodeFields, DecodeMessage, FitsAll, AllTerminated, AllSizesFit, AllWhole;
    DecodedFits(fields, b);
    var slots := Decode(fields, b).value;
    AllFittingIsShaped(fields, slots);
    FitsAllTerminated(fields, slots);
    ShapedLength(fields, slots);
    if |EncodeFields(fields, slots).value| < LIMIT32 {
      MessageRoundTrip(fields, slots, EncodeFields(fields, slots).value);
    }
  }
}
