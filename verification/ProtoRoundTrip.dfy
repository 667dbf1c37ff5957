/** What the encoder writes, the decoder reads back. */
module ProtoRoundTrip {
  import opened Sequences
  import opened Options
  import opened ProtoVarints
  import opened ProtoScalars
  import opened ProtoMessages

  // Different tags, none of them zero, with room for the wire type in 32 bits.
  ghost predicate GoodType(t: Type)
    decreases t, 0
  {
    t.Submessage? ==> GoodFields(t.fields)
  }

  ghost predicate GoodField(f: Field)
    decreases f, 1
  {
    0 < f.tag < 0x2000_0000 && GoodType(f.ty)
  }

  ghost predicate GoodFields(fields: seq<Field>)
    decreases fields, 2
  {
    && (forall i: nat | i < |fields| :: GoodField(fields[i]))
    && forall i: nat, j: nat | i < j < |fields| :: fields[i].tag != fields[j].tag
  }

  // Every char array ends with a zero inside of it.
  ghost predicate Terminated(t: Type, v: Value)
    decreases t, 0
  {
    match t
    case Text(size) => v.Data? ==> |v.bytes| < size
    case Submessage(fields) => v.Message? && |v.slots| == |fields| ==> AllTerminated(fields, v.slots)
    case _ => true
  }

  ghost predicate TerminatedSlot(f: Field, vs: Slot)
    decreases f, 1
  {
    forall k: nat | k < |vs| :: Terminated(f.ty, vs[k])
  }

  ghost predicate AllTerminated(fields: seq<Field>, slots: seq<Slot>)
    requires |fields| == |slots|
    decreases fields, 2
  {
    forall i: nat | i < |fields| :: TerminatedSlot(fields[i], slots[i])
  }

  // ----- scalars -----

  lemma PrefixedRoundTrip(b: Bytes, pos: nat, d: Bytes)
    requires Holds(b, pos, Prefixed(d)) && |d| < LIMIT32
    ensures DecodePrefixed(b, pos) == Read(d, pos + |Prefixed(d)|)
  {
    hide DecodeVarint32, Varint;
    HoldsBoth(b, pos, Varint(|d|), d);
    Varint32RoundTrip(b, pos, |d|);
    HeldIsSlice(b, pos + |Varint(|d|)|, d);
  }

  lemma FixedDecodes(b: Bytes, pos: nat, v: nat, n: nat)
    requires n > 0 && v < Range(n) && Holds(b, pos, LittleEndian(v, n))
    ensures DecodeFixed(b, pos, n) == Read(Int(v), pos + n)
  {
    LittleEndianRoundTrip(v, n);
    HeldIsSlice(b, pos, LittleEndian(v, n));
  }

  lemma {:induction false} NoZero(b: Bytes)
    requires 0 !in b
    ensures UpToZero(b) == b
  {
    if b != [] {
      assert b[0] in b && forall x | x in b[1..] :: x in b;
      NoZero(b[1..]);
      assert b == [b[0]] + b[1..];
    }
  }

  lemma IntegerRoundTrip(t: Type, v: Value, b: Bytes, pos: nat)
    requires t.SignedInt? || t.UnsignedInt? || t.ZigZagInt? || t.Bool?
    requires Storable(t, v) && EncodeValue(t, v).Some? && pos <= |b| && Holds(b, pos, EncodeValue(t, v).value)
    ensures DecodeValue(t, b, pos, None) == Read(v, pos + |EncodeValue(t, v).value|)
  {
    hide DecodeVarint, DecodeVarint32, Varint, SignedValue, Wrapped, ZigZag, UnZigZag;
    match t
    case Bool => Varint32RoundTrip(b, pos, if v.i != 0 then 1 else 0);
    case SignedInt(w) =>
      SignedRoundTrip(v.i, w);
      WrappedIsWord(v.i);
      VarintRoundTrip(b, pos, Wrapped(v.i));
    case UnsignedInt(w) => VarintRoundTrip(b, pos, v.i);
    case ZigZagInt(w) =>
      SignedRoundTrip(v.i, w);
      ZigZagRoundTrip(v.i);
      VarintRoundTrip(b, pos, ZigZag(v.i));
  }

  lemma WrappedIsWord(i: int)
    requires Signed(8, i)
    ensures Wrapped(i) < LIMIT64
  {
  }

  lemma ScalarRoundTrip(t: Type, v: Value, b: Bytes, pos: nat)
    requires !t.Submessage? && Storable(t, v) && Terminated(t, v) && EncodeValue(t, v).Some?
    requires pos <= |b| && Holds(b, pos, EncodeValue(t, v).value)
    ensures DecodeValue(t, b, pos, None) == Read(v, pos + |EncodeValue(t, v).value|)
  {
    hide DecodePrefixed, DecodeFixed, Prefixed, UpToZero, Holds;
    Ranges();
    match t
    case Fixed32 => FixedDecodes(b, pos, v.i, 4);
    case Fixed64 => FixedDecodes(b, pos, v.i, 8);
    case Blob(_) => PrefixedRoundTrip(b, pos, v.bytes);
    case Text(_) =>
      PrefixedRoundTrip(b, pos, v.bytes);
      NoZero(v.bytes);
    case FixedBlob(_) => PrefixedRoundTrip(b, pos, v.bytes);
    case _ => IntegerRoundTrip(t, v, b, pos);
  }

  // ----- one field of a message -----

  // What is decoded when the first n fields have been read.
  function Partial(slots: seq<Slot>, n: nat): (r: seq<Slot>)
    ensures |r| == |slots|
  {
    seq(|slots|, j requires 0 <= j < |slots| => if j < n then slots[j] else [])
  }

  lemma FoundByTag(fields: seq<Field>, i: nat)
    requires i < |fields| && forall j: nat, k: nat | j < k < |fields| :: fields[j].tag != fields[k].tag
    ensures FindField(fields, fields[i].tag) == i
  {
    var k := FindField(fields, fields[i].tag);
    if k < i {
      assert false;
    }
  }

  lemma TagRoundTrip(b: Bytes, pos: nat, wire: nat, tag: nat)
    requires 0 < tag < 0x2000_0000 && wire < 8 && Holds(b, pos, Tag(wire, tag))
    ensures var t := DecodeVarint32(b, pos);
      t == Read(tag * 8 + wire, pos + |Tag(wire, tag)|) && t.value != 0 && t.value / 8 == tag && t.value % 8 == wire
  {
    Varint32RoundTrip(b, pos, tag * 8 + wire);
  }

  lemma GoodTag(fields: seq<Field>, i: nat)
    requires GoodFields(fields) && i < |fields|
    ensures 0 < fields[i].tag < 0x2000_0000 && FindField(fields, fields[i].tag) == i
  {
    hide FindField;
    assert GoodField(fields[i]);
    FoundByTag(fields, i);
  }

  // One tag and what follows it: the decoder sets that field and goes on.
  lemma FieldStep(fields: seq<Field>, m: Bytes, pos: nat, slots: seq<Slot>, seen: set<nat>, i: nat, wire: nat, vs: Slot, next: nat)
    requires GoodFields(fields) && |slots| == |fields| && i < |fields| && wire < 8
    requires pos <= |m| && Holds(m, pos, Tag(wire, fields[i].tag))
    requires DecodeField(fields[i], m, pos + |Tag(wire, fields[i].tag)|, wire, slots[i]) == Read(vs, next)
    ensures pos < next <= |m|
    ensures DecodeMessage(fields, m, pos, slots, seen)
         == DecodeMessage(fields, m, next, SetSlot(fields, slots, i, vs), seen + {i})
  {
    hide DecodeField, DecodeVarint32, SetSlot, Varint, Tag, Holds, FindField, GoodFields, Finish, SkipField;
    GoodTag(fields, i);
    TagRoundTrip(m, pos, wire, fields[i].tag);
  }

  // With the other members of its oneof absent, a field is set without touching the others.
  lemma SetNext(fields: seq<Field>, slots: seq<Slot>, i: nat, vs: Slot)
    requires Shaped(fields, slots) && i < |fields| && slots[i] != []
    ensures SetSlot(fields, Partial(slots, i)[i := vs], i, slots[i]) == Partial(slots, i + 1)
    ensures SetSlot(fields, Partial(slots, i), i, slots[i]) == Partial(slots, i + 1)
    ensures fields[i].kind.Repeated? ==> SetSlot(fields, Partial(slots, i), i, vs) == Partial(slots, i)[i := vs]
  {
  }

  // ----- the round trip -----

  lemma {:induction false} ValueRoundTrip(t: Type, v: Value, b: Bytes, pos: nat)
    requires GoodType(t) && Storable(t, v) && Terminated(t, v)
    requires EncodeValue(t, v).Some? && |EncodeValue(t, v).value| < LIMIT32
    requires pos <= |b| && Holds(b, pos, EncodeValue(t, v).value)
    ensures DecodeValue(t, b, pos, None) == Read(v, pos + |EncodeValue(t, v).value|)
    decreases t, 0
  {
    if t.Submessage? {
      var m := EncodeFields(t.fields, v.slots).value;
      PrefixedRoundTrip(b, pos, m);
      MessageRoundTrip(t.fields, v.slots, m);
    } else {
      ScalarRoundTrip(t, v, b, pos);
    }
  }

  lemma {:induction false} MessageRoundTrip(fields: seq<Field>, slots: seq<Slot>, m: Bytes)
    requires GoodFields(fields) && Shaped(fields, slots) && AllTerminated(fields, slots)
    requires EncodeFields(fields, slots) == Some(m) && |m| < LIMIT32
    ensures DecodeMessage(fields, m, 0, seq(|fields|, _ => []), {}) == Some(slots)
    decreases fields, 9
  {
    hide EncodeFields, DecodeMessage, Shaped, GoodFields, AllTerminated;
    assert fields[0..] == fields && slots[0..] == slots;
    ShapedLength(fields, slots);
    assert Partial(slots, 0) == seq(|fields|, _ => []);
    FieldsFrom(fields, slots, 0, m, 0, {});
  }

  lemma ShapedLength(fields: seq<Field>, slots: seq<Slot>)
    requires Shaped(fields, slots)
    ensures |slots| == |fields|
  {
  }

  // From field i on.
  lemma {:induction false} FieldsFrom(fields: seq<Field>, slots: seq<Slot>, i: nat, m: Bytes, pos: nat, seen: set<nat>)
    requires GoodFields(fields) && Shaped(fields, slots) && AllTerminated(fields, slots) && |m| < LIMIT32
    requires i <= |fields| && pos <= |m| && EncodeFields(fields[i..], slots[i..]).Some?
    requires Holds(m, pos, EncodeFields(fields[i..], slots[i..]).value)
    requires pos + |EncodeFields(fields[i..], slots[i..]).value| == |m|
    requires forall j: nat | j < i && fields[j].kind.Required? :: j in seen
    ensures DecodeMessage(fields, m, pos, Partial(slots, i), seen) == Some(slots)
    decreases fields, 8, |fields| - i
  {
    hide GoodFields, Shaped, AllTerminated, DecodeMessage, EncodeSlot, SetSlot;
    ShapedLength(fields, slots);
    if i == |fields| {
      AllRead(fields, slots, m, seen);
    } else {
      assert fields[i..][1..] == fields[i + 1..] && slots[i..][1..] == slots[i + 1..];
      var e := EncodeSlot(fields[i], slots[i]).value;
      HoldsBoth(m, pos, e, EncodeFields(fields[i + 1..], slots[i + 1..]).value);
      SlotRoundTrip(fields, slots, i, m, pos, seen);
      if fields[i].kind.Required? {
        RequiredIsThere(fields, slots, i);
      }
      FieldsFrom(fields, slots, i + 1, m, pos + |e|, if slots[i] == [] then seen else seen + {i});
    }
  }

  lemma AllRead(fields: seq<Field>, slots: seq<Slot>, m: Bytes, seen: set<nat>)
    requires |fields| == |slots| && forall j: nat | j < |fields| && fields[j].kind.Required? :: j in seen
    ensures DecodeMessage(fields, m, |m|, Partial(slots, |fields|), seen) == Some(slots)
  {
    assert Partial(slots, |fields|) == slots;
  }

  lemma RequiredIsThere(fields: seq<Field>, slots: seq<Slot>, i: nat)
    requires Shaped(fields, slots) && i < |fields| && fields[i].kind.Required?
    ensures slots[i] != []
  {
    hide Storable;
    assert StorableSlot(fields[i], slots[i]);
  }

  // One slot: nothing, one value, a packed array, or an array of tagged values.
  lemma {:induction false} SlotRoundTrip(fields: seq<Field>, slots: seq<Slot>, i: nat, m: Bytes, pos: nat, seen: set<nat>)
    requires GoodFields(fields) && Shaped(fields, slots) && AllTerminated(fields, slots) && |m| < LIMIT32
    requires i < |fields| && pos <= |m| && EncodeSlot(fields[i], slots[i]).Some?
    requires Holds(m, pos, EncodeSlot(fields[i], slots[i]).value)
    ensures DecodeMessage(fields, m, pos, Partial(slots, i), seen)
         == DecodeMessage(fields, m, pos + |EncodeSlot(fields[i], slots[i]).value|, Partial(slots, i + 1),
                          if slots[i] == [] then seen else seen + {i})
    decreases fields, 7
  {
    hide DecodeMessage, GoodFields;
    var f, vs := fields[i], slots[i];
    if vs == [] {
      assert Partial(slots, i) == Partial(slots, i + 1);
    } else if !f.kind.Repeated? {
      SingleRoundTrip(fields, slots, i, m, pos, seen);
    } else if Packable(f.ty) {
      PackedRoundTrip(fields, slots, i, m, pos, seen);
    } else {
      RepeatedRoundTrip(fields, slots, i, 0, m, pos, seen);
      assert vs[0..] == vs && Partial(slots, i)[i := vs[..0]] == Partial(slots, i);
    }
  }

  lemma {:induction false} ItemRoundTrip(f: Field, v: Value, b: Bytes, pos: nat)
    requires GoodField(f) && Storable(f.ty, v) && Terminated(f.ty, v) && EncodeValue(f.ty, v).Some?
    requires pos <= |b| < LIMIT32 && Holds(b, pos, EncodeValue(f.ty, v).value)
    ensures DecodeValue(f.ty, b, pos, None) == Read(v, pos + |EncodeValue(f.ty, v).value|)
    decreases f, 0
  {
    hide EncodeValue, DecodeValue, Storable, Terminated, GoodType;
    ValueRoundTrip(f.ty, v, b, pos);
  }

  // The parts of the premises that one value needs.
  lemma ItemIsGood(fields: seq<Field>, slots: seq<Slot>, i: nat, k: nat)
    requires GoodFields(fields) && Shaped(fields, slots) && AllTerminated(fields, slots)
    requires i < |fields| && k < |slots[i]|
    ensures GoodField(fields[i]) && StorableSlot(fields[i], slots[i])
    ensures Storable(fields[i].ty, slots[i][k]) && Terminated(fields[i].ty, slots[i][k])
  {
    hide Storable, Terminated, GoodField;
    assert TerminatedSlot(fields[i], slots[i]) && StorableSlot(fields[i], slots[i]);
  }

  lemma {:induction false} SingleRoundTrip(fields: seq<Field>, slots: seq<Slot>, i: nat, m: Bytes, pos: nat, seen: set<nat>)
    requires GoodFields(fields) && Shaped(fields, slots) && AllTerminated(fields, slots) && |m| < LIMIT32
    requires i < |fields| && pos <= |m| && EncodeSlot(fields[i], slots[i]).Some?
    requires Holds(m, pos, EncodeSlot(fields[i], slots[i]).value)
    requires slots[i] != [] && !fields[i].kind.Repeated?
    ensures DecodeMessage(fields, m, pos, Partial(slots, i), seen)
         == DecodeMessage(fields, m, pos + |EncodeSlot(fields[i], slots[i]).value|, Partial(slots, i + 1), seen + {i})
    decreases fields, 6
  {
    hide DecodeMessage, GoodFields, Shaped, AllTerminated, GoodField, EncodeValue, DecodeValue, Tag;
    hide Storable, Terminated, SetSlot;
    ShapedLength(fields, slots);
    var f, v := fields[i], slots[i][0];
    ItemIsGood(fields, slots, i, 0);
    assert slots[i] == [v];
    var tag := Tag(WireType(f.ty), f.tag);
    HoldsBoth(m, pos, tag, EncodeValue(f.ty, v).value);
    ItemRoundTrip(f, v, m, pos + |tag|);
    FieldStep(fields, m, pos, Partial(slots, i), seen, i, WireType(f.ty), [v], pos + |tag| + |EncodeValue(f.ty, v).value|);
    SetNext(fields, slots, i, []);
  }

  // Values k and on of a packed array.
  lemma {:induction false} PackedItems(f: Field, vs: Slot, k: nat, b: Bytes, pos: nat)
    requires GoodField(f) && f.kind.Repeated? && Packable(f.ty) && StorableSlot(f, vs) && TerminatedSlot(f, vs)
    requires k <= |vs| <= f.kind.max && EncodeItems(f.ty, [], vs[k..]).Some? && pos <= |b| < LIMIT32
    requires Holds(b, pos, EncodeItems(f.ty, [], vs[k..]).value)
    requires pos + |EncodeItems(f.ty, [], vs[k..]).value| == |b|
    ensures DecodePacked(f.ty, b, pos, vs[..k], f.kind.max) == Some(vs)
    decreases f, 1, |vs| - k
  {
    hide Storable, Terminated, EncodeValue, DecodeValue, GoodField, Holds;
    if k == |vs| {
      assert vs[..k] == vs;
    } else {
      assert vs[k..][1..] == vs[k + 1..] && vs[..k] + [vs[k]] == vs[..k + 1];
      var e, rest := EncodeValue(f.ty, vs[k]).value, EncodeItems(f.ty, [], vs[k + 1..]).value;
      assert [] + e + rest == e + rest;
      HoldsBoth(b, pos, e, rest);
      assert Storable(f.ty, vs[k]) && Terminated(f.ty, vs[k]);
      ItemRoundTrip(f, vs[k], b, pos);
      PackedItems(f, vs, k + 1, b, pos + |e|);
    }
  }

  lemma {:induction false} PackedRoundTrip(fields: seq<Field>, slots: seq<Slot>, i: nat, m: Bytes, pos: nat, seen: set<nat>)
    requires GoodFields(fields) && Shaped(fields, slots) && AllTerminated(fields, slots) && |m| < LIMIT32
    requires i < |fields| && pos <= |m| && EncodeSlot(fields[i], slots[i]).Some?
    requires Holds(m, pos, EncodeSlot(fields[i], slots[i]).value)
    requires slots[i] != [] && fields[i].kind.Repeated? && Packable(fields[i].ty)
    ensures DecodeMessage(fields, m, pos, Partial(slots, i), seen)
         == DecodeMessage(fields, m, pos + |EncodeSlot(fields[i], slots[i]).value|, Partial(slots, i + 1), seen + {i})
    decreases fields, 6
  {
    hide DecodeMessage, GoodFields, Shaped, AllTerminated, GoodField, DecodeValue, Tag, DecodePacked, EncodeItems;
    hide Storable, Terminated, SetSlot, Holds, Prefixed;
    ShapedLength(fields, slots);
    var f, vs := fields[i], slots[i];
    ItemIsGood(fields, slots, i, 0);
    var tag, b := Tag(STRING, f.tag), EncodeItems(f.ty, [], vs).value;
    HoldsBoth(m, pos, tag, Prefixed(b));
    HoldsShorter(m, pos + |tag|, b);
    PrefixedRoundTrip(m, pos + |tag|, b);
    assert vs[0..] == vs && vs[..0] == [];
    HoldsItself(b);
    assert TerminatedSlot(f, vs) by { TerminatedAt(fields, slots, i); }
    PackedItems(f, vs, 0, b, 0);
    FieldStep(fields, m, pos, Partial(slots, i), seen, i, STRING, vs, pos + |tag| + |Prefixed(b)|);
    SetNext(fields, slots, i, []);
  }

  lemma TerminatedAt(fields: seq<Field>, slots: seq<Slot>, i: nat)
    requires |fields| == |slots| && AllTerminated(fields, slots) && i < |fields|
    ensures TerminatedSlot(fields[i], slots[i])
  {
  }

  lemma HoldsItself(b: Bytes)
    ensures Holds(b, 0, b)
  {
  }

  lemma HoldsShorter(m: Bytes, pos: nat, b: Bytes)
    requires Holds(m, pos, Prefixed(b))
    ensures |b| < |m|
  {
  }

  // Values k and on of an array whose values have a tag each.
  lemma {:induction false} RepeatedRoundTrip(fields: seq<Field>, slots: seq<Slot>, i: nat, k: nat, m: Bytes, pos: nat,
                                             seen: set<nat>)
    requires GoodFields(fields) && Shaped(fields, slots) && AllTerminated(fields, slots) && |m| < LIMIT32
    requires i < |fields| && pos <= |m| && fields[i].kind.Repeated? && !Packable(fields[i].ty)
    requires slots[i] != [] && k <= |slots[i]| <= fields[i].kind.max
    requires EncodeItems(fields[i].ty, Tag(WireType(fields[i].ty), fields[i].tag), slots[i][k..]).Some?
    requires Holds(m, pos, EncodeItems(fields[i].ty, Tag(WireType(fields[i].ty), fields[i].tag), slots[i][k..]).value)
    requires k == 0 || i in seen
    ensures DecodeMessage(fields, m, pos, Partial(slots, i)[i := slots[i][..k]], seen)
         == DecodeMessage(fields, m,
                          pos + |EncodeItems(fields[i].ty, Tag(WireType(fields[i].ty), fields[i].tag), slots[i][k..]).value|,
                          Partial(slots, i + 1), seen + {i})
    decreases fields, 6, |slots[i]| - k
  {
    hide DecodeMessage, GoodFields, Shaped, AllTerminated, GoodField, EncodeValue, DecodeValue, Tag;
    hide Storable, Terminated, SetSlot, StorableSlot;
    ShapedLength(fields, slots);
    var f, vs := fields[i], slots[i];
    if k == |vs| {
      assert vs[..k] == vs && Partial(slots, i)[i := vs] == Partial(slots, i + 1);
      assert seen + {i} == seen;
    } else {
      var tag, v := Tag(WireType(f.ty), f.tag), vs[k];
      assert vs[k..][1..] == vs[k + 1..] && vs[..k] + [v] == vs[..k + 1];
      ItemIsGood(fields, slots, i, k);
      var e, rest := EncodeValue(f.ty, v).value, EncodeItems(f.ty, tag, vs[k + 1..]).value;
      HoldsBoth(m, pos, tag + e, rest);
      HoldsBoth(m, pos, tag, e);
      ItemRoundTrip(f, v, m, pos + |tag|);
      var s := Partial(slots, i)[i := vs[..k]];
      FieldStep(fields, m, pos, s, seen, i, WireType(f.ty), vs[..k + 1], pos + |tag| + |e|);
      SetAgain(fields, slots, i, k);
      RepeatedRoundTrip(fields, slots, i, k + 1, m, pos + |tag| + |e|, seen + {i});
      assert seen + {i} + {i} == seen + {i};
    }
  }

  lemma SetAgain(fields: seq<Field>, slots: seq<Slot>, i: nat, k: nat)
    requires |fields| == |slots| && i < |fields| && k < |slots[i]| && fields[i].kind.Repeated?
    ensures SetSlot(fields, Partial(slots, i)[i := slots[i][..k]], i, slots[i][..k + 1])
         == Partial(slots, i)[i := slots[i][..k + 1]]
  {
  }
}
