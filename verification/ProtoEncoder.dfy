/** The encoder: an output stream that writes or only counts, and the passes over a message that use it. */
module ProtoEncoder {
  import opened Sequences
  import opened Options
  import opened ProtoVarints
  import opened ProtoScalars
  import opened ProtoMessages

  // A stream goes from w0 bytes counted and b0 in the buffer to w1 and b1 by writing e, if e exists and fits.
  ghost predicate Wrote(sizing: bool, max: nat, w0: nat, b0: Bytes, w1: nat, b1: Bytes, e: Option<Bytes>, ok: bool) {
    && (ok <==> e.Some? && (sizing || w0 + |e.value| <= max))
    && (ok ==> w1 == w0 + |e.value| && b1 == if sizing then b0 else b0 + e.value)
  }

  function Joined(a: Option<Bytes>, b: Option<Bytes>): Option<Bytes> {
    if a.Some? && b.Some? then Some(a.value + b.value) else None
  }

  lemma WroteBoth(sizing: bool, max: nat, w0: nat, b0: Bytes, w1: nat, b1: Bytes, w2: nat, b2: Bytes,
                  a: Option<Bytes>, e: Option<Bytes>, ok: bool)
    requires Wrote(sizing, max, w0, b0, w1, b1, a, true) && Wrote(sizing, max, w1, b1, w2, b2, e, ok)
    ensures Wrote(sizing, max, w0, b0, w2, b2, Joined(a, e), ok)
  {
    if ok && !sizing {
      assert b0 + a.value + e.value == b0 + (a.value + e.value);
    }
  }

  lemma WroteNone(sizing: bool, max: nat, w0: nat, b0: Bytes, w1: nat, b1: Bytes, a: Option<Bytes>, e: Option<Bytes>)
    requires Wrote(sizing, max, w0, b0, w1, b1, a, false)
    ensures Wrote(sizing, max, w0, b0, w1, b1, Joined(a, e), false)
  {
  }

  class OStream {
    // A sizing stream has no callback: it only counts.
    const sizing: bool
    const max: nat
    var written: nat
    var state: Bytes

    constructor (sizing: bool, max: nat, state: Bytes)
      ensures this.sizing == sizing && this.max == max && written == 0 && this.state == state
    {
      this.sizing, this.max, this.written, this.state := sizing, max, 0, state;
    }

    ghost predicate Emitted(w0: nat, b0: Bytes, e: Option<Bytes>, ok: bool)
      reads this
    {
      Wrote(sizing, max, w0, b0, written, state, e, ok) && InBounds()
    }

    // Nothing is written past the end of the buffer, success or not.
    ghost predicate InBounds()
      reads this
    {
      sizing || written <= max
    }

    // pb_write
    method Write(b: Bytes) returns (ok: bool)
      requires InBounds()
      modifies this
      ensures Emitted(old(written), old(state), Some(b), ok)
    {
      if |b| > 0 && !sizing {
        if written + |b| > max {
          return false;  // stream full
        }
        state := state + b;
      }
      written := written + |b|;
      ok := true;
    }

    // pb_write without a buffer, of a stream that only counts
    method Count(count: nat)
      requires sizing
      modifies this
      ensures written == old(written) + count && state == old(state)
    {
      written := written + count;
    }

    // pb_encode_varint
    method WriteVarint(value: nat) returns (ok: bool)
      requires InBounds()
      modifies this
      ensures Emitted(old(written), old(state), Some(Varint(value)), ok)
    {
      var buffer := EncodeVarint(value);
      ok := Write(buffer);
    }

    // pb_encode_tag
    method WriteTag(wire: nat, tag: nat) returns (ok: bool)
      requires InBounds()
      modifies this
      ensures Emitted(old(written), old(state), Some(Tag(wire, tag)), ok)
    {
      ok := WriteVarint(tag * 8 + wire);
    }

    // pb_encode_string
    method WriteString(b: Bytes) returns (ok: bool)
      requires InBounds()
      modifies this
      ensures Emitted(old(written), old(state), Some(Prefixed(b)), ok)
    {
      ok := WriteVarint(|b|);
      ghost var w1, b1 := written, state;
      if !ok {
        WroteNone(sizing, max, old(written), old(state), w1, b1, Some(Varint(|b|)), Some(b));
        return;
      }
      ok := Write(b);
      WroteBoth(sizing, max, old(written), old(state), w1, b1, written, state, Some(Varint(|b|)), Some(b), ok);
    }
  }

  // pb_encode_submessage: once to count, and once more through a stream with just that room.
  method WriteSubmessage(stream: OStream, fields: seq<Field>, slots: seq<Slot>) returns (ok: bool)
    requires stream.InBounds() && Shaped(fields, slots)
    modifies stream
    ensures stream.Emitted(old(stream.written), old(stream.state), EncodeValue(Submessage(fields), Message(slots)), ok)
    decreases fields, 4
  {
    ghost var w0, b0 := stream.written, stream.state;
    ghost var e := EncodeFields(fields, slots);
    var size: nat;
    ok, size := EncodedSize(fields, slots);
    if !ok {
      return;
    }
    ok := stream.WriteVarint(size);
    ghost var w1, b1 := stream.written, stream.state;
    if !ok {
      WroteNone(stream.sizing, stream.max, w0, b0, w1, b1, Some(Varint(size)), e);
      return;
    }
    if stream.sizing {
      stream.Count(size);
      WroteBoth(stream.sizing, stream.max, w0, b0, w1, b1, stream.written, stream.state, Some(Varint(size)), e, true);
      return;
    }
    if stream.written + size > stream.max {
      WroteBoth(stream.sizing, stream.max, w0, b0, w1, b1, w1, b1, Some(Varint(size)), e, false);
      return false;
    }
    var substream := new OStream(false, size, stream.state);
    ok := WriteMessage(substream, fields, slots);
    stream.written := stream.written + substream.written;
    stream.state := substream.state;
    assert substream.written == size;  // the size of a submessage does not change
    WroteBoth(stream.sizing, stream.max, w0, b0, w1, b1, stream.written, stream.state, Some(Varint(size)), e, ok);
  }

  // pb_get_encoded_size
  method EncodedSize(fields: seq<Field>, slots: seq<Slot>) returns (ok: bool, size: nat)
    requires Shaped(fields, slots)
    ensures ok <==> EncodeFields(fields, slots).Some?
    ensures ok ==> size == |EncodeFields(fields, slots).value|
    decreases fields, 3
  {
    var stream := new OStream(true, 0, []);
    ok := WriteMessage(stream, fields, slots);
    size := stream.written;
  }

  // The encoder of a type.
  method WriteValue(stream: OStream, t: Type, v: Value) returns (ok: bool)
    requires stream.InBounds() && Storable(t, v)
    modifies stream
    ensures stream.Emitted(old(stream.written), old(stream.state), EncodeValue(t, v), ok)
    decreases t, 0
  {
    match t
    case Bool => ok := stream.WriteVarint(if v.i != 0 then 1 else 0);
    case SignedInt(w) =>
      SignedRoundTrip(v.i, w);
      ok := stream.WriteVarint(Wrapped(v.i));
    case UnsignedInt(_) => ok := stream.WriteVarint(v.i);
    case ZigZagInt(w) =>
      SignedRoundTrip(v.i, w);
      ok := stream.WriteVarint(ZigZag(v.i));
    case Fixed32 => ok := stream.Write(LittleEndian(v.i, 4));
    case Fixed64 => ok := stream.Write(LittleEndian(v.i, 8));
    case Blob(max) =>
      if |v.bytes| > max {
        return false;  // bytes size exceeded
      }
      ok := stream.WriteString(v.bytes);
    case Text(_) => ok := stream.WriteString(v.bytes);
    case FixedBlob(_) => ok := stream.WriteString(v.bytes);
    case Submessage(fields) => ok := WriteSubmessage(stream, fields, v.slots);
  }

  // The values of an array one after another, each with its tag or none.
  method WriteItems(stream: OStream, f: Field, tagged: bool, vs: Slot) returns (ok: bool)
    requires stream.InBounds() && forall k: nat | k < |vs| :: Storable(f.ty, vs[k])
    modifies stream
    ensures stream.Emitted(old(stream.written), old(stream.state),
                           EncodeItems(f.ty, if tagged then Tag(WireType(f.ty), f.tag) else [], vs), ok)
    decreases f, 0, 0
  {
    hide Storable, EncodeValue, EncodeItems, Wrote;
    ghost var before: Bytes := if tagged then Tag(WireType(f.ty), f.tag) else [];
    ghost var w0, b0 := stream.written, stream.state;
    ghost var done: Bytes := [];
    NothingWrote(stream.sizing, stream.max, w0, b0);
    var i := 0;
    assert vs[0..] == vs;
    NothingBefore(EncodeItems(f.ty, before, vs));
    while i < |vs|
      invariant 0 <= i <= |vs|
      invariant stream.Emitted(w0, b0, Some(done), true)
      invariant EncodeItems(f.ty, before, vs) == Joined(Some(done), EncodeItems(f.ty, before, vs[i..]))
    {
      ghost var w1, b1 := stream.written, stream.state;
      ok := WriteItem(stream, f, tagged, vs[i]);
      ghost var e := Joined(Some(before), EncodeValue(f.ty, vs[i]));
      WroteBoth(stream.sizing, stream.max, w0, b0, w1, b1, stream.written, stream.state, Some(done), e, ok);
      ItemsStep(f.ty, before, vs, i);
      JoinedAssociates(Some(done), e, EncodeItems(f.ty, before, vs[i + 1..]));
      if !ok {
        WroteNone(stream.sizing, stream.max, w0, b0, stream.written, stream.state, Joined(Some(done), e),
                  EncodeItems(f.ty, before, vs[i + 1..]));
        return;
      }
      WroteSome(stream.sizing, stream.max, w0, b0, stream.written, stream.state, Joined(Some(done), e));
      done := Joined(Some(done), e).value;
      i := i + 1;
    }
    ok := true;
    ItemsEnd(f.ty, before, vs);
  }

  method WriteItem(stream: OStream, f: Field, tagged: bool, v: Value) returns (ok: bool)
    requires stream.InBounds() && Storable(f.ty, v)
    modifies stream
    ensures stream.Emitted(old(stream.written), old(stream.state),
                           Joined(Some(if tagged then Tag(WireType(f.ty), f.tag) else []), EncodeValue(f.ty, v)), ok)
    decreases f.ty, 1
  {
    hide Storable, EncodeValue, Wrote, Tag;
    ghost var before: Bytes := if tagged then Tag(WireType(f.ty), f.tag) else [];
    ghost var w0, b0 := stream.written, stream.state;
    NothingWrote(stream.sizing, stream.max, w0, b0);
    if tagged {
      ok := stream.WriteTag(WireType(f.ty), f.tag);
      if !ok {
        WroteNone(stream.sizing, stream.max, w0, b0, stream.written, stream.state, Some(before), EncodeValue(f.ty, v));
        return;
      }
    }
    ghost var w1, b1 := stream.written, stream.state;
    ok := WriteValue(stream, f.ty, v);
    WroteBoth(stream.sizing, stream.max, w0, b0, w1, b1, stream.written, stream.state, Some(before), EncodeValue(f.ty, v), ok);
  }

  // encode_array
  method WriteArray(stream: OStream, f: Field, vs: Slot) returns (ok: bool)
    requires stream.InBounds() && f.kind.Repeated? && forall k: nat | k < |vs| :: Storable(f.ty, vs[k])
    modifies stream
    ensures stream.Emitted(old(stream.written), old(stream.state), EncodeSlot(f, vs), ok)
    decreases f, 1
  {
    hide Storable, EncodeValue, EncodeItems, Wrote, Tag, Prefixed;
    ghost var w0, b0 := stream.written, stream.state;
    NothingWrote(stream.sizing, stream.max, w0, b0);
    if vs == [] {
      return true;
    }
    if |vs| > f.kind.max {
      CannotWrite(stream.sizing, stream.max, w0, b0);
      return false;  // array max size exceeded
    }
    if Packable(f.ty) {
      ok := WritePacked(stream, f, vs);
    } else {
      ok := WriteItems(stream, f, true, vs);
    }
  }

  method WritePacked(stream: OStream, f: Field, vs: Slot) returns (ok: bool)
    requires stream.InBounds() && Packable(f.ty) && forall k: nat | k < |vs| :: Storable(f.ty, vs[k])
    modifies stream
    ensures stream.Emitted(old(stream.written), old(stream.state), PackedBytes(f, vs), ok)
    decreases f, 0, 2
  {
    hide Storable, EncodeValue, EncodeItems, Wrote, Tag, Varint, EncodeSlot;
    ghost var w0, b0 := stream.written, stream.state;
    ghost var tag, e := Tag(STRING, f.tag), EncodeItems(f.ty, [], vs);
    PackedItemsExist(f.ty, vs);
    ghost var head := Varint(|e.value|);
    PackedIs(f, vs);
    ok := stream.WriteTag(STRING, f.tag);
    ghost var w1, b1 := stream.written, stream.state;
    if !ok {
      WroteNone(stream.sizing, stream.max, w0, b0, w1, b1, Some(tag), Some(head + e.value));
      return;
    }
    // The size of the array, without writing it.
    var size: nat := PackedSize(f, vs);
    ok := stream.WriteVarint(size);
    ghost var w2, b2 := stream.written, stream.state;
    WroteBoth(stream.sizing, stream.max, w0, b0, w1, b1, w2, b2, Some(tag), Some(head), ok);
    if !ok {
      WroteNone(stream.sizing, stream.max, w0, b0, w2, b2, Some(tag + head), e);
      return;
    }
    if stream.sizing {
      stream.Count(size);
      CountedIs(stream.max, w2, b2, stream.written, stream.state, e.value);
    } else {
      ok := WriteItems(stream, f, false, vs);
    }
    WroteBoth(stream.sizing, stream.max, w0, b0, w2, b2, stream.written, stream.state, Some(tag + head), e, ok);
  }

  method PackedSize(f: Field, vs: Slot) returns (size: nat)
    requires Packable(f.ty) && forall k: nat | k < |vs| :: Storable(f.ty, vs[k])
    ensures EncodeItems(f.ty, [], vs).Some? && size == |EncodeItems(f.ty, [], vs).value|
    decreases f, 0, 1
  {
    PackedItemsExist(f.ty, vs);
    if f.ty.Fixed32? {
      size := 4 * |vs|;
    } else if f.ty.Fixed64? {
      size := 8 * |vs|;
    } else {
      var sizes := new OStream(true, 0, []);
      var ok := WriteItems(sizes, f, false, vs);
      assert ok;  // counting scalars cannot fail
      size := sizes.written;
    }
  }

  // encode_basic_field
  method WriteField(stream: OStream, f: Field, vs: Slot) returns (ok: bool)
    requires stream.InBounds() && StorableSlot(f, vs)
    modifies stream
    ensures stream.Emitted(old(stream.written), old(stream.state), EncodeSlot(f, vs), ok)
    decreases f, 2
  {
    hide Storable, EncodeValue, EncodeItems, Wrote;
    if f.kind.Repeated? {
      ok := WriteArray(stream, f, vs);
    } else if vs == [] {
      NothingWrote(stream.sizing, stream.max, stream.written, stream.state);
      ok := true;
    } else {
      ok := WriteItem(stream, f, true, vs[0]);
    }
  }

  // pb_encode
  method WriteMessage(stream: OStream, fields: seq<Field>, slots: seq<Slot>) returns (ok: bool)
    requires stream.InBounds() && Shaped(fields, slots)
    modifies stream
    ensures stream.Emitted(old(stream.written), old(stream.state), EncodeFields(fields, slots), ok)
    decreases fields, 2
  {
    hide StorableSlot, EncodeSlot, EncodeFields, Wrote;
    ghost var w0, b0 := stream.written, stream.state;
    ghost var done: Bytes := [];
    NothingWrote(stream.sizing, stream.max, w0, b0);
    var i := 0;
    assert fields[0..] == fields && slots[0..] == slots;
    NothingBefore(EncodeFields(fields, slots));
    while i < |fields|
      invariant 0 <= i <= |fields|
      invariant stream.Emitted(w0, b0, Some(done), true)
      invariant EncodeFields(fields, slots) == Joined(Some(done), EncodeFields(fields[i..], slots[i..]))
    {
      ghost var w1, b1 := stream.written, stream.state;
      assert StorableSlot(fields[i], slots[i]);
      ok := WriteField(stream, fields[i], slots[i]);
      ghost var e, rest := EncodeSlot(fields[i], slots[i]), EncodeFields(fields[i + 1..], slots[i + 1..]);
      WroteBoth(stream.sizing, stream.max, w0, b0, w1, b1, stream.written, stream.state, Some(done), e, ok);
      FieldsStep(fields, slots, i);
      JoinedAssociates(Some(done), e, rest);
      if !ok {
        WroteNone(stream.sizing, stream.max, w0, b0, stream.written, stream.state, Joined(Some(done), e), rest);
        return;
      }
      WroteSome(stream.sizing, stream.max, w0, b0, stream.written, stream.state, Joined(Some(done), e));
      done := Joined(Some(done), e).value;
      i := i + 1;
    }
    ok := true;
    FieldsEnd(fields, slots);
  }

  // ----- steps of the passes -----

  lemma NothingWrote(sizing: bool, max: nat, w: nat, b: Bytes)
    requires sizing || w <= max
    ensures Wrote(sizing, max, w, b, w, b, Some([]), true)
  {
    assert b + [] == b;
  }

  lemma CannotWrite(sizing: bool, max: nat, w: nat, b: Bytes)
    ensures Wrote(sizing, max, w, b, w, b, None, false)
  {
  }

  lemma CountedIs(max: nat, w0: nat, b: Bytes, w1: nat, b1: Bytes, e: Bytes)
    requires w1 == w0 + |e| && b1 == b
    ensures Wrote(true, max, w0, b, w1, b1, Some(e), true)
  {
  }

  lemma WroteSome(sizing: bool, max: nat, w0: nat, b0: Bytes, w1: nat, b1: Bytes, e: Option<Bytes>)
    requires Wrote(sizing, max, w0, b0, w1, b1, e, true)
    ensures e.Some?
  {
  }

  lemma NothingBefore(e: Option<Bytes>)
    ensures Joined(Some([]), e) == e
  {
    if e.Some? {
      assert [] + e.value == e.value;
    }
  }

  lemma JoinedAssociates(a: Option<Bytes>, b: Option<Bytes>, c: Option<Bytes>)
    ensures Joined(a, Joined(b, c)) == Joined(Joined(a, b), c)
  {
    if a.Some? && b.Some? && c.Some? {
      assert a.value + (b.value + c.value) == a.value + b.value + c.value;
    }
  }

  lemma ItemsStep(t: Type, before: Bytes, vs: Slot, i: nat)
    requires i < |vs|
    ensures EncodeItems(t, before, vs[i..])
         == Joined(Joined(Some(before), EncodeValue(t, vs[i])), EncodeItems(t, before, vs[i + 1..]))
  {
    hide EncodeValue;
    assert vs[i..][1..] == vs[i + 1..];
  }

  lemma ItemsEnd(t: Type, before: Bytes, vs: Slot)
    ensures EncodeItems(t, before, vs[|vs|..]) == Some([])
    ensures forall done :: Joined(Some(done), EncodeItems(t, before, vs[|vs|..])) == Some(done)
  {
    forall done: Bytes ensures done + [] == done {
    }
  }

  lemma FieldsStep(fields: seq<Field>, slots: seq<Slot>, i: nat)
    requires |fields| == |slots| && i < |fields|
    ensures EncodeFields(fields[i..], slots[i..])
         == Joined(EncodeSlot(fields[i], slots[i]), EncodeFields(fields[i + 1..], slots[i + 1..]))
  {
    hide EncodeSlot;
    assert fields[i..][1..] == fields[i + 1..] && slots[i..][1..] == slots[i + 1..];
  }

  lemma FieldsEnd(fields: seq<Field>, slots: seq<Slot>)
    requires |fields| == |slots|
    ensures EncodeFields(fields[|fields|..], slots[|fields|..]) == Some([])
    ensures forall done :: Joined(Some(done), EncodeFields(fields[|fields|..], slots[|fields|..])) == Some(done)
  {
    forall done: Bytes ensures done + [] == done {
    }
  }

  ghost function PackedBytes(f: Field, vs: Slot): Option<Bytes> {
    var items := EncodeItems(f.ty, [], vs);
    if items.Some? then Some(Tag(STRING, f.tag) + Prefixed(items.value)) else None
  }

  lemma PackedIs(f: Field, vs: Slot)
    requires EncodeItems(f.ty, [], vs).Some?
    ensures var tag, e := Tag(STRING, f.tag), EncodeItems(f.ty, [], vs).value;
      PackedBytes(f, vs) == Joined(Some(tag), Some(Varint(|e|) + e)) == Joined(Some(tag + Varint(|e|)), Some(e))
  {
    var tag, e := Tag(STRING, f.tag), EncodeItems(f.ty, [], vs).value;
    assert tag + (Varint(|e|) + e) == tag + Varint(|e|) + e;
  }

  // Scalars always encode; the fixed ones in four or eight bytes each.
  lemma {:induction false} PackedItemsExist(t: Type, vs: Slot)
    requires Packable(t) && forall k: nat | k < |vs| :: Storable(t, vs[k])
    ensures EncodeItems(t, [], vs).Some?
    ensures t.Fixed32? ==> |EncodeItems(t, [], vs).value| == 4 * |vs|
    ensures t.Fixed64? ==> |EncodeItems(t, [], vs).value| == 8 * |vs|
  {
    if vs != [] {
      assert Storable(t, vs[0]);
      PackedItemsExist(t, vs[1..]);
    }
  }
}
