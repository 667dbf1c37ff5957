/** The decoder: an input stream, the circular field iterator, and the loops over a message. */
module ProtoDecoder {
  import opened Naturals
  import opened Sequences
  import opened Options
  import opened ProtoVarints
  import opened ProtoScalars
  import opened ProtoMessages
  import opened ProtoRoundTrip
  import opened ProtoRequired

  // ----- the input stream -----

  class IStream {
    const data: Bytes
    var pos: nat

    constructor (data: Bytes)
      ensures this.data == data && pos == 0
    {
      this.data, pos := data, 0;
    }

    ghost predicate Valid()
      reads this
    {
      pos <= |data|
    }

    // What a parser has read, and that the stream stands behind it.
    ghost predicate Took<T>(p: Parsed<T>, ok: bool, v: T)
      reads this
    {
      Valid() && (ok <==> p.Read?) && (ok ==> v == p.value && pos == p.next)
    }

    // pb_readbyte
    method ReadByte() returns (ok: bool, b: Byte)
      requires Valid()
      modifies this
      ensures Valid() && ok == (old(pos) < |data|)
      ensures ok ==> b == data[old(pos)] && pos == old(pos) + 1
    {
      ok, b := pos < |data|, 0;
      if ok {
        b, pos := data[pos], pos + 1;
      }
    }

    // pb_read
    method ReadBytes(count: nat) returns (ok: bool, b: Bytes)
      requires Valid()
      modifies this
      ensures Valid() && ok == (old(pos) + count <= |data|)
      ensures ok ==> b == data[old(pos)..old(pos) + count] && pos == old(pos) + count
    {
      ok, b := pos + count <= |data|, [];
      if ok {
        b, pos := data[pos..pos + count], pos + count;
      }
    }

    // pb_decode_varint
    method ReadVarint() returns (ok: bool, value: nat)
      requires Valid()
      modifies this
      ensures Took(DecodeVarint(data, old(pos), 0, 0), ok, value)
    {
      hide Remainder, Two;
      var bitpos, more := 0, true;
      value := 0;
      while more
        invariant Valid()
        invariant more ==> DecodeVarint(data, old(pos), 0, 0) == DecodeVarint(data, pos, bitpos, value)
        invariant !more ==> DecodeVarint(data, old(pos), 0, 0) == Read(value, pos)
        decreases |data| - pos, more
      {
        if bitpos >= 64 {
          return false, 0;  // varint overflow
        }
        var byte;
        ok, byte := ReadByte();
        if !ok {
          return false, 0;
        }
        value := value + Remainder(byte % 128 * Two(bitpos), LIMIT64);
        bitpos := bitpos + 7;
        more := byte >= 128;
      }
      ok := true;
    }

    // pb_decode_varint32
    method ReadVarint32() returns (ok: bool, value: nat)
      requires Valid()
      modifies this
      ensures Took(DecodeVarint32(data, old(pos)), ok, value)
    {
      hide Remainder, Two, BitOr, DecodeMore32;
      var byte;
      ok, byte := ReadByte();
      value := byte % 128;
      if !ok || byte < 128 {
        return;
      }
      var bitpos: nat, more := 7, true;
      while more
        invariant Valid()
        invariant more ==> DecodeVarint32(data, old(pos)) == DecodeMore32(data, pos, bitpos, value)
        invariant !more ==>
          DecodeVarint32(data, old(pos)) == if bitpos == 35 && byte / 16 % 8 != 0 then Failed else Read(value, pos)
        decreases |data| - pos, more
      {
        More32Step(data, pos, bitpos, value);
        ok, byte := ReadByte();
        if !ok {
          return false, 0;
        }
        if bitpos >= 32 {
          // Trailing 0x80 bytes, or 0xFF of a negative number.
          var extension := if bitpos < 63 then 0xFF else 0x01;
          if byte % 128 != 0 && (value < LIMIT32 / 2 || byte != extension) {
            return false, 0;  // varint overflow
          }
        } else {
          value := BitOr(value, Remainder(byte % 128 * Two(bitpos), LIMIT32));
        }
        bitpos := (bitpos + 7) % 256;
        more := byte >= 128;
      }
      if bitpos == 35 && byte / 16 % 8 != 0 {
        return false, 0;  // only the bottom four bits of the fifth byte fit
      }
      ok := true;
    }

    // pb_make_string_substream, and closing it: what is left of the substream is skipped.
    method Substream() returns (ok: bool, sub: IStream)
      requires Valid()
      modifies this
      ensures Took(DecodePrefixed(data, old(pos)), ok, sub.data) && fresh(sub) && sub.pos == 0
    {
      hide DecodeVarint32;
      var size;
      ok, size := ReadVarint32();
      if !ok || pos + size > |data| {
        sub := new IStream([]);
        return false, sub;  // parent stream too short
      }
      sub := new IStream(data[pos..pos + size]);
      pos := pos + size;
    }

    // pb_skip_varint
    method SkipVarintBytes() returns (ok: bool)
      requires Valid()
      modifies this
      ensures Took(SkipVarint(data, old(pos)), ok, ())
    {
      var more := true;
      while more
        invariant Valid()
        invariant SkipVarint(data, old(pos)) == if more then SkipVarint(data, pos) else Read((), pos)
        decreases |data| - pos, more
      {
        var byte;
        ok, byte := ReadByte();
        if !ok {
          return;
        }
        more := byte >= 128;
      }
      ok := true;
    }

    // pb_skip_field
    method Skip(wire: nat) returns (ok: bool)
      requires Valid()
      modifies this
      ensures Took(SkipField(data, old(pos), wire), ok, ())
    {
      hide SkipVarint, DecodeVarint32;
      var skipped: Bytes;
      if wire == VARINT {
        ok := SkipVarintBytes();
      } else if wire == BITS64 {
        ok, skipped := ReadBytes(8);
      } else if wire == STRING {
        var size;
        ok, size := ReadVarint32();
        if ok {
          ok, skipped := ReadBytes(size);
        }
      } else if wire == BITS32 {
        ok, skipped := ReadBytes(4);
      } else {
        ok := false;  // invalid wire_type
      }
    }
  }

  // ----- the field iterator -----

  class FieldIter {
    const fields: seq<Field>
    var pos: nat
    var requiredIndex: nat

    // pb_field_iter_begin
    constructor (fields: seq<Field>)
      ensures this.fields == fields && Valid() && pos == 0
    {
      this.fields, pos, requiredIndex := fields, 0, 0;
    }

    // On a field, unless there are none; with the number of required fields before it.
    ghost predicate Valid()
      reads this
    {
      (pos < |fields| || (fields == [] && pos == 0)) && requiredIndex == RequiredBefore(fields, pos)
    }

    // pb_field_iter_next
    method Next() returns (more: bool)
      requires Valid()
      modifies this
      ensures Valid() && more == (old(pos) + 1 < |fields|)
      ensures pos == if more then old(pos) + 1 else 0
    {
      if pos + 1 >= |fields| {
        pos, requiredIndex := 0, 0;
        return false;
      }
      if fields[pos].kind.Required? {
        requiredIndex := requiredIndex + 1;
      }
      pos := pos + 1;
      more := true;
    }

    // pb_field_iter_find: from where the iterator stands, around to there again.  Without fields it stands on
    // the terminator of the list, whose tag is 0.
    method Find(tag: nat) returns (found: bool)
      requires Valid()
      modifies this
      ensures Valid()
      ensures fields == [] ==> (found <==> tag == 0)
      ensures found && fields != [] ==> pos < |fields| && fields[pos].tag == tag
      ensures !found ==> forall j | 0 <= j < |fields| :: fields[j].tag != tag
    {
      if fields == [] {
        return tag == 0;
      }
      var start := pos;
      var wrapped := false;
      while !wrapped || pos != start
        invariant Valid() && pos < |fields|
        invariant if wrapped then pos <= start else start <= pos
        invariant forall j | start <= j < (if wrapped then |fields| else pos) :: fields[j].tag != tag
        invariant wrapped ==> forall j | 0 <= j < pos :: fields[j].tag != tag
        decreases if wrapped then start - pos else |fields| - pos + start
      {
        if fields[pos].tag == tag {
          return true;
        }
        var more := Next();
        wrapped := wrapped || !more;
      }
      found := false;
    }
  }

  // ----- one value -----

  method ReadInteger(stream: IStream, t: Type) returns (ok: bool, v: Value)
    requires stream.Valid() && (t.Bool? || t.SignedInt? || t.UnsignedInt? || t.ZigZagInt?)
    modifies stream
    ensures stream.Took(DecodeValue(t, stream.data, old(stream.pos), None), ok, v)
  {
    hide DecodeVarint, DecodeVarint32, SignedValue, UnZigZag;
    var value;
    v := Int(0);
    if t.Bool? {
      ok, value := stream.ReadVarint32();
      v := Int(if value != 0 then 1 else 0);
      return;
    }
    ok, value := stream.ReadVarint();
    if !ok {
      return;
    }
    if t.SignedInt? {
      var i := SignedValue(value, t.width);
      if i.None? {
        return false, v;  // integer too large
      }
      v := Int(i.value);
    } else {
      var i := if t.ZigZagInt? then UnZigZag(value) else value;
      ok := IsWidth(t.width) && if t.ZigZagInt? then Signed(t.width, i) else Unsigned(t.width, i);
      v := Int(i);
    }
  }

  method ReadFixed(stream: IStream, n: nat) returns (ok: bool, v: Value)
    requires stream.Valid() && n > 0
    modifies stream
    ensures stream.Took(DecodeFixed(stream.data, old(stream.pos), n), ok, v)
  {
    var b;
    ok, b := stream.ReadBytes(n);
    v := Int(FromLittleEndian(b));
  }

  // pb_dec_bytes, pb_dec_string, pb_dec_fixed_length_bytes
  method ReadData(stream: IStream, t: Type) returns (ok: bool, v: Value)
    requires stream.Valid() && (t.Blob? || t.Text? || t.FixedBlob?)
    modifies stream
    ensures stream.Took(DecodeValue(t, stream.data, old(stream.pos), None), ok, v)
  {
    hide DecodeVarint32, UpToZero;
    var size, b;
    v := Data([]);
    ok, size := stream.ReadVarint32();
    if !ok {
      return;
    }
    if t.FixedBlob? && size == 0 {
      return true, Data(Zeros(t.length));
    }
    if (t.Blob? && size > t.max) || (t.Text? && size + 1 > t.size) || (t.FixedBlob? && size != t.length) {
      return false, v;  // overflow
    }
    ok, b := stream.ReadBytes(size);
    v := Data(if t.Text? then UpToZero(b) else b);
  }

  // The decoder of a type; a submessage is added to what is there.
  method ReadValue(stream: IStream, t: Type, before: Option<Value>) returns (ok: bool, v: Value)
    requires stream.Valid() && GoodType(t)
    modifies stream
    ensures stream.Took(DecodeValue(t, stream.data, old(stream.pos), before), ok, v)
    decreases |stream.data| - stream.pos, 0
  {
    hide DecodeFixed, DecodePrefixed, DecodeMessage, DecodeVarint, DecodeVarint32, SignedValue, UnZigZag, UpToZero, GoodFields;
    if t.Submessage? {
      var sub;
      ok, sub := stream.Substream();
      if !ok {
        return false, Int(0);
      }
      var slots;
      ok, slots := ReadMessage(sub, t.fields, Existing(t.fields, before));
      v := Message(slots);
    } else if t.Fixed32? {
      ok, v := ReadFixed(stream, 4);
    } else if t.Fixed64? {
      ok, v := ReadFixed(stream, 8);
    } else if t.Blob? || t.Text? || t.FixedBlob? {
      ok, v := ReadData(stream, t);
    } else {
      ok, v := ReadInteger(stream, t);
    }
  }

  // ----- one field -----

  method ReadPacked(stream: IStream, f: Field, before: Slot) returns (ok: bool, vs: Slot)
    requires stream.Valid() && GoodField(f) && f.kind.Repeated?
    modifies stream
    ensures var d := DecodePrefixed(stream.data, old(stream.pos));
      var r := if d.Read? then DecodePacked(f.ty, d.value, 0, before, f.kind.max) else None;
      stream.Took(if r.Some? then Read(r.value, d.next) else Failed, ok, vs)
    decreases |stream.data| - stream.pos, 1
  {
    hide DecodePrefixed, DecodeValue, GoodType;
    vs := before;
    var sub;
    ok, sub := stream.Substream();
    if !ok {
      return;
    }
    ghost var all := DecodePacked(f.ty, sub.data, 0, before, f.kind.max);
    while sub.pos < |sub.data| && |vs| < f.kind.max
      invariant sub.Valid() && fresh(sub)
      invariant all == DecodePacked(f.ty, sub.data, sub.pos, vs, f.kind.max)
      decreases |sub.data| - sub.pos
      modifies sub
    {
      var v;
      ok, v := ReadValue(sub, f.ty, None);
      if !ok {
        return;
      }
      vs := vs + [v];
    }
    ok := sub.pos == |sub.data|;  // or an array overflow
  }

  // decode_static_field
  method ReadField(stream: IStream, f: Field, wire: nat, before: Slot) returns (ok: bool, vs: Slot)
    requires stream.Valid() && GoodField(f)
    modifies stream
    ensures stream.Took(DecodeField(f, stream.data, old(stream.pos), wire, before), ok, vs)
    decreases |stream.data| - stream.pos, 2
  {
    hide DecodePrefixed, DecodeValue, DecodePacked, GoodType;
    vs := before;
    var v;
    if f.kind.Repeated? {
      if wire == STRING && Packable(f.ty) {
        ok, vs := ReadPacked(stream, f, before);
        return;
      }
      if |before| >= f.kind.max {
        return false, vs;  // array overflow
      }
      ok, v := ReadValue(stream, f.ty, None);
      vs := before + [v];
    } else {
      ok, v := ReadValue(stream, f.ty, if before == [] then None else Some(before[0]));
      vs := [v];
    }
  }

  // ----- a message -----

  // pb_decode_noinit
  method ReadMessage(stream: IStream, fields: seq<Field>, before: seq<Slot>) returns (ok: bool, slots: seq<Slot>)
    requires stream.Valid() && GoodFields(fields) && |before| == |fields|
    modifies stream
    ensures var r := DecodeMessage(fields, stream.data, old(stream.pos), before, {});
      (ok <==> r.Some?) && (ok ==> slots == r.value)
    decreases |stream.data| - stream.pos, 3
  {
    hide DecodeVarint32, DecodeField, SkipField, SetSlot, RequiredSeen, GoodField, Words, WithBit, Marks, RequiredBefore;
    var iter := new FieldIter(fields);
    var fieldsSeen: seq<nat> := [0, 0];
    ghost var all := DecodeMessage(fields, stream.data, stream.pos, before, {});
    ghost var seen: set<nat>, marks: set<nat> := {}, {};
    NothingSeen(fields);
    slots := before;
    var more := true;
    while more && stream.pos < |stream.data|
      invariant stream.Valid() && iter.Valid() && fresh(iter) && iter.fields == fields && |slots| == |fields|
      invariant all == if more then DecodeMessage(fields, stream.data, stream.pos, slots, seen) else Finish(fields, slots, seen)
      invariant |fieldsSeen| == 2 && Words(fieldsSeen, marks) && Marks(fields, seen, marks)
      decreases |stream.data| - stream.pos
      modifies stream, iter
    {
      var tag;
      ok, tag := stream.ReadVarint32();
      if !ok {
        return;
      }
      if tag == 0 {
        more := false;  // 0-terminated message
      } else {
        var found := iter.Find(tag / 8);
        FoundIs(fields, tag / 8, found && fields != [], iter.pos);
        if found && fields == [] {
          // the terminator looks like a required bool
          var skipped;
          ok, skipped := stream.ReadVarint32();
          if !ok {
            return;
          }
        } else if !found {
          ok := stream.Skip(tag % 8);
          if !ok {
            return;
          }
        } else {
          var i, r := iter.pos, iter.requiredIndex;
          if fields[i].kind.Required? && r < MAX_REQUIRED_FIELDS {
            WordsMark(fieldsSeen, marks, r);
            fieldsSeen := fieldsSeen[r / 32 := WithBit(fieldsSeen[r / 32], r % 32)];
          }
          MarksGrow(fields, seen, marks, i);
          var vs;
          ok, vs := ReadField(stream, fields[i], tag % 8, slots[i]);
          if !ok {
            return;
          }
          slots := SetSlot(fields, slots, i, vs);
          seen := seen + {i};
          if fields[i].kind.Required? && r < MAX_REQUIRED_FIELDS {
            marks := marks + {r};
          }
        }
      }
    }
    ok := RequiredPresent(iter, fieldsSeen, seen, marks);
  }

  // Walk on to the end of the fields for the number of required ones, and check the bit map.
  method RequiredPresent(iter: FieldIter, fieldsSeen: seq<nat>, ghost seen: set<nat>, ghost marks: set<nat>) returns (all: bool)
    requires iter.Valid() && Words(fieldsSeen, marks) && Marks(iter.fields, seen, marks)
    modifies iter
    ensures all <==> RequiredSeen(iter.fields, seen)
  {
    hide Words, RequiredSeen;
    var fields := iter.fields;
    var count, last: nat := 0, 0;
    var more := true;
    while more
      invariant iter.Valid()
      invariant last <= |fields|
      invariant !more ==> count == RequiredBefore(fields, last) && (last + 1 == |fields| || (fields == [] && last == 0))
      decreases more, |fields| - iter.pos
    {
      count, last := iter.requiredIndex, iter.pos;
      more := iter.Next();
    }
    if fields != [] && fields[last].kind.Required? {
      count := count + 1;
    }
    if count > MAX_REQUIRED_FIELDS {
      count := MAX_REQUIRED_FIELDS;
    }
    MarksTell(fields, seen, marks);
    all := AllMarked(fieldsSeen, count, marks);
  }

  lemma NothingSeen(fields: seq<Field>)
    ensures Words([0, 0], {}) && Marks(fields, {}, {})
  {
    NoMarks(0, 32);
    NoMarks(32, 32);
  }

  // With different tags, any search finds the same field.
  lemma FoundIs(fields: seq<Field>, tag: nat, found: bool, pos: nat)
    requires GoodFields(fields)
    requires found ==> pos < |fields| && fields[pos].tag == tag
    requires !found ==> forall j | 0 <= j < |fields| :: fields[j].tag != tag
    ensures FindField(fields, tag) == if found then pos else |fields|
  {
    hide GoodField;
    if found {
      FoundByTag(fields, pos);
    }
  }

  // pb_decode
  method ReadNew(stream: IStream, fields: seq<Field>) returns (ok: bool, slots: seq<Slot>)
    requires stream.pos == 0 && GoodFields(fields)
    modifies stream
    ensures (ok <==> Decode(fields, stream.data).Some?) && (ok ==> slots == Decode(fields, stream.data).value)
  {
    hide DecodeMessage, GoodFields;
    ok, slots := ReadMessage(stream, fields, seq(|fields|, _ => []));
  }
}
