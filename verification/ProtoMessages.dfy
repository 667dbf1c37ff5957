/** Message descriptors, messages, and what the encoder and the decoder make of them. */
module ProtoMessages {
  import opened Sequences
  import opened Options
  import opened ProtoVarints
  import opened ProtoScalars

  // ----- descriptors and messages -----

  // The numbers are the sizes of the C members: of an integer, of a buffer, of a char array.
  datatype Type =
    | Bool
    | SignedInt(width: nat)
    | UnsignedInt(width: nat)
    | ZigZagInt(width: nat)
    | Fixed32
    | Fixed64
    | Blob(max: nat)
    | Text(size: nat)
    | FixedBlob(length: nat)
    | Submessage(fields: seq<Field>)

  // One member of a oneof is a field of its own; the group tells which belong together.
  datatype Kind = Required | Optional | Repeated(max: nat) | Oneof(group: nat)

  datatype Field = Field(tag: nat, kind: Kind, ty: Type)

  // The present contents of a field: one value, or none, or those of an array.
  datatype Value = Int(i: int) | Data(bytes: Bytes) | Message(slots: seq<Slot>)
  type Slot = seq<Value>

  predicate Packable(t: Type) {
    t.Bool? || t.SignedInt? || t.UnsignedInt? || t.ZigZagInt? || t.Fixed32? || t.Fixed64?
  }

  // Wire types.
  const VARINT: nat := 0
  const BITS64: nat := 1
  const STRING: nat := 2
  const BITS32: nat := 5

  function WireType(t: Type): (w: nat)
    ensures w < 8
  {
    match t
    case Bool => VARINT
    case SignedInt(_) => VARINT
    case UnsignedInt(_) => VARINT
    case ZigZagInt(_) => VARINT
    case Fixed32 => BITS32
    case Fixed64 => BITS64
    case _ => STRING
  }

  // What the C struct can hold.  A char array need not be terminated.
  ghost predicate Storable(t: Type, v: Value)
    decreases t
  {
    match t
    case Bool => v.Int? && (v.i == 0 || v.i == 1)
    case SignedInt(w) => v.Int? && IsWidth(w) && Signed(w, v.i)
    case UnsignedInt(w) => v.Int? && IsWidth(w) && Unsigned(w, v.i)
    case ZigZagInt(w) => v.Int? && IsWidth(w) && Signed(w, v.i)
    case Fixed32 => v.Int? && 0 <= v.i < LIMIT32
    case Fixed64 => v.Int? && 0 <= v.i < LIMIT64
    case Blob(_) => v.Data? && |v.bytes| < LIMIT32
    case Text(size) => v.Data? && |v.bytes| <= size < LIMIT32 && 0 !in v.bytes
    case FixedBlob(length) => v.Data? && |v.bytes| == length < LIMIT32
    case Submessage(fields) => v.Message? && Shaped(fields, v.slots)
  }

  ghost predicate Shaped(fields: seq<Field>, slots: seq<Slot>)
    decreases fields
  {
    && |slots| == |fields|
    && (forall i: nat | i < |fields| :: StorableSlot(fields[i], slots[i]))
    && (forall i: nat, j: nat | i < j < |fields| && fields[i].kind.Oneof? && fields[i].kind == fields[j].kind ::
          slots[i] == [] || slots[j] == [])
  }

  ghost predicate StorableSlot(f: Field, vs: Slot)
    decreases f
  {
    && (forall k: nat | k < |vs| :: Storable(f.ty, vs[k]))
    && (f.kind.Required? ==> |vs| == 1)
    && (!f.kind.Repeated? ==> |vs| <= 1)
  }

  // ----- encoding -----

  function Prefixed(b: Bytes): Bytes {
    Varint(|b|) + b
  }

  function Tag(wire: nat, tag: nat): Bytes {
    Varint(tag * 8 + wire)
  }

  // The bytes of a value, or nothing when it does not fit its member.
  function EncodeValue(t: Type, v: Value): Option<Bytes>
    decreases t, 0
  {
    match t
    case Bool => if v.Int? then Some(Varint(if v.i != 0 then 1 else 0)) else None
    case SignedInt(w) => if v.Int? && IsWidth(w) && Signed(8, v.i) then Some(Varint(Wrapped(v.i))) else None
    case UnsignedInt(w) => if v.Int? && IsWidth(w) && v.i >= 0 then Some(Varint(v.i)) else None
    case ZigZagInt(w) => if v.Int? && IsWidth(w) && Signed(8, v.i) then Some(Varint(ZigZag(v.i))) else None
    case Fixed32 => if v.Int? && v.i >= 0 then Some(LittleEndian(v.i, 4)) else None
    case Fixed64 => if v.Int? && v.i >= 0 then Some(LittleEndian(v.i, 8)) else None
    case Blob(max) => if v.Data? && |v.bytes| <= max then Some(Prefixed(v.bytes)) else None
    case Text(_) => if v.Data? then Some(Prefixed(v.bytes)) else None
    case FixedBlob(_) => if v.Data? then Some(Prefixed(v.bytes)) else None
    case Submessage(fields) =>
      if v.Message? && |v.slots| == |fields| then
        var m := EncodeFields(fields, v.slots);
        if m.Some? then Some(Prefixed(m.value)) else None
      else None
  }

  // The values of an array, each with some bytes before it.
  function EncodeItems(t: Type, before: Bytes, vs: seq<Value>): Option<Bytes>
    decreases t, 1, |vs|
  {
    if vs == [] then Some([]) else
      var first, rest := EncodeValue(t, vs[0]), EncodeItems(t, before, vs[1..]);
      if first.Some? && rest.Some? then Some(before + first.value + rest.value) else None
  }

  function EncodeSlot(f: Field, vs: Slot): Option<Bytes>
    decreases f, 2
  {
    if f.kind.Repeated? then
      if vs == [] then Some([])
      else if |vs| > f.kind.max then None
      else if Packable(f.ty) then
        var items := EncodeItems(f.ty, [], vs);
        if items.Some? then Some(Tag(STRING, f.tag) + Prefixed(items.value)) else None
      else EncodeItems(f.ty, Tag(WireType(f.ty), f.tag), vs)
    else if vs == [] then Some([])
    else
      var value := EncodeValue(f.ty, vs[0]);
      if value.Some? then Some(Tag(WireType(f.ty), f.tag) + value.value) else None
  }

  function EncodeFields(fields: seq<Field>, slots: seq<Slot>): Option<Bytes>
    requires |fields| == |slots|
    decreases fields, 3
  {
    if fields == [] then Some([]) else
      var first, rest := EncodeSlot(fields[0], slots[0]), EncodeFields(fields[1..], slots[1..]);
      if first.Some? && rest.Some? then Some(first.value + rest.value) else None
  }

  // ----- decoding -----

  // A char array as a C string.
  function UpToZero(b: Bytes): Bytes {
    if b == [] || b[0] == 0 then [] else [b[0]] + UpToZero(b[1..])
  }

  // A length and as many bytes after it.
  function DecodePrefixed(b: Bytes, pos: nat): (p: Parsed<Bytes>)
    ensures p.Read? ==> pos + |p.value| < p.next <= |b|
  {
    var size := DecodeVarint32(b, pos);
    if size.Failed? || size.next + size.value > |b| then Failed
    else Read(b[size.next..size.next + size.value], size.next + size.value)
  }

  function DecodeFixed(b: Bytes, pos: nat, n: nat): (p: Parsed<Value>)
    requires n > 0
    ensures p.Read? ==> pos < p.next <= |b|
  {
    if pos + n <= |b| then Read(Int(FromLittleEndian(b[pos..pos + n])), pos + n) else Failed
  }

  // The submessage that decoding adds to: the one that is there, or the default one.
  function Existing(fields: seq<Field>, before: Option<Value>): (slots: seq<Slot>)
    ensures |slots| == |fields|
  {
    if before.Some? && before.value.Message? && |before.value.slots| == |fields| then before.value.slots
    else seq(|fields|, _ => [])
  }

  function DecodeValue(t: Type, b: Bytes, pos: nat, before: Option<Value>): (p: Parsed<Value>)
    requires pos <= |b|
    ensures p.Read? ==> pos < p.next <= |b|
    decreases |b| - pos, 0
  {
    match t
    case Bool =>
      var v := DecodeVarint32(b, pos);
      if v.Read? then Read(Int(if v.value != 0 then 1 else 0), v.next) else Failed
    case SignedInt(w) =>
      var v := DecodeVarint(b, pos, 0, 0);
      if v.Read? && SignedValue(v.value, w).Some? then Read(Int(SignedValue(v.value, w).value), v.next) else Failed
    case UnsignedInt(w) =>
      var v := DecodeVarint(b, pos, 0, 0);
      if v.Read? && IsWidth(w) && Unsigned(w, v.value) then Read(Int(v.value), v.next) else Failed
    case ZigZagInt(w) =>
      var v := DecodeVarint(b, pos, 0, 0);
      if v.Read? && IsWidth(w) && Signed(w, UnZigZag(v.value)) then Read(Int(UnZigZag(v.value)), v.next) else Failed
    case Fixed32 => DecodeFixed(b, pos, 4)
    case Fixed64 => DecodeFixed(b, pos, 8)
    case Blob(max) =>
      var d := DecodePrefixed(b, pos);
      if d.Read? && |d.value| <= max then Read(Data(d.value), d.next) else Failed
    case Text(size) =>
      var d := DecodePrefixed(b, pos);
      if d.Read? && |d.value| + 1 <= size then Read(Data(UpToZero(d.value)), d.next) else Failed
    case FixedBlob(length) =>
      var d := DecodePrefixed(b, pos);
      if d.Failed? then Failed
      else if d.value == [] then Read(Data(Zeros(length)), d.next)
      else if |d.value| == length then Read(Data(d.value), d.next)
      else Failed
    case Submessage(fields) =>
      var d := DecodePrefixed(b, pos);
      if d.Failed? then Failed else
        var slots := DecodeMessage(fields, d.value, 0, Existing(fields, before), {});
        if slots.Some? then Read(Message(slots.value), d.next) else Failed
  }

  // The rest of a packed array, after the values that are there already.
  function DecodePacked(t: Type, b: Bytes, pos: nat, vs: Slot, max: nat): Option<Slot>
    requires pos <= |b|
    decreases |b| - pos, 1
  {
    if pos == |b| then Some(vs)
    else if |vs| >= max then None  // array overflow
    else
      var v := DecodeValue(t, b, pos, None);
      if v.Read? then DecodePacked(t, b, v.next, vs + [v.value], max) else None
  }

  function DecodeField(f: Field, b: Bytes, pos: nat, wire: nat, vs: Slot): (p: Parsed<Slot>)
    requires pos <= |b|
    ensures p.Read? ==> pos < p.next <= |b|
    decreases |b| - pos, 2
  {
    if f.kind.Repeated? then
      if wire == STRING && Packable(f.ty) then
        var d := DecodePrefixed(b, pos);
        if d.Failed? then Failed else
          var items := DecodePacked(f.ty, d.value, 0, vs, f.kind.max);
          if items.Some? then Read(items.value, d.next) else Failed
      else if |vs| >= f.kind.max then Failed
      else
        var v := DecodeValue(f.ty, b, pos, None);
        if v.Read? then Read(vs + [v.value], v.next) else Failed
    else
      var v := DecodeValue(f.ty, b, pos, if vs == [] then None else Some(vs[0]));
      if v.Read? then Read([v.value], v.next) else Failed
  }

  // The field with a tag, or the number of fields.
  function FindField(fields: seq<Field>, tag: nat): (i: nat)
    ensures i <= |fields| && (i < |fields| ==> fields[i].tag == tag)
    ensures forall j | 0 <= j < i :: fields[j].tag != tag
  {
    if fields == [] || fields[0].tag == tag then 0 else 1 + FindField(fields[1..], tag)
  }

  function SkipVarint(b: Bytes, pos: nat): (p: Parsed<()>)
    ensures p.Read? ==> pos < p.next <= |b|
    decreases |b| - pos
  {
    if pos >= |b| then Failed else if b[pos] >= 128 then SkipVarint(b, pos + 1) else Read((), pos + 1)
  }

  function SkipField(b: Bytes, pos: nat, wire: nat): (p: Parsed<()>)
    ensures p.Read? ==> pos <= p.next <= |b|
  {
    if wire == VARINT then SkipVarint(b, pos)
    else if wire == BITS64 then if pos + 8 <= |b| then Read((), pos + 8) else Failed
    else if wire == STRING then
      var d := DecodePrefixed(b, pos);
      if d.Read? then Read((), d.next) else Failed
    else if wire == BITS32 then if pos + 4 <= |b| then Read((), pos + 4) else Failed
    else Failed
  }

  // A decoded field in its place; the other members of its oneof are gone.
  function SetSlot(fields: seq<Field>, slots: seq<Slot>, i: nat, vs: Slot): (r: seq<Slot>)
    requires |fields| == |slots| && i < |fields|
    ensures |r| == |fields|
  {
    seq(|fields|, j requires 0 <= j < |fields| =>
      if j == i then vs
      else if fields[i].kind.Oneof? && fields[j].kind == fields[i].kind then []
      else slots[j])
  }

  const MAX_REQUIRED_FIELDS: nat := 64

  // The number of required fields before field n.
  function RequiredBefore(fields: seq<Field>, n: nat): nat
    requires n <= |fields|
  {
    if n == 0 then 0 else RequiredBefore(fields, n - 1) + if fields[n - 1].kind.Required? then 1 else 0
  }

  // The first 64 required fields have all been seen.
  predicate RequiredSeen(fields: seq<Field>, seen: set<nat>) {
    forall i | 0 <= i < |fields| && fields[i].kind.Required? && RequiredBefore(fields, i) < MAX_REQUIRED_FIELDS :: i in seen
  }

  // pb_decode_noinit
  function DecodeMessage(fields: seq<Field>, b: Bytes, pos: nat, slots: seq<Slot>, seen: set<nat>): (r: Option<seq<Slot>>)
    requires pos <= |b| && |slots| == |fields|
    ensures r.Some? ==> |r.value| == |fields|
    decreases |b| - pos, 3
  {
    if pos == |b| then Finish(fields, slots, seen) else
      var tag := DecodeVarint32(b, pos);
      if tag.Failed? then None
      else if tag.value == 0 then Finish(fields, slots, seen)  // 0-terminated message
      else if fields == [] && tag.value / 8 == 0 then
        // field number 0 is found on the terminator of an empty list, which looks like a required bool
        var skipped := DecodeVarint32(b, tag.next);
        if skipped.Read? then DecodeMessage(fields, b, skipped.next, slots, seen) else None
      else
        var i := FindField(fields, tag.value / 8);
        if i == |fields| then
          var skipped := SkipField(b, tag.next, tag.value % 8);
          if skipped.Read? then DecodeMessage(fields, b, skipped.next, slots, seen) else None
        else
          var vs := DecodeField(fields[i], b, tag.next, tag.value % 8, slots[i]);
          if vs.Read? then DecodeMessage(fields, b, vs.next, SetSlot(fields, slots, i, vs.value), seen + {i}) else None
  }

  function Finish(fields: seq<Field>, slots: seq<Slot>, seen: set<nat>): (r: Option<seq<Slot>>)
    requires |slots| == |fields|
    ensures r.Some? ==> r.value == slots
  {
    if RequiredSeen(fields, seen) then Some(slots) else None
  }

  // pb_decode
  function Decode(fields: seq<Field>, b: Bytes): Option<seq<Slot>> {
    DecodeMessage(fields, b, 0, seq(|fields|, _ => []), {})
  }
}
