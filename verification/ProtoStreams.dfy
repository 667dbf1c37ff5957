/** What a sequence of fields on the wire means, whatever their order: unknown fields are skipped, values of an
    array add up, a later value replaces an earlier one, and a nested message adds to the one that is there.
    The decoder finds just that. */
module ProtoStreams {
  import opened Sequences
  import opened Options
  import opened ProtoVarints
  import opened ProtoScalars
  import opened ProtoMessages
  import opened ProtoRoundTrip

  // The payload of a field that the message does not have.
  datatype Foreign = AVarint(v: nat) | EightBytes(bytes: Bytes) | Counted(bytes: Bytes) | FourBytes(bytes: Bytes)

  // One field on the wire: a value for field i, a packed array of values, or a field with a strange number.
  datatype Item = One(i: nat, content: Content) | Pack(i: nat, vs: seq<Value>) | Unknown(number: nat, payload: Foreign)

  // A nested message is itself a sequence of fields.
  datatype Content = Plain(v: Value) | Nested(items: seq<Item>)

  // ----- the bytes -----

  function ForeignBytes(p: Foreign): Bytes {
    match p
    case AVarint(v) => Varint(v)
    case EightBytes(b) => b
    case Counted(b) => Varint(|b|) + b
    case FourBytes(b) => b
  }

  function ForeignWire(p: Foreign): nat {
    match p
    case AVarint(_) => 0
    case EightBytes(_) => 1
    case Counted(_) => 2
    case FourBytes(_) => 5
  }

  function ContentBytes(t: Type, c: Content): Option<Bytes>
    decreases c, 0
  {
    match c
    case Plain(v) => if t.Submessage? then None else EncodeValue(t, v)
    case Nested(items) =>
      if t.Submessage? then
        var m := StreamBytes(t.fields, items);
        if m.Some? then Some(Varint(|m.value|) + m.value) else None
      else None
  }

  function ItemBytes(fields: seq<Field>, item: Item): Option<Bytes>
    decreases item, 1
  {
    match item
    case One(i, c) =>
      if i >= |fields| then None else
        var value := ContentBytes(fields[i].ty, c);
        if value.Some? then Some(Tag(WireType(fields[i].ty), fields[i].tag) + value.value) else None
    case Pack(i, vs) =>
      if i >= |fields| || !Packable(fields[i].ty) then None else
        var values := EncodeItems(fields[i].ty, [], vs);
        if values.Some? then Some(Tag(2, fields[i].tag) + (Varint(|values.value|) + values.value)) else None
    case Unknown(number, p) => Some(Tag(ForeignWire(p), number) + ForeignBytes(p))
  }

  function StreamBytes(fields: seq<Field>, items: seq<Item>): Option<Bytes>
    decreases items, 2
  {
    if items == [] then Some([]) else
      var first, rest := ItemBytes(fields, items[0]), StreamBytes(fields, items[1..]);
      if first.Some? && rest.Some? then Some(first.value + rest.value) else None
  }

  // ----- what they mean -----

  function RequiredFields(fields: seq<Field>, n: nat): set<nat>
    requires n <= |fields|
  {
    set j: nat | j < n && fields[j].kind.Required?
  }

  // The first 64 required fields have to be there.
  ghost predicate NothingMissing(fields: seq<Field>, seen: set<nat>) {
    forall i: nat | i < |fields| && fields[i].kind.Required? && |RequiredFields(fields, i)| < 64 :: i in seen
  }

  // A new content of field i; of a oneof only the last member that comes stays.
  function Put(fields: seq<Field>, slots: seq<Slot>, i: nat, vs: Slot): (r: seq<Slot>)
    requires |fields| == |slots| && i < |fields|
    ensures |r| == |fields|
  {
    seq(|fields|, j requires 0 <= j < |fields| =>
      if i == j then vs
      else if fields[i].kind.Oneof? && fields[j].kind.Oneof? && fields[j].kind.group == fields[i].kind.group then []
      else slots[j])
  }

  // The value that is there, or the first one of an array.
  function Present(vs: Slot): Option<Value> {
    if vs == [] then None else Some(vs[0])
  }

  ghost function Meaning(t: Type, before: Option<Value>, c: Content): Option<Value>
    decreases c, 0
  {
    match c
    case Plain(v) => Some(v)
    case Nested(items) =>
      if !t.Submessage? then None else
        var start := if before.Some? && before.value.Message? && |before.value.slots| == |t.fields| then before.value.slots
                     else seq(|t.fields|, _ => []);
        var slots := Result(t.fields, start, {}, items);
        if slots.Some? then Some(Message(slots.value)) else None
  }

  ghost function ValueOf(t: Type, before: Option<Value>, item: Item): Option<Value>
    requires item.One?
    decreases item, 1
  {
    Meaning(t, before, item.content)
  }

  // The message after some more fields; none when an array has no room for a value or a field is missing.
  ghost function Result(fields: seq<Field>, slots: seq<Slot>, seen: set<nat>, items: seq<Item>): (r: Option<seq<Slot>>)
    requires |slots| == |fields|
    ensures r.Some? ==> |r.value| == |fields|
    decreases items, 1
  {
    if items == [] then if NothingMissing(fields, seen) then Some(slots) else None
    else
      match items[0]
      case Unknown(_, _) => Result(fields, slots, seen, items[1..])
      case Pack(i, vs) =>
        if i >= |fields| || !fields[i].kind.Repeated? || (vs != [] && |slots[i]| + |vs| > fields[i].kind.max) then None
        else Result(fields, Put(fields, slots, i, slots[i] + vs), seen + {i}, items[1..])
      case One(i, _) =>
        if i >= |fields| then None
        else if fields[i].kind.Repeated? then
          var v := ValueOf(fields[i].ty, None, items[0]);
          if |slots[i]| >= fields[i].kind.max || v.None? then None
          else Result(fields, Put(fields, slots, i, slots[i] + [v.value]), seen + {i}, items[1..])
        else
          var v := ValueOf(fields[i].ty, Present(slots[i]), items[0]);
          if v.None? then None
          else Result(fields, Put(fields, slots, i, [v.value]), seen + {i}, items[1..])
  }

  // ----- fields that can be on the wire -----

  ghost predicate GoodForeign(p: Foreign) {
    match p
    case AVarint(_) => true
    case EightBytes(b) => |b| == 8
    case Counted(b) => |b| < LIMIT32
    case FourBytes(b) => |b| == 4
  }

  // Values fit their members, and a message to be decoded is not too long.
  ghost predicate GoodContent(t: Type, c: Content)
    decreases c, 0
  {
    match c
    case Plain(v) => !t.Submessage? && Storable(t, v) && Terminated(t, v)
    case Nested(items) =>
      t.Submessage? && GoodStream(t.fields, items) && StreamBytes(t.fields, items).Some?
      && |StreamBytes(t.fields, items).value| < LIMIT32
  }

  ghost predicate GoodItem(fields: seq<Field>, item: Item)
    decreases item, 1
  {
    match item
    case One(i, c) => i < |fields| && GoodContent(fields[i].ty, c)
    case Pack(i, vs) =>
      && i < |fields| && fields[i].kind.Repeated? && Packable(fields[i].ty)
      && forall k: nat | k < |vs| :: Storable(fields[i].ty, vs[k])
    case Unknown(number, p) =>
      0 < number < 0x2000_0000 && (forall f | f in fields :: f.tag != number) && GoodForeign(p)
  }

  ghost predicate GoodStream(fields: seq<Field>, items: seq<Item>)
    decreases items, 2
  {
    forall k: nat | k < |items| :: GoodItem(fields, items[k])
  }

  // ----- fields that the message does not have -----

  lemma {:induction false} VarintIsSkipped(b: Bytes, pos: nat, v: nat)
    requires Holds(b, pos, Varint(v))
    ensures SkipVarint(b, pos) == Read((), pos + |Varint(v)|)
    decreases v
  {
    hide Varint, Holds;
    VarintStep(v);
    VarintHeld(b, pos, v);
    if v >= 128 {
      VarintIsSkipped(b, pos + 1, v / 128);
    }
  }

  lemma ForeignIsSkipped(b: Bytes, pos: nat, p: Foreign)
    requires pos <= |b| && GoodForeign(p) && Holds(b, pos, ForeignBytes(p))
    ensures SkipField(b, pos, ForeignWire(p)) == Read((), pos + |ForeignBytes(p)|)
  {
    hide SkipVarint, DecodePrefixed, Varint;
    match p
    case AVarint(v) => VarintIsSkipped(b, pos, v);
    case Counted(d) => PrefixedRoundTrip(b, pos, d);
    case _ =>
  }

  lemma NotFound(fields: seq<Field>, number: nat)
    requires forall f | f in fields :: f.tag != number
    ensures FindField(fields, number) == |fields|
  {
    assert forall k | 0 <= k < |fields| :: fields[k] in fields && fields[k].tag != number;
  }

  // At any place in any bytes: the decoder goes on behind it, as if nothing had been there.
  lemma UnknownStep(fields: seq<Field>, b: Bytes, pos: nat, slots: seq<Slot>, seen: set<nat>, number: nat, p: Foreign)
    requires |slots| == |fields| && pos <= |b| && GoodItem(fields, Unknown(number, p))
    requires Holds(b, pos, Tag(ForeignWire(p), number) + ForeignBytes(p))
    ensures var next := pos + |Tag(ForeignWire(p), number) + ForeignBytes(p)|;
      pos < next <= |b| && DecodeMessage(fields, b, pos, slots, seen) == DecodeMessage(fields, b, next, slots, seen)
  {
    hide DecodeField, DecodeVarint32, SetSlot, Tag, Holds, FindField, Finish, SkipField, ForeignBytes, GoodForeign;
    var tag := Tag(ForeignWire(p), number);
    HoldsBoth(b, pos, tag, ForeignBytes(p));
    TagRoundTrip(b, pos, ForeignWire(p), number);
    HeldInside(b, pos, tag);
    ForeignIsSkipped(b, pos + |tag|, p);
    NotFound(fields, number);
  }

  lemma HeldInside(b: Bytes, pos: nat, part: Bytes)
    requires Holds(b, pos, part)
    ensures pos + |part| <= |b|
  {
  }

  // ----- fields that it has -----

  lemma {:induction false} RequiredCount(fields: seq<Field>, n: nat)
    requires n <= |fields|
    ensures RequiredBefore(fields, n) == |RequiredFields(fields, n)|
  {
    hide RequiredFields;
    if n == 0 {
      NoneRequired(fields, n);
    } else {
      RequiredCount(fields, n - 1);
      OneMoreRequired(fields, n - 1);
    }
  }

  lemma NoneRequired(fields: seq<Field>, n: nat)
    requires n <= |fields|
    ensures n == 0 ==> RequiredFields(fields, n) == {}
  {
  }

  lemma OneMoreRequired(fields: seq<Field>, n: nat)
    requires n < |fields|
    ensures |RequiredFields(fields, n + 1)| == |RequiredFields(fields, n)| + if fields[n].kind.Required? then 1 else 0
  {
    var before, all := RequiredFields(fields, n), RequiredFields(fields, n + 1);
    if fields[n].kind.Required? {
      assert all == before + {n};
    } else {
      assert all == before;
    }
  }

  lemma SameRequired(fields: seq<Field>, seen: set<nat>)
    ensures NothingMissing(fields, seen) <==> RequiredSeen(fields, seen)
  {
    forall i: nat | i < |fields| ensures RequiredBefore(fields, i) == |RequiredFields(fields, i)| {
      RequiredCount(fields, i);
    }
  }

  lemma SamePut(fields: seq<Field>, slots: seq<Slot>, i: nat, vs: Slot)
    requires |fields| == |slots| && i < |fields|
    ensures SetSlot(fields, slots, i, vs) == Put(fields, slots, i, vs)
  {
  }

  // A tag and what follows it, well formed or not.
  lemma FieldTaken(fields: seq<Field>, b: Bytes, pos: nat, slots: seq<Slot>, seen: set<nat>, i: nat, wire: nat)
    requires GoodFields(fields) && |slots| == |fields| && i < |fields| && wire < 8
    requires pos <= |b| && Holds(b, pos, Tag(wire, fields[i].tag))
    ensures pos < pos + |Tag(wire, fields[i].tag)| <= |b|
    ensures var vs := DecodeField(fields[i], b, pos + |Tag(wire, fields[i].tag)|, wire, slots[i]);
      DecodeMessage(fields, b, pos, slots, seen)
      == if vs.Read? then DecodeMessage(fields, b, vs.next, Put(fields, slots, i, vs.value), seen + {i}) else None
  {
    hide DecodeField, DecodeVarint32, SetSlot, Varint, Tag, Holds, FindField, GoodFields, Finish, SkipField, Put;
    HeldInside(b, pos, Tag(wire, fields[i].tag));
    GoodTag(fields, i);
    TagRoundTrip(b, pos, wire, fields[i].tag);
    var vs := DecodeField(fields[i], b, pos + |Tag(wire, fields[i].tag)|, wire, slots[i]);
    if vs.Read? {
      SamePut(fields, slots, i, vs.value);
    }
  }

  lemma BeforeIsIgnored(t: Type, b: Bytes, pos: nat, before: Option<Value>)
    requires !t.Submessage? && pos <= |b|
    ensures DecodeValue(t, b, pos, before) == DecodeValue(t, b, pos, None)
  {
    hide DecodeVarint, DecodeVarint32, DecodePrefixed, DecodeFixed, UpToZero, UnZigZag, SignedValue;
  }

  function Decoded(v: Option<Value>, next: nat): Parsed<Value> {
    if v.Some? then Read(v.value, next) else Failed
  }

  lemma {:induction false} ContentDecodes(t: Type, c: Content, b: Bytes, pos: nat, before: Option<Value>)
    requires GoodType(t) && GoodContent(t, c) && ContentBytes(t, c).Some? && pos <= |b|
    requires Holds(b, pos, ContentBytes(t, c).value)
    ensures DecodeValue(t, b, pos, before) == Decoded(Meaning(t, before, c), pos + |ContentBytes(t, c).value|)
    decreases c, 0
  {
    hide EncodeValue, DecodeValue, StreamBytes, GoodStream, Result, DecodeMessage, Existing, Storable, Terminated, Holds;
    match c
    case Plain(v) =>
      BeforeIsIgnored(t, b, pos, before);
      ScalarRoundTrip(t, v, b, pos);
    case Nested(items) =>
      NestedIsGood(t, items);
      var m := StreamBytes(t.fields, items).value;
      PrefixedRoundTrip(b, pos, m);
      HoldsItself(m);
      StreamDecodes(t.fields, items, m, 0, Existing(t.fields, before), {});
      NestedDecodes(t, items, b, pos, before);
  }

  lemma NestedIsGood(t: Type, items: seq<Item>)
    requires GoodType(t) && GoodContent(t, Nested(items)) && ContentBytes(t, Nested(items)).Some?
    ensures t.Submessage? && GoodFields(t.fields) && GoodStream(t.fields, items) && StreamBytes(t.fields, items).Some?
    ensures var m := StreamBytes(t.fields, items).value;
      |m| < LIMIT32 && ContentBytes(t, Nested(items)) == Some(Prefixed(m))
  {
    hide StreamBytes, GoodStream, GoodFields;
  }

  lemma NestedDecodes(t: Type, items: seq<Item>, b: Bytes, pos: nat, before: Option<Value>)
    requires t.Submessage? && StreamBytes(t.fields, items).Some? && pos <= |b|
    requires var m := StreamBytes(t.fields, items).value;
      && DecodePrefixed(b, pos) == Read(m, pos + |Prefixed(m)|)
      && DecodeMessage(t.fields, m, 0, Existing(t.fields, before), {}) == Result(t.fields, Existing(t.fields, before), {}, items)
    ensures DecodeValue(t, b, pos, before)
         == Decoded(Meaning(t, before, Nested(items)), pos + |ContentBytes(t, Nested(items)).value|)
  {
    hide DecodeMessage, Result, StreamBytes, DecodePrefixed, Varint;
  }

  lemma {:induction false} PackDecodes(t: Type, vs: seq<Value>, b: Bytes, pos: nat, there: Slot, max: nat)
    requires Packable(t) && (forall k: nat | k < |vs| :: Storable(t, vs[k])) && EncodeItems(t, [], vs).Some?
    requires pos <= |b| && Holds(b, pos, EncodeItems(t, [], vs).value) && pos + |EncodeItems(t, [], vs).value| == |b|
    ensures DecodePacked(t, b, pos, there, max) == if vs != [] && |there| + |vs| > max then None else Some(there + vs)
    decreases |vs|
  {
    hide Storable, EncodeValue, DecodeValue, Holds;
    if vs == [] {
      assert there + vs == there;
    } else {
      var e, rest := EncodeValue(t, vs[0]).value, EncodeItems(t, [], vs[1..]).value;
      assert [] + e + rest == e + rest;
      HoldsBoth(b, pos, e, rest);
      ValueIsThere(t, vs[0]);
      PlainDecodes(t, vs[0], b, pos);
      HeldInside(b, pos, e);
      if |there| < max {
        PackDecodes(t, vs[1..], b, pos + |e|, there + [vs[0]], max);
        assert there + [vs[0]] + vs[1..] == there + vs;
      }
    }
  }

  lemma ValueIsThere(t: Type, v: Value)
    requires Packable(t) && EncodeValue(t, v).Some?
    ensures EncodeValue(t, v).value != [] && Terminated(t, v)
  {
    hide Varint, LittleEndian, Wrapped, ZigZag;
  }

  lemma PlainDecodes(t: Type, v: Value, b: Bytes, pos: nat)
    requires Packable(t) && Storable(t, v) && Terminated(t, v) && EncodeValue(t, v).Some? && pos <= |b|
    requires Holds(b, pos, EncodeValue(t, v).value)
    ensures DecodeValue(t, b, pos, None) == Read(v, pos + |EncodeValue(t, v).value|)
  {
    hide EncodeValue, DecodeValue, Holds, Storable, Terminated;
    ScalarRoundTrip(t, v, b, pos);
  }

  // One value for a field.
  lemma {:induction false} OneDecodes(fields: seq<Field>, item: Item, b: Bytes, pos: nat, slots: seq<Slot>, seen: set<nat>)
    requires GoodFields(fields) && |slots| == |fields| && item.One? && GoodItem(fields, item) && ItemBytes(fields, item).Some?
    requires pos <= |b| && Holds(b, pos, ItemBytes(fields, item).value)
    ensures pos < pos + |ItemBytes(fields, item).value| <= |b|
    ensures var f, vs, next := fields[item.i], slots[item.i], pos + |ItemBytes(fields, item).value|;
      var v := Meaning(f.ty, if f.kind.Repeated? then None else Present(vs), item.content);
      DecodeMessage(fields, b, pos, slots, seen)
      == if v.None? || (f.kind.Repeated? && |vs| >= f.kind.max) then None
         else DecodeMessage(fields, b, next, Put(fields, slots, item.i, if f.kind.Repeated? then vs + [v.value] else [v.value]),
                            seen + {item.i})
    decreases item, 1
  {
    hide DecodeMessage, GoodFields, GoodContent, ContentBytes, Meaning, Holds, DecodeValue, Tag, Put;
    var i := item.i;
    var f, tag := fields[i], Tag(WireType(fields[i].ty), fields[i].tag);
    HoldsBoth(b, pos, tag, ContentBytes(f.ty, item.content).value);
    TypeIsGood(fields, i);
    HeldInside(b, pos, ItemBytes(fields, item).value);
    FieldTaken(fields, b, pos, slots, seen, i, WireType(f.ty));
    ContentDecodes(f.ty, item.content, b, pos + |tag|, if f.kind.Repeated? then None else Present(slots[i]));
  }

  lemma TypeIsGood(fields: seq<Field>, i: nat)
    requires GoodFields(fields) && i < |fields|
    ensures GoodType(fields[i].ty)
  {
    hide GoodType;
    assert GoodField(fields[i]);
  }

  lemma PackTaken(fields: seq<Field>, item: Item, b: Bytes, pos: nat, slots: seq<Slot>, seen: set<nat>)
    requires GoodFields(fields) && |slots| == |fields| && item.Pack? && GoodItem(fields, item) && ItemBytes(fields, item).Some?
    requires pos <= |b| < LIMIT32 && Holds(b, pos, ItemBytes(fields, item).value)
    ensures pos < pos + |ItemBytes(fields, item).value| <= |b|
    ensures var f, vs, next := fields[item.i], slots[item.i], pos + |ItemBytes(fields, item).value|;
      DecodeMessage(fields, b, pos, slots, seen)
      == if item.vs != [] && |vs| + |item.vs| > f.kind.max then None
         else DecodeMessage(fields, b, next, Put(fields, slots, item.i, vs + item.vs), seen + {item.i})
  {
    hide DecodeMessage, GoodFields, Holds, DecodeValue, Tag, Put, DecodePacked, EncodeItems, Storable, DecodePrefixed, Varint;
    var i := item.i;
    var f, tag, d := fields[i], Tag(2, fields[i].tag), EncodeItems(fields[i].ty, [], item.vs).value;
    HoldsBoth(b, pos, tag, Prefixed(d));
    HeldInside(b, pos, ItemBytes(fields, item).value);
    HoldsShorter(b, pos + |tag|, d);
    PrefixedRoundTrip(b, pos + |tag|, d);
    HoldsItself(d);
    PackDecodes(f.ty, item.vs, d, 0, slots[i], f.kind.max);
    FieldTaken(fields, b, pos, slots, seen, i, 2);
  }

  // The decoder finds what a sequence of fields means: with strange fields at any place, in any order, with arrays
  // in parts, and with messages in messages.  And it fails when that has no meaning.
  lemma {:induction false} StreamDecodes(fields: seq<Field>, items: seq<Item>, b: Bytes, pos: nat, slots: seq<Slot>, seen: set<nat>)
    requires GoodFields(fields) && |slots| == |fields| && GoodStream(fields, items) && StreamBytes(fields, items).Some?
    requires pos <= |b| < LIMIT32 && Holds(b, pos, StreamBytes(fields, items).value)
    requires pos + |StreamBytes(fields, items).value| == |b|
    ensures DecodeMessage(fields, b, pos, slots, seen) == Result(fields, slots, seen, items)
    decreases items, 2
  {
    hide GoodFields, Holds, GoodItem, GoodStream, ItemBytes, StreamBytes, Put, Meaning, DecodeMessage, Result, NothingMissing;
    StreamParts(fields, items);
    ResultStep(fields, slots, seen, items);
    if items == [] {
      EndDecodes(fields, b, slots, seen);
    } else {
      var item, rest := items[0], items[1..];
      var e := ItemBytes(fields, item).value;
      HoldsBoth(b, pos, e, StreamBytes(fields, rest).value);
      GoodParts(fields, items);
      if !item.Unknown? {
        IndexIsGood(fields, item);
      }
      match item
      case Unknown(number, p) =>
        UnknownTaken(fields, item, b, pos, slots, seen);
        StreamDecodes(fields, rest, b, pos + |e|, slots, seen);
      case Pack(i, vs) =>
        PackTaken(fields, item, b, pos, slots, seen);
        var all := slots[i] + vs;
        StreamDecodes(fields, rest, b, pos + |e|, Put(fields, slots, i, all), seen + {i});
      case One(i, _) =>
        OneDecodes(fields, item, b, pos, slots, seen);
        var v := Meaning(fields[i].ty, if fields[i].kind.Repeated? then None else Present(slots[i]), item.content);
        if v.Some? {
          var all := if fields[i].kind.Repeated? then slots[i] + [v.value] else [v.value];
          StreamDecodes(fields, rest, b, pos + |e|, Put(fields, slots, i, all), seen + {i});
        }
    }
  }

  lemma StreamParts(fields: seq<Field>, items: seq<Item>)
    requires StreamBytes(fields, items).Some?
    ensures items == [] ==> StreamBytes(fields, items).value == []
    ensures items != [] ==>
      && ItemBytes(fields, items[0]).Some? && StreamBytes(fields, items[1..]).Some?
      && StreamBytes(fields, items).value == ItemBytes(fields, items[0]).value + StreamBytes(fields, items[1..]).value
  {
    hide ItemBytes;
  }

  lemma ResultStep(fields: seq<Field>, slots: seq<Slot>, seen: set<nat>, items: seq<Item>)
    requires |slots| == |fields|
    ensures Result(fields, slots, seen, items)
         == if items == [] then (if NothingMissing(fields, seen) then Some(slots) else None)
            else
              match items[0]
              case Unknown(_, _) => Result(fields, slots, seen, items[1..])
              case Pack(i, vs) =>
                if i >= |fields| || !fields[i].kind.Repeated? || (vs != [] && |slots[i]| + |vs| > fields[i].kind.max) then None
                else Result(fields, Put(fields, slots, i, slots[i] + vs), seen + {i}, items[1..])
              case One(i, c) =>
                if i >= |fields| then None else
                  var all := fields[i].kind.Repeated?;
                  var v := Meaning(fields[i].ty, if all then None else Present(slots[i]), c);
                  if v.None? || (all && |slots[i]| >= fields[i].kind.max) then None
                  else
                    Result(fields, Put(fields, slots, i, if all then slots[i] + [v.value] else [v.value]), seen + {i}, items[1..])
  {
    hide NothingMissing, Put, Meaning;
  }

  lemma IndexIsGood(fields: seq<Field>, item: Item)
    requires !item.Unknown? && GoodItem(fields, item)
    ensures item.i < |fields| && (item.Pack? ==> fields[item.i].kind.Repeated?)
  {
  }

  lemma UnknownTaken(fields: seq<Field>, item: Item, b: Bytes, pos: nat, slots: seq<Slot>, seen: set<nat>)
    requires |slots| == |fields| && pos <= |b| && item.Unknown? && GoodItem(fields, item)
    requires Holds(b, pos, ItemBytes(fields, item).value)
    ensures var next := pos + |ItemBytes(fields, item).value|;
      pos < next <= |b| && DecodeMessage(fields, b, pos, slots, seen) == DecodeMessage(fields, b, next, slots, seen)
  {
    hide DecodeMessage, Holds, Tag, ForeignBytes, GoodForeign;
    UnknownStep(fields, b, pos, slots, seen, item.number, item.payload);
  }

  lemma EndDecodes(fields: seq<Field>, b: Bytes, slots: seq<Slot>, seen: set<nat>)
    requires |slots| == |fields|
    ensures DecodeMessage(fields, b, |b|, slots, seen) == if NothingMissing(fields, seen) then Some(slots) else None
  {
    SameRequired(fields, seen);
  }

  lemma GoodParts(fields: seq<Field>, items: seq<Item>)
    requires items != [] && GoodStream(fields, items)
    ensures GoodItem(fields, items[0]) && GoodStream(fields, items[1..])
  {
    hide GoodItem;
  }

  // From the beginning of a message.
  lemma AnyOrder(fields: seq<Field>, items: seq<Item>)
    requires GoodFields(fields) && GoodStream(fields, items)
    requires StreamBytes(fields, items).Some? && |StreamBytes(fields, items).value| < LIMIT32
    ensures Decode(fields, StreamBytes(fields, items).value) == Result(fields, seq(|fields|, _ => []), {}, items)
  {
    hide GoodFields, StreamBytes, GoodStream, Result, DecodeMessage;
    var b := StreamBytes(fields, items).value;
    HoldsItself(b);
    StreamDecodes(fields, items, b, 0, seq(|fields|, _ => []), {});
  }

  // ----- strange fields change nothing -----

  function Known(items: seq<Item>): seq<Item> {
    if items == [] then [] else (if items[0].Unknown? then [] else [items[0]]) + Known(items[1..])
  }

  lemma KnownParts(items: seq<Item>)
    requires items != []
    ensures items[0].Unknown? ==> Known(items) == Known(items[1..])
    ensures !items[0].Unknown? ==>
      Known(items) != [] && Known(items)[0] == items[0] && Known(items)[1..] == Known(items[1..])
  {
  }

  lemma {:induction false} KnownMeansTheSame(fields: seq<Field>, slots: seq<Slot>, seen: set<nat>, items: seq<Item>)
    requires |slots| == |fields|
    ensures Result(fields, slots, seen, Known(items)) == Result(fields, slots, seen, items)
    decreases |items|
  {
    hide Result, Put, Meaning, Known, NothingMissing;
    ResultStep(fields, slots, seen, items);
    if items == [] {
      NothingKnown();
    } else {
      var item, rest := items[0], items[1..];
      KnownParts(items);
      ResultStep(fields, slots, seen, Known(items));
      match item
      case Unknown(_, _) => KnownMeansTheSame(fields, slots, seen, rest);
      case Pack(i, vs) =>
        if i < |fields| {
          var all := slots[i] + vs;
          KnownMeansTheSame(fields, Put(fields, slots, i, all), seen + {i}, rest);
        }
      case One(i, c) =>
        if i < |fields| {
          var v := Meaning(fields[i].ty, if fields[i].kind.Repeated? then None else Present(slots[i]), c);
          if v.Some? {
            var all := if fields[i].kind.Repeated? then slots[i] + [v.value] else [v.value];
            KnownMeansTheSame(fields, Put(fields, slots, i, all), seen + {i}, rest);
          }
        }
    }
  }

  lemma NothingKnown()
    ensures Known([]) == []
  {
  }

  lemma {:induction false} KnownIsGood(fields: seq<Field>, items: seq<Item>)
    requires GoodStream(fields, items) && StreamBytes(fields, items).Some?
    ensures GoodStream(fields, Known(items)) && StreamBytes(fields, Known(items)).Some?
    ensures |StreamBytes(fields, Known(items)).value| <= |StreamBytes(fields, items).value|
    decreases |items|
  {
    hide GoodItem, ItemBytes, StreamBytes, Known;
    StreamParts(fields, items);
    StreamsBegin(fields);
    if items == [] {
      NothingKnown();
    } else {
      GoodParts(fields, items);
      KnownIsGood(fields, items[1..]);
      KnownParts(items);
      if !items[0].Unknown? {
        StreamCons(fields, Known(items));
        assert Known(items) == [items[0]] + Known(items[1..]);
      }
    }
  }

  lemma StreamsBegin(fields: seq<Field>)
    ensures StreamBytes(fields, []) == Some([])
  {
  }

  lemma StreamCons(fields: seq<Field>, items: seq<Item>)
    requires items != [] && ItemBytes(fields, items[0]).Some? && StreamBytes(fields, items[1..]).Some?
    ensures StreamBytes(fields, items) == Some(ItemBytes(fields, items[0]).value + StreamBytes(fields, items[1..]).value)
  {
    hide ItemBytes;
  }

  // Fields the message does not have can stand anywhere between the others, of any number and wire type: the
  // message is decoded as if they were not there.
  lemma UnknownIsIgnored(fields: seq<Field>, items: seq<Item>)
    requires GoodFields(fields) && GoodStream(fields, items)
    requires StreamBytes(fields, items).Some? && |StreamBytes(fields, items).value| < LIMIT32
    ensures StreamBytes(fields, Known(items)).Some?
    ensures Decode(fields, StreamBytes(fields, items).value) == Decode(fields, StreamBytes(fields, Known(items)).value)
  {
    hide GoodFields, StreamBytes, GoodStream, Result, DecodeMessage, Known;
    KnownIsGood(fields, items);
    AnyOrder(fields, items);
    AnyOrder(fields, Known(items));
    KnownMeansTheSame(fields, seq(|fields|, _ => []), {}, items);
  }

  // ----- the fields of a message that is encoded -----

  function ContentOf(t: Type, v: Value): Content
    decreases t, 0
  {
    if t.Submessage? && v.Message? && |v.slots| == |t.fields| then Nested(ItemsFrom(t.fields, v.slots, 0)) else Plain(v)
  }

  function Ones(t: Type, i: nat, vs: seq<Value>): seq<Item>
    decreases t, 1, |vs|
  {
    if vs == [] then [] else [One(i, ContentOf(t, vs[0]))] + Ones(t, i, vs[1..])
  }

  function ItemsOf(f: Field, i: nat, vs: Slot): seq<Item>
    decreases f, 2
  {
    if vs == [] then []
    else if f.kind.Repeated? && Packable(f.ty) then [Pack(i, vs)]
    else Ones(f.ty, i, vs)
  }

  // The fields from number i on, in their order.
  function ItemsFrom(fields: seq<Field>, slots: seq<Slot>, i: nat): seq<Item>
    requires |slots| == |fields|
    decreases fields, 3, |fields| - i
  {
    if i >= |fields| then [] else ItemsOf(fields[i], i, slots[i]) + ItemsFrom(fields, slots, i + 1)
  }

  lemma {:induction false} StreamsJoin(fields: seq<Field>, a: seq<Item>, b: seq<Item>)
    requires StreamBytes(fields, a).Some? && StreamBytes(fields, b).Some?
    ensures StreamBytes(fields, a + b) == Some(StreamBytes(fields, a).value + StreamBytes(fields, b).value)
    decreases |a|
  {
    hide ItemBytes, StreamBytes;
    StreamsBegin(fields);
    if a == [] {
      assert a + b == b;
      assert StreamBytes(fields, b).value == [] + StreamBytes(fields, b).value;
    } else {
      StreamParts(fields, a);
      StreamsJoin(fields, a[1..], b);
      assert (a + b)[0] == a[0] && (a + b)[1..] == a[1..] + b;
      StreamCons(fields, a + b);
      var e, rest, more := ItemBytes(fields, a[0]).value, StreamBytes(fields, a[1..]).value, StreamBytes(fields, b).value;
      assert e + (rest + more) == e + rest + more;
    }
  }

  lemma {:induction false} ContentIsGood(t: Type, v: Value)
    requires GoodType(t) && Storable(t, v) && Terminated(t, v)
    requires EncodeValue(t, v).Some? && |EncodeValue(t, v).value| < LIMIT32
    ensures GoodContent(t, ContentOf(t, v)) && ContentBytes(t, ContentOf(t, v)) == EncodeValue(t, v)
    decreases t, 0
  {
    hide ItemsFrom;
    if t.Submessage? {
      FieldsAreGood(t.fields, v.slots, 0);
      assert t.fields[0..] == t.fields && v.slots[0..] == v.slots;
    }
  }

  lemma {:induction false} OnesAreGood(fields: seq<Field>, i: nat, vs: seq<Value>)
    requires i < |fields| && GoodField(fields[i])
    requires forall k: nat | k < |vs| :: Storable(fields[i].ty, vs[k]) && Terminated(fields[i].ty, vs[k])
    requires var e := EncodeItems(fields[i].ty, Tag(WireType(fields[i].ty), fields[i].tag), vs); e.Some? && |e.value| < LIMIT32
    ensures GoodStream(fields, Ones(fields[i].ty, i, vs))
    ensures StreamBytes(fields, Ones(fields[i].ty, i, vs))
         == EncodeItems(fields[i].ty, Tag(WireType(fields[i].ty), fields[i].tag), vs)
    decreases fields[i], 1, |vs|
  {
    hide Storable, Terminated, GoodContent, EncodeValue, ContentBytes, Tag, ContentOf, StreamBytes;
    StreamsBegin(fields);
    if vs != [] {
      var t := fields[i].ty;
      ContentIsGood(t, vs[0]);
      OnesAreGood(fields, i, vs[1..]);
      var all := Ones(t, i, vs);
      assert all[0] == One(i, ContentOf(t, vs[0])) && all[1..] == Ones(t, i, vs[1..]);
      StreamCons(fields, all);
    }
  }

  lemma {:induction false} SlotIsGood(fields: seq<Field>, slots: seq<Slot>, i: nat)
    requires GoodFields(fields) && Shaped(fields, slots) && AllTerminated(fields, slots) && i < |fields| == |slots|
    requires EncodeSlot(fields[i], slots[i]).Some? && |EncodeSlot(fields[i], slots[i]).value| < LIMIT32
    ensures GoodStream(fields, ItemsOf(fields[i], i, slots[i]))
    ensures StreamBytes(fields, ItemsOf(fields[i], i, slots[i])) == EncodeSlot(fields[i], slots[i])
    decreases fields, 0
  {
    hide Storable, Terminated, GoodContent, EncodeValue, ContentBytes, Tag, ContentOf, StreamBytes, GoodFields, Shaped,
      AllTerminated, GoodField, EncodeItems, Ones;
    StreamsBegin(fields);
    var f, vs := fields[i], slots[i];
    if vs != [] {
      forall k: nat | k < |vs| ensures Storable(f.ty, vs[k]) && Terminated(f.ty, vs[k]) && GoodField(f) && StorableSlot(f, vs) {
        ItemIsGood(fields, slots, i, k);
      }
      assert GoodField(f) && StorableSlot(f, vs) by { ItemIsGood(fields, slots, i, 0); }
      if f.kind.Repeated? && Packable(f.ty) {
        var all := [Pack(i, vs)];
        assert all[1..] == [];
        PackIsGood(fields, slots, i);
        StreamCons(fields, all);
        var e := ItemBytes(fields, all[0]).value;
        assert e + [] == e;
      } else if f.kind.Repeated? {
        OnesAreGood(fields, i, vs);
      } else {
        assert vs == [vs[0]];
        OneItem(f.ty, Tag(WireType(f.ty), f.tag), vs[0]);
        OnesAreGood(fields, i, vs);
      }
    }
  }

  lemma PackIsGood(fields: seq<Field>, slots: seq<Slot>, i: nat)
    requires i < |fields| == |slots| && fields[i].kind.Repeated? && Packable(fields[i].ty) && slots[i] != []
    requires EncodeSlot(fields[i], slots[i]).Some?
    ensures ItemBytes(fields, Pack(i, slots[i])) == EncodeSlot(fields[i], slots[i])
  {
    hide EncodeItems, Tag, Varint;
  }

  lemma OneItem(t: Type, before: Bytes, v: Value)
    requires EncodeValue(t, v).Some?
    ensures EncodeItems(t, before, [v]) == Some(before + EncodeValue(t, v).value)
  {
    hide EncodeValue;
    assert [v][1..] == [];
    assert before + EncodeValue(t, v).value + [] == before + EncodeValue(t, v).value;
  }

  lemma {:induction false} FieldsAreGood(fields: seq<Field>, slots: seq<Slot>, i: nat)
    requires GoodFields(fields) && Shaped(fields, slots) && AllTerminated(fields, slots) && i <= |fields| == |slots|
    requires EncodeFields(fields[i..], slots[i..]).Some? && |EncodeFields(fields[i..], slots[i..]).value| < LIMIT32
    ensures GoodStream(fields, ItemsFrom(fields, slots, i))
    ensures StreamBytes(fields, ItemsFrom(fields, slots, i)) == EncodeFields(fields[i..], slots[i..])
    decreases fields, 1, |fields| - i
  {
    hide GoodFields, Shaped, AllTerminated, EncodeSlot, ItemsOf, StreamBytes, GoodItem;
    if i == |fields| {
      StreamsBegin(fields);
    } else {
      assert fields[i..][1..] == fields[i + 1..] && slots[i..][1..] == slots[i + 1..];
      SlotIsGood(fields, slots, i);
      FieldsAreGood(fields, slots, i + 1);
      StreamsJoin(fields, ItemsOf(fields[i], i, slots[i]), ItemsFrom(fields, slots, i + 1));
    }
  }

  // A message that is encoded is found whatever strange fields stand in front of its fields, between them, or
  // behind them.
  lemma FoundAmongUnknown(fields: seq<Field>, slots: seq<Slot>, items: seq<Item>)
    requires GoodFields(fields) && Shaped(fields, slots) && AllTerminated(fields, slots) && |slots| == |fields|
    requires EncodeFields(fields, slots).Some? && |EncodeFields(fields, slots).value| < LIMIT32
    requires Known(items) == ItemsFrom(fields, slots, 0) && GoodStream(fields, items)
    requires StreamBytes(fields, items).Some? && |StreamBytes(fields, items).value| < LIMIT32
    ensures Decode(fields, StreamBytes(fields, items).value) == Some(slots)
  {
    hide GoodFields, Shaped, AllTerminated, EncodeFields, ItemsFrom, StreamBytes, GoodStream, Known, DecodeMessage;
    assert fields[0..] == fields && slots[0..] == slots;
    FieldsAreGood(fields, slots, 0);
    UnknownIsIgnored(fields, items);
    MessageRoundTrip(fields, slots, EncodeFields(fields, slots).value);
  }
}
