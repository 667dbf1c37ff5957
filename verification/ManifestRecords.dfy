/** The records of the manifest: how a version edit is written as bytes, and read back. */
module ManifestRecords {
  import opened Options
  import opened Sequences
  import opened ProtoVarints
  import opened Versions

  // A table file as the manifest describes it; the keys are internal keys as bytes.
  datatype Meta = Meta(number: nat, size: nat, smallest: Bytes, largest: Bytes)

  datatype Record = Record(
    comparator: Option<Bytes>,
    logNumber: Option<nat>,
    prevLogNumber: Option<nat>,
    nextFile: Option<nat>,
    lastSequence: Option<nat>,
    pointers: seq<(nat, Bytes)>,
    deleted: set<(nat, nat)>,
    added: seq<(nat, Meta)>)

  // VersionEdit::Clear leaves the compaction pointers.
  function Cleared(r: Record): Record {
    Record(None, None, None, None, None, r.pointers, {}, [])
  }

  function Blank(): Record {
    Record(None, None, None, None, None, [], {}, [])
  }

  // ----- what fits into the integers and slices of the format -----

  predicate FitsNumber(n: nat) {
    n < LIMIT64
  }

  predicate FitsLevel(l: nat) {
    l < NUM_LEVELS
  }

  predicate FitsSlice(b: Bytes) {
    |b| < LIMIT32
  }

  predicate FitsMeta(m: Meta) {
    FitsNumber(m.number) && FitsNumber(m.size) && FitsSlice(m.smallest) && FitsSlice(m.largest)
  }

  predicate FitsOption(n: Option<nat>) {
    n.Some? ==> FitsNumber(n.value)
  }

  ghost predicate InRange(r: Record) {
    && (r.comparator.Some? ==> FitsSlice(r.comparator.value))
    && FitsOption(r.logNumber) && FitsOption(r.prevLogNumber) && FitsOption(r.nextFile) && FitsOption(r.lastSequence)
    && (forall i | 0 <= i < |r.pointers| :: FitsLevel(r.pointers[i].0) && FitsSlice(r.pointers[i].1))
    && (forall d | d in r.deleted :: FitsLevel(d.0) && FitsNumber(d.1))
    && (forall i | 0 <= i < |r.added| :: FitsLevel(r.added[i].0) && FitsMeta(r.added[i].1))
  }

  // ----- the tagged items of a record -----

  datatype Item =
    | Comparator(name: Bytes)
    | LogNumber(number: nat)
    | PrevLogNumber(number: nat)
    | NextFile(number: nat)
    | LastSequence(number: nat)
    | Pointer(level: nat, key: Bytes)
    | Deleted(level: nat, number: nat)
    | Added(level: nat, meta: Meta)

  // 8 was used for large value refs.
  const COMPARATOR: nat := 1
  const LOG_NUMBER: nat := 2
  const NEXT_FILE_NUMBER: nat := 3
  const LAST_SEQUENCE: nat := 4
  const COMPACT_POINTER: nat := 5
  const DELETED_FILE: nat := 6
  const NEW_FILE: nat := 7
  const PREV_LOG_NUMBER: nat := 9

  predicate FitsItem(i: Item) {
    match i
    case Comparator(name) => FitsSlice(name)
    case LogNumber(n) => FitsNumber(n)
    case PrevLogNumber(n) => FitsNumber(n)
    case NextFile(n) => FitsNumber(n)
    case LastSequence(n) => FitsNumber(n)
    case Pointer(l, key) => FitsLevel(l) && FitsSlice(key)
    case Deleted(l, n) => FitsLevel(l) && FitsNumber(n)
    case Added(l, m) => FitsLevel(l) && FitsMeta(m)
  }

  ghost predicate AllFit(items: seq<Item>) {
    forall i | 0 <= i < |items| :: FitsItem(items[i])
  }

  // PutLengthPrefixedSlice
  function Slice(b: Bytes): Bytes {
    Varint(|b|) + b
  }

  function MetaBytes(m: Meta): Bytes {
    Varint(m.number) + (Varint(m.size) + (Slice(m.smallest) + Slice(m.largest)))
  }

  function ItemBytes(i: Item): Bytes {
    match i
    case Comparator(name) => Varint(COMPARATOR) + Slice(name)
    case LogNumber(n) => Varint(LOG_NUMBER) + Varint(n)
    case PrevLogNumber(n) => Varint(PREV_LOG_NUMBER) + Varint(n)
    case NextFile(n) => Varint(NEXT_FILE_NUMBER) + Varint(n)
    case LastSequence(n) => Varint(LAST_SEQUENCE) + Varint(n)
    case Pointer(l, key) => Varint(COMPACT_POINTER) + (Varint(l) + Slice(key))
    case Deleted(l, n) => Varint(DELETED_FILE) + (Varint(l) + Varint(n))
    case Added(l, m) => Varint(NEW_FILE) + (Varint(l) + MetaBytes(m))
  }

  function AllBytes(items: seq<Item>): Bytes {
    if items == [] then [] else ItemBytes(items[0]) + AllBytes(items[1..])
  }

  // std::set<std::pair<int, uint64_t>> goes through its members in ascending order.
  predicate PairBefore(a: (nat, nat), b: (nat, nat)) {
    a.0 < b.0 || (a.0 == b.0 && a.1 < b.1)
  }

  ghost predicate IsLeast(d: (nat, nat), s: set<(nat, nat)>) {
    d in s && forall x | x in s && x != d :: PairBefore(d, x)
  }

  lemma {:induction false} LeastExists(s: set<(nat, nat)>)
    requires s != {}
    ensures exists d :: IsLeast(d, s)
    decreases s
  {
    var d :| d in s;
    assert forall x | x in s && x != d :: x in s - {d};
    if s - {d} == {} {
      assert IsLeast(d, s);
    } else {
      LeastExists(s - {d});
      var e :| IsLeast(e, s - {d});
      assert IsLeast(if PairBefore(d, e) then d else e, s);
    }
  }

  ghost function Least(s: set<(nat, nat)>): (d: (nat, nat))
    requires s != {}
    ensures IsLeast(d, s)
  {
    LeastExists(s);
    var d :| IsLeast(d, s);
    d
  }

  ghost function DeletedItems(s: set<(nat, nat)>): seq<Item>
    decreases s
  {
    if s == {} then [] else var d := Least(s); [Deleted(d.0, d.1)] + DeletedItems(s - {d})
  }

  function PointerItems(pointers: seq<(nat, Bytes)>): seq<Item> {
    seq(|pointers|, i requires 0 <= i < |pointers| => Pointer(pointers[i].0, pointers[i].1))
  }

  function AddedItems(added: seq<(nat, Meta)>): seq<Item> {
    seq(|added|, i requires 0 <= i < |added| => Added(added[i].0, added[i].1))
  }

  function Head(r: Record): seq<Item> {
    (if r.comparator.Some? then [Comparator(r.comparator.value)] else [])
    + (if r.logNumber.Some? then [LogNumber(r.logNumber.value)] else [])
    + (if r.prevLogNumber.Some? then [PrevLogNumber(r.prevLogNumber.value)] else [])
    + (if r.nextFile.Some? then [NextFile(r.nextFile.value)] else [])
    + (if r.lastSequence.Some? then [LastSequence(r.lastSequence.value)] else [])
  }

  ghost function Items(r: Record): seq<Item> {
    Head(r) + PointerItems(r.pointers) + DeletedItems(r.deleted) + AddedItems(r.added)
  }

  // VersionEdit::EncodeTo
  ghost function Encoded(r: Record): Bytes {
    AllBytes(Items(r))
  }

  // ----- reading -----

  function GetVarint32(b: Bytes, pos: nat): (p: Parsed<nat>)
    ensures p.Read? ==> pos < p.next <= |b|
  {
    var v := DecodeVarint(b, pos, 0, 0);
    if v.Read? && v.value < LIMIT32 then v else Failed
  }

  function GetVarint64(b: Bytes, pos: nat): (p: Parsed<nat>)
    ensures p.Read? ==> pos < p.next <= |b|
  {
    DecodeVarint(b, pos, 0, 0)
  }

  function GetSlice(b: Bytes, pos: nat): (p: Parsed<Bytes>)
    ensures p.Read? ==> pos < p.next <= |b|
  {
    var size := GetVarint32(b, pos);
    if size.Read? && size.next + size.value <= |b| then Read(b[size.next..size.next + size.value], size.next + size.value)
    else Failed
  }

  function GetLevel(b: Bytes, pos: nat): (p: Parsed<nat>)
    ensures p.Read? ==> pos < p.next <= |b|
  {
    var l := GetVarint32(b, pos);
    if l.Read? && l.value < NUM_LEVELS then l else Failed
  }

  function GetMeta(b: Bytes, pos: nat): (p: Parsed<Meta>)
    ensures p.Read? ==> pos < p.next <= |b|
  {
    var number := GetVarint64(b, pos);
    if number.Failed? then Failed else
      var size := GetVarint64(b, number.next);
      if size.Failed? then Failed else
        var smallest := GetSlice(b, size.next);
        if smallest.Failed? then Failed else
          var largest := GetSlice(b, smallest.next);
          if largest.Failed? then Failed
          else Read(Meta(number.value, size.value, smallest.value, largest.value), largest.next)
  }

  // A tag and what belongs to it.
  function GetItem(b: Bytes, pos: nat): (p: Parsed<Item>)
    ensures p.Read? ==> pos < p.next <= |b|
  {
    var tag := GetVarint32(b, pos);
    if tag.Failed? then Failed  // invalid tag
    else if tag.value == COMPARATOR then
      var name := GetSlice(b, tag.next);
      if name.Read? then Read(Comparator(name.value), name.next) else Failed
    else if tag.value == COMPACT_POINTER then
      var l := GetLevel(b, tag.next);
      if l.Failed? then Failed else
        var key := GetSlice(b, l.next);
        if key.Read? then Read(Pointer(l.value, key.value), key.next) else Failed
    else if tag.value == DELETED_FILE then
      var l := GetLevel(b, tag.next);
      if l.Failed? then Failed else
        var n := GetVarint64(b, l.next);
        if n.Read? then Read(Deleted(l.value, n.value), n.next) else Failed
    else if tag.value == NEW_FILE then
      var l := GetLevel(b, tag.next);
      if l.Failed? then Failed else
        var m := GetMeta(b, l.next);
        if m.Read? then Read(Added(l.value, m.value), m.next) else Failed
    else if tag.value in {LOG_NUMBER, PREV_LOG_NUMBER, NEXT_FILE_NUMBER, LAST_SEQUENCE} then
      var n := GetVarint64(b, tag.next);
      if n.Read? then Read(NumberItem(tag.value, n.value), n.next) else Failed
    else Failed  // unknown tag
  }

  function NumberItem(tag: nat, n: nat): Item {
    if tag == LOG_NUMBER then LogNumber(n)
    else if tag == PREV_LOG_NUMBER then PrevLogNumber(n)
    else if tag == NEXT_FILE_NUMBER then NextFile(n)
    else LastSequence(n)
  }

  function Store(r: Record, i: Item): Record {
    match i
    case Comparator(name) => r.(comparator := Some(name))
    case LogNumber(n) => r.(logNumber := Some(n))
    case PrevLogNumber(n) => r.(prevLogNumber := Some(n))
    case NextFile(n) => r.(nextFile := Some(n))
    case LastSequence(n) => r.(lastSequence := Some(n))
    case Pointer(l, key) => r.(pointers := r.pointers + [(l, key)])
    case Deleted(l, n) => r.(deleted := r.deleted + {(l, n)})
    case Added(l, m) => r.(added := r.added + [(l, m)])
  }

  function StoreAll(r: Record, items: seq<Item>): Record
    decreases items
  {
    if items == [] then r else StoreAll(Store(r, items[0]), items[1..])
  }

  function DecodeItems(b: Bytes, pos: nat, r: Record): Option<Record>
    requires pos <= |b|
    decreases |b| - pos
  {
    if pos == |b| then Some(r) else
      var i := GetItem(b, pos);
      if i.Read? then DecodeItems(b, i.next, Store(r, i.value)) else None
  }

  // VersionEdit::DecodeFrom, into an object that holds r.
  function Decoded(r: Record, b: Bytes): Option<Record> {
    DecodeItems(b, 0, Cleared(r))
  }

  // ----- round trip -----

  lemma SmallRoundTrip(b: Bytes, pos: nat, v: nat)
    requires Holds(b, pos, Varint(v)) && v < LIMIT32
    ensures GetVarint32(b, pos) == Read(v, pos + |Varint(v)|)
  {
    hide DecodeVarint, Varint, Holds;
    VarintRoundTrip(b, pos, v);
  }

  lemma SliceRoundTrip(b: Bytes, pos: nat, s: Bytes)
    requires Holds(b, pos, Slice(s)) && FitsSlice(s)
    ensures GetSlice(b, pos) == Read(s, pos + |Slice(s)|)
  {
    hide GetVarint32, Varint;
    HoldsBoth(b, pos, Varint(|s|), s);
    SmallRoundTrip(b, pos, |s|);
    HeldIsSlice(b, pos + |Varint(|s|)|, s);
  }

  lemma LevelRoundTrip(b: Bytes, pos: nat, l: nat)
    requires Holds(b, pos, Varint(l)) && FitsLevel(l)
    ensures GetLevel(b, pos) == Read(l, pos + |Varint(l)|)
  {
    hide GetVarint32, Varint, Holds;
    SmallRoundTrip(b, pos, l);
  }

  lemma MetaRoundTrip(b: Bytes, pos: nat, m: Meta)
    requires Holds(b, pos, MetaBytes(m)) && FitsMeta(m)
    ensures GetMeta(b, pos) == Read(m, pos + |MetaBytes(m)|)
  {
    hide GetSlice, Varint, Holds, Slice, DecodeVarint;
    var number, size, smallest, largest := Varint(m.number), Varint(m.size), Slice(m.smallest), Slice(m.largest);
    HoldsBoth(b, pos, number, size + (smallest + largest));
    HoldsBoth(b, pos + |number|, size, smallest + largest);
    HoldsBoth(b, pos + |number| + |size|, smallest, largest);
    VarintRoundTrip(b, pos, m.number);
    VarintRoundTrip(b, pos + |number|, m.size);
    SliceRoundTrip(b, pos + |number| + |size|, m.smallest);
    SliceRoundTrip(b, pos + |number| + |size| + |smallest|, m.largest);
  }

  lemma ItemRoundTrip(b: Bytes, pos: nat, i: Item)
    requires Holds(b, pos, ItemBytes(i)) && FitsItem(i)
    ensures GetItem(b, pos) == Read(i, pos + |ItemBytes(i)|)
  {
    hide GetSlice, GetVarint32, GetLevel, GetMeta, Varint, Holds, Slice, MetaBytes, DecodeVarint;
    match i
    case Comparator(name) =>
      HoldsBoth(b, pos, Varint(COMPARATOR), Slice(name));
      SmallRoundTrip(b, pos, COMPARATOR);
      SliceRoundTrip(b, pos + |Varint(COMPARATOR)|, name);
    case Pointer(l, key) =>
      TaggedLevel(b, pos, COMPACT_POINTER, l, Slice(key));
      SliceRoundTrip(b, pos + |Varint(COMPACT_POINTER)| + |Varint(l)|, key);
    case Deleted(l, n) =>
      TaggedLevel(b, pos, DELETED_FILE, l, Varint(n));
      VarintRoundTrip(b, pos + |Varint(DELETED_FILE)| + |Varint(l)|, n);
    case Added(l, m) =>
      TaggedLevel(b, pos, NEW_FILE, l, MetaBytes(m));
      MetaRoundTrip(b, pos + |Varint(NEW_FILE)| + |Varint(l)|, m);
    case _ => NumberRoundTrip(b, pos, i);
  }

  lemma NumberRoundTrip(b: Bytes, pos: nat, i: Item)
    requires i.LogNumber? || i.PrevLogNumber? || i.NextFile? || i.LastSequence?
    requires Holds(b, pos, ItemBytes(i)) && FitsNumber(i.number)
    ensures GetItem(b, pos) == Read(i, pos + |ItemBytes(i)|)
  {
    hide GetVarint32, Varint, Holds, DecodeVarint, GetSlice, GetLevel, GetMeta;
    var tag := if i.LogNumber? then LOG_NUMBER else if i.PrevLogNumber? then PREV_LOG_NUMBER
               else if i.NextFile? then NEXT_FILE_NUMBER else LAST_SEQUENCE;
    TaggedNumber(b, pos, tag, i.number);
  }

  lemma TaggedNumber(b: Bytes, pos: nat, tag: nat, n: nat)
    requires Holds(b, pos, Varint(tag) + Varint(n)) && tag < LIMIT32 && FitsNumber(n)
    ensures GetVarint32(b, pos) == Read(tag, pos + |Varint(tag)|)
    ensures GetVarint64(b, pos + |Varint(tag)|) == Read(n, pos + |Varint(tag)| + |Varint(n)|)
  {
    hide Varint, Holds, DecodeVarint, GetVarint32;
    HoldsBoth(b, pos, Varint(tag), Varint(n));
    SmallRoundTrip(b, pos, tag);
    VarintRoundTrip(b, pos + |Varint(tag)|, n);
  }

  lemma TaggedLevel(b: Bytes, pos: nat, tag: nat, l: nat, rest: Bytes)
    requires Holds(b, pos, Varint(tag) + (Varint(l) + rest)) && tag < LIMIT32 && FitsLevel(l)
    ensures GetVarint32(b, pos) == Read(tag, pos + |Varint(tag)|)
    ensures GetLevel(b, pos + |Varint(tag)|) == Read(l, pos + |Varint(tag)| + |Varint(l)|)
    ensures Holds(b, pos + |Varint(tag)| + |Varint(l)|, rest)
  {
    hide Varint, Holds, DecodeVarint, GetVarint32, GetLevel;
    HoldsBoth(b, pos, Varint(tag), Varint(l) + rest);
    HoldsBoth(b, pos + |Varint(tag)|, Varint(l), rest);
    SmallRoundTrip(b, pos, tag);
    LevelRoundTrip(b, pos + |Varint(tag)|, l);
  }

  lemma {:induction false} ItemsRoundTrip(b: Bytes, pos: nat, items: seq<Item>, r: Record)
    requires Holds(b, pos, AllBytes(items)) && pos + |AllBytes(items)| == |b|
    requires AllFit(items)
    ensures DecodeItems(b, pos, r) == Some(StoreAll(r, items))
    decreases items
  {
    hide GetItem, ItemBytes, Holds, FitsItem, Store;
    if items != [] {
      HoldsBoth(b, pos, ItemBytes(items[0]), AllBytes(items[1..]));
      ItemRoundTrip(b, pos, items[0]);
      ItemsRoundTrip(b, pos + |ItemBytes(items[0])|, items[1..], Store(r, items[0]));
    }
  }

  lemma {:induction false} StoreBoth(r: Record, a: seq<Item>, b: seq<Item>)
    ensures StoreAll(r, a + b) == StoreAll(StoreAll(r, a), b)
    decreases a
  {
    hide Store;
    if a == [] {
      assert a + b == b;
    } else {
      assert (a + b)[1..] == a[1..] + b;
      StoreBoth(Store(r, a[0]), a[1..], b);
    }
  }

  lemma {:induction false} StorePointers(r: Record, pointers: seq<(nat, Bytes)>)
    ensures StoreAll(r, PointerItems(pointers)) == r.(pointers := r.pointers + pointers)
    decreases pointers
  {
    if pointers == [] {
      assert r.pointers + pointers == r.pointers;
    } else {
      var items := PointerItems(pointers);
      assert items[1..] == PointerItems(pointers[1..]);
      StorePointers(Store(r, items[0]), pointers[1..]);
      assert r.pointers + [pointers[0]] + pointers[1..] == r.pointers + pointers;
    }
  }

  lemma {:induction false} StoreAdded(r: Record, added: seq<(nat, Meta)>)
    ensures StoreAll(r, AddedItems(added)) == r.(added := r.added + added)
    decreases added
  {
    if added == [] {
      assert r.added + added == r.added;
    } else {
      var items := AddedItems(added);
      assert items[1..] == AddedItems(added[1..]);
      StoreAdded(Store(r, items[0]), added[1..]);
      assert r.added + [added[0]] + added[1..] == r.added + added;
    }
  }

  lemma {:induction false} StoreDeleted(r: Record, s: set<(nat, nat)>)
    ensures StoreAll(r, DeletedItems(s)) == r.(deleted := r.deleted + s)
    decreases s
  {
    if s == {} {
      assert r.deleted + s == r.deleted;
    } else {
      var d := Least(s);
      StoreDeleted(Store(r, Deleted(d.0, d.1)), s - {d});
      assert r.deleted + {d} + (s - {d}) == r.deleted + s;
      assert ([Deleted(d.0, d.1)] + DeletedItems(s - {d}))[1..] == DeletedItems(s - {d});
    }
  }

  lemma StoreOption(r: Record, some: bool, i: Item)
    ensures StoreAll(r, if some then [i] else []) == if some then Store(r, i) else r
  {
    hide Store;
    assert [i][1..] == [];
  }

  function NumberOf(n: Option<nat>): nat {
    if n.Some? then n.value else 0
  }

  lemma StoreHead(r: Record, of: Record)
    requires r == Cleared(r)
    ensures StoreAll(r, Head(of)) == of.(pointers := r.pointers, deleted := {}, added := [])
  {
    hide StoreAll;
    var a := if of.comparator.Some? then [Comparator(of.comparator.value)] else [];
    var b := if of.logNumber.Some? then [LogNumber(of.logNumber.value)] else [];
    var c := if of.prevLogNumber.Some? then [PrevLogNumber(of.prevLogNumber.value)] else [];
    var d := if of.nextFile.Some? then [NextFile(of.nextFile.value)] else [];
    var e := if of.lastSequence.Some? then [LastSequence(of.lastSequence.value)] else [];
    StoreBoth(r, a + b + c + d, e);
    StoreBoth(r, a + b + c, d);
    StoreBoth(r, a + b, c);
    StoreBoth(r, a, b);
    StoreOption(r, of.comparator.Some?, Comparator(if of.comparator.Some? then of.comparator.value else []));
    StoreOption(StoreAll(r, a), of.logNumber.Some?, LogNumber(NumberOf(of.logNumber)));
    StoreOption(StoreAll(r, a + b), of.prevLogNumber.Some?, PrevLogNumber(NumberOf(of.prevLogNumber)));
    StoreOption(StoreAll(r, a + b + c), of.nextFile.Some?, NextFile(NumberOf(of.nextFile)));
    StoreOption(StoreAll(r, a + b + c + d), of.lastSequence.Some?, LastSequence(NumberOf(of.lastSequence)));
  }

  lemma {:induction false} DeletedFit(s: set<(nat, nat)>)
    requires forall d | d in s :: FitsLevel(d.0) && FitsNumber(d.1)
    ensures AllFit(DeletedItems(s))
    decreases s
  {
    if s != {} {
      DeletedFit(s - {Least(s)});
    }
  }

  lemma HeadFits(r: Record)
    requires InRange(r)
    ensures AllFit(Head(r))
  {
  }

  lemma ItemsFit(r: Record)
    requires InRange(r)
    ensures AllFit(Items(r))
  {
    hide DeletedItems, Head, FitsLevel, FitsNumber, FitsSlice, FitsMeta, FitsOption;
    HeadFits(r);
    DeletedFit(r.deleted);
  }

  // A record is read back as it was written; the pointers of the object come first.
  lemma RecordRoundTrip(of: Record, r: Record)
    requires InRange(of)
    ensures Decoded(r, Encoded(of)) == Some(of.(pointers := r.pointers + of.pointers))
  {
    hide Head, DeletedItems, PointerItems, AddedItems, InRange, FitsItem, AllBytes, Holds;
    var items, b := Items(of), Encoded(of);
    ItemsFit(of);
    HoldsWhole(b);
    ItemsRoundTrip(b, 0, items, Cleared(r));
    StoreBoth(Cleared(r), Head(of) + PointerItems(of.pointers) + DeletedItems(of.deleted), AddedItems(of.added));
    StoreBoth(Cleared(r), Head(of) + PointerItems(of.pointers), DeletedItems(of.deleted));
    StoreBoth(Cleared(r), Head(of), PointerItems(of.pointers));
    var r1 := StoreAll(Cleared(r), Head(of));
    StoreHead(Cleared(r), of);
    StorePointers(r1, of.pointers);
    var r2 := StoreAll(r1, PointerItems(of.pointers));
    StoreDeleted(r2, of.deleted);
    StoreAdded(StoreAll(r2, DeletedItems(of.deleted)), of.added);
    assert [] + of.added == of.added && {} + of.deleted == of.deleted;
  }

  lemma HoldsWhole(b: Bytes)
    ensures Holds(b, 0, b)
  {
  }

  // A fresh object is equal to what was written.
  lemma FreshRoundTrip(of: Record)
    requires InRange(of)
    ensures Decoded(Blank(), Encoded(of)) == Some(of)
  {
    hide Decoded, Encoded, InRange;
    RecordRoundTrip(of, Blank());
    assert [] + of.pointers == of.pointers;
  }

  // ----- the bytes themselves -----

  lemma SmallVarint(v: nat)
    requires v < 128
    ensures Varint(v) == [v]
  {
  }

  lemma {:induction false} BytesFollow(items: seq<Item>, i: Item)
    ensures AllBytes(items + [i]) == AllBytes(items) + ItemBytes(i)
    decreases items
  {
    hide ItemBytes;
    if items == [] {
      assert items + [i] == [i] && [i][1..] == [];
    } else {
      BytesFollow(items[1..], i);
      assert (items + [i])[1..] == items[1..] + [i];
    }
  }

  lemma OneDeleted(d: (nat, nat))
    ensures DeletedItems({d}) == [Deleted(d.0, d.1)]
  {
    assert Least({d}) == d && {d} - {d} == {};
    assert DeletedItems({}) == [];
  }

  lemma Follows(items: seq<Item>, bytes: Bytes, i: Item, more: Bytes)
    requires AllBytes(items) == bytes && ItemBytes(i) == more
    ensures AllBytes(items + [i]) == bytes + more
  {
    hide ItemBytes, AllBytes;
    BytesFollow(items, i);
  }

  lemma SampleNumber(tag: nat, n: nat)
    requires tag < 128 && n < 128
    ensures Varint(tag) + Varint(n) == [tag, n]
  {
    SmallVarint(tag);
    SmallVarint(n);
  }

  lemma SampleSlice(x: Byte)
    ensures Slice([x]) == [1, x]
  {
    SmallVarint(1);
  }

  lemma SampleNumbers()
    ensures ItemBytes(LogNumber(20)) == [2, 20] && ItemBytes(NextFile(22)) == [3, 22]
    ensures ItemBytes(LastSequence(23)) == [4, 23] && ItemBytes(PrevLogNumber(21)) == [9, 21]
  {
    hide Varint;
    SampleNumber(2, 20);
    SampleNumber(3, 22);
    SampleNumber(4, 23);
    SampleNumber(9, 21);
  }

  lemma SampleKeys()
    ensures ItemBytes(Comparator([99])) == [1, 1, 99] && ItemBytes(Pointer(1, [65])) == [5, 1, 1, 65]
    ensures ItemBytes(Deleted(2, 24)) == [6, 2, 24]
  {
    hide Varint, Slice;
    SmallVarint(1);
    SmallVarint(5);
    SmallVarint(6);
    SampleNumber(2, 24);
    SampleSlice(99);
    SampleSlice(65);
  }

  lemma SampleFile()
    ensures ItemBytes(Added(3, Meta(25, 26, [66], [67]))) == [7, 3, 25, 26, 1, 66, 1, 67]
  {
    hide Varint, Slice;
    SmallVarint(7);
    SmallVarint(3);
    SmallVarint(25);
    SmallVarint(26);
    SampleSlice(66);
    SampleSlice(67);
  }

  lemma SampleSequence()
    ensures AllBytes([Comparator([99]), LogNumber(20), PrevLogNumber(21), NextFile(22), LastSequence(23)])
         == [1, 1, 99, 2, 20, 9, 21, 3, 22, 4, 23]
  {
    hide ItemBytes, AllBytes;
    SampleNumbers();
    SampleKeys();
    NoBytes();
    Follows([], [], Comparator([99]), [1, 1, 99]);
    assert [] + [Comparator([99])] == [Comparator([99])];
    Follows([Comparator([99])], [1, 1, 99], LogNumber(20), [2, 20]);
    Follows([Comparator([99])] + [LogNumber(20)], [1, 1, 99] + [2, 20], PrevLogNumber(21), [9, 21]);
    Follows([Comparator([99])] + [LogNumber(20)] + [PrevLogNumber(21)], [1, 1, 99] + [2, 20] + [9, 21], NextFile(22), [3, 22]);
    var five := [Comparator([99])] + [LogNumber(20)] + [PrevLogNumber(21)] + [NextFile(22)];
    Follows(five, [1, 1, 99] + [2, 20] + [9, 21] + [3, 22], LastSequence(23), [4, 23]);
    assert five + [LastSequence(23)] == [Comparator([99]), LogNumber(20), PrevLogNumber(21), NextFile(22), LastSequence(23)];
  }

  // An edit with one item of each kind, byte by byte.
  lemma EditBytes()
    ensures Encoded(Record(Some([99]), Some(20), Some(21), Some(22), Some(23), [(1, [65])], {(2, 24)},
                           [(3, Meta(25, 26, [66], [67]))]))
         == [1, 1, 99, 2, 20, 9, 21, 3, 22, 4, 23, 5, 1, 1, 65, 6, 2, 24, 7, 3, 25, 26, 1, 66, 1, 67]
  {
    hide AllBytes, DeletedItems, ItemBytes;
    OneDeleted((2, 24));
    SampleKeys();
    SampleFile();
    SampleSequence();
    var head := [Comparator([99]), LogNumber(20), PrevLogNumber(21), NextFile(22), LastSequence(23)];
    var bytes := [1, 1, 99, 2, 20, 9, 21, 3, 22, 4, 23];
    Follows(head, bytes, Pointer(1, [65]), [5, 1, 1, 65]);
    Follows(head + [Pointer(1, [65])], bytes + [5, 1, 1, 65], Deleted(2, 24), [6, 2, 24]);
    Follows(head + [Pointer(1, [65])] + [Deleted(2, 24)], bytes + [5, 1, 1, 65] + [6, 2, 24],
            Added(3, Meta(25, 26, [66], [67])), [7, 3, 25, 26, 1, 66, 1, 67]);
    var r := Record(Some([99]), Some(20), Some(21), Some(22), Some(23), [(1, [65])], {(2, 24)}, [(3, Meta(25, 26, [66], [67]))]);
    assert Head(r) == head && PointerItems(r.pointers) == [Pointer(1, [65])];
    assert AddedItems(r.added) == [Added(3, Meta(25, 26, [66], [67]))];
  }

  lemma NoBytes()
    ensures AllBytes([]) == []
  {
  }

  // ----- what is refused -----

  lemma {:induction false} ItemsThen(b: Bytes, pos: nat, items: seq<Item>, r: Record)
    requires Holds(b, pos, AllBytes(items)) && AllFit(items)
    ensures pos + |AllBytes(items)| <= |b|
    ensures DecodeItems(b, pos, r) == DecodeItems(b, pos + |AllBytes(items)|, StoreAll(r, items))
    decreases items
  {
    hide GetItem, ItemBytes, Holds, FitsItem, Store;
    HeldInside(b, pos, AllBytes(items));
    if items != [] {
      HoldsBoth(b, pos, ItemBytes(items[0]), AllBytes(items[1..]));
      ItemRoundTrip(b, pos, items[0]);
      ItemsThen(b, pos + |ItemBytes(items[0])|, items[1..], Store(r, items[0]));
    }
  }

  lemma HeldInside(b: Bytes, pos: nat, part: Bytes)
    requires Holds(b, pos, part)
    ensures pos + |part| <= |b|
  {
  }

  // Behind any items, a tag that does not exist spoils the record; 8 is not used any more.
  lemma TagIsChecked(items: seq<Item>, tag: nat, rest: Bytes, r: Record)
    requires AllFit(items) && tag < LIMIT32 && (tag == 0 || tag == 8 || tag > 9)
    ensures Decoded(r, AllBytes(items) + (Varint(tag) + rest)) == None
  {
    hide Holds, AllBytes, FitsItem, Varint, StoreAll, GetVarint32, GetVarint64, GetSlice, GetLevel, GetMeta;
    var b, pos := AllBytes(items) + (Varint(tag) + rest), |AllBytes(items)|;
    HoldsWhole(b);
    HoldsBoth(b, 0, AllBytes(items), Varint(tag) + rest);
    HoldsBoth(b, pos, Varint(tag), rest);
    ItemsThen(b, 0, items, Cleared(r));
    SmallRoundTrip(b, pos, tag);
    HeldInside(b, pos, Varint(tag));
  }

  // So does a level that does not exist, in a pointer, a deleted file or a new one.
  lemma LevelIsChecked(items: seq<Item>, tag: nat, level: nat, rest: Bytes, r: Record)
    requires AllFit(items) && 5 <= tag <= 7 && 7 <= level < LIMIT32
    ensures Decoded(r, AllBytes(items) + (Varint(tag) + (Varint(level) + rest))) == None
  {
    hide Holds, AllBytes, FitsItem, Varint, StoreAll, GetVarint32, GetMeta, GetSlice, DecodeVarint;
    var b, pos := AllBytes(items) + (Varint(tag) + (Varint(level) + rest)), |AllBytes(items)|;
    HoldsWhole(b);
    HoldsBoth(b, 0, AllBytes(items), Varint(tag) + (Varint(level) + rest));
    HoldsBoth(b, pos, Varint(tag), Varint(level) + rest);
    HoldsBoth(b, pos + |Varint(tag)|, Varint(level), rest);
    ItemsThen(b, 0, items, Cleared(r));
    SmallRoundTrip(b, pos, tag);
    SmallRoundTrip(b, pos + |Varint(tag)|, level);
    HeldInside(b, pos, Varint(tag));
  }
}
