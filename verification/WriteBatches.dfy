/** Write batches: the bytes of some updates as they go to the log, and how they are read back. */
module WriteBatches {
  import opened Sequences
  import opened ProtoVarints
  import opened ProtoScalars
  import opened ManifestRecords

  datatype Update = Put(key: Bytes, value: Bytes) | Delete(key: Bytes)

  const HEADER_SIZE: nat := 12
  const DELETION: Byte := 0
  const VALUE: Byte := 1

  function UpdateBytes(u: Update): (r: Bytes)
    ensures |r| > 0
  {
    match u
    case Put(key, value) => [VALUE] + (Slice(key) + Slice(value))
    case Delete(key) => [DELETION] + Slice(key)
  }

  function UpdatesBytes(us: seq<Update>): Bytes {
    if us == [] then [] else UpdateBytes(us[0]) + UpdatesBytes(us[1..])
  }

  // Sequence number, count, and the updates.
  function Rep(sequence: nat, us: seq<Update>): (r: Bytes)
    ensures |r| >= HEADER_SIZE
  {
    LittleEndian(sequence, 8) + LittleEndian(|us|, 4) + UpdatesBytes(us)
  }

  predicate FitsUpdate(u: Update) {
    FitsSlice(u.key) && (u.Put? ==> FitsSlice(u.value))
  }

  ghost predicate FitsBatch(sequence: nat, us: seq<Update>) {
    sequence < LIMIT64 && |us| < LIMIT32 && forall i | 0 <= i < |us| :: FitsUpdate(us[i])
  }

  // ----- reading -----

  function Sequence(b: Bytes): nat
    requires |b| >= HEADER_SIZE
  {
    FromLittleEndian(b[..8])
  }

  function Count(b: Bytes): nat
    requires |b| >= HEADER_SIZE
  {
    FromLittleEndian(b[8..12])
  }

  function GetUpdate(b: Bytes, pos: nat): (p: Parsed<Update>)
    requires pos < |b|
    ensures p.Read? ==> pos < p.next <= |b|
  {
    if b[pos] == VALUE then
      var key := GetSlice(b, pos + 1);
      if key.Failed? then Failed else
        var value := GetSlice(b, key.next);
        if value.Read? then Read(Put(key.value, value.value), value.next) else Failed
    else if b[pos] == DELETION then
      var key := GetSlice(b, pos + 1);
      if key.Read? then Read(Delete(key.value), key.next) else Failed
    else
      Failed  // unknown WriteBatch tag
  }

  // The updates up to the end, or up to the first that cannot be read.
  datatype Found = Found(updates: seq<Update>, ok: bool)

  function UpdatesFrom(b: Bytes, pos: nat): Found
    decreases |b| - pos
  {
    if pos >= |b| then Found([], true) else
      var u := GetUpdate(b, pos);
      if u.Failed? then Found([], false) else
        var rest := UpdatesFrom(b, u.next);
        Found([u.value] + rest.updates, rest.ok)
  }

  // WriteBatch::Iterate: what the handler gets, and whether it is all there.
  function Iterated(b: Bytes): Found
    requires |b| >= HEADER_SIZE
  {
    var f := UpdatesFrom(b, HEADER_SIZE);
    Found(f.updates, f.ok && |f.updates| == Count(b))
  }

  // ----- round trip -----

  lemma UpdateRoundTrip(b: Bytes, pos: nat, u: Update)
    requires Holds(b, pos, UpdateBytes(u)) && FitsUpdate(u)
    ensures pos < |b| && GetUpdate(b, pos) == Read(u, pos + |UpdateBytes(u)|)
  {
    hide Slice, GetSlice;
    match u
    case Put(key, value) =>
      HoldsBoth(b, pos, [VALUE], Slice(key) + Slice(value));
      HoldsBoth(b, pos + 1, Slice(key), Slice(value));
      SliceRoundTrip(b, pos + 1, key);
      SliceRoundTrip(b, pos + 1 + |Slice(key)|, value);
      assert b[pos + 0] == [VALUE][0];
    case Delete(key) =>
      HoldsBoth(b, pos, [DELETION], Slice(key));
      SliceRoundTrip(b, pos + 1, key);
      assert b[pos + 0] == [DELETION][0];
  }

  lemma {:induction false} UpdatesRoundTrip(b: Bytes, pos: nat, us: seq<Update>)
    requires Holds(b, pos, UpdatesBytes(us)) && pos + |UpdatesBytes(us)| == |b|
    requires forall i | 0 <= i < |us| :: FitsUpdate(us[i])
    ensures UpdatesFrom(b, pos) == Found(us, true)
    decreases us
  {
    hide UpdateBytes, GetUpdate, Holds, FitsUpdate;
    if us != [] {
      HoldsBoth(b, pos, UpdateBytes(us[0]), UpdatesBytes(us[1..]));
      UpdateRoundTrip(b, pos, us[0]);
      UpdatesRoundTrip(b, pos + |UpdateBytes(us[0])|, us[1..]);
      assert [us[0]] + us[1..] == us;
    }
  }

  lemma HeaderRoundTrip(sequence: nat, us: seq<Update>)
    requires FitsBatch(sequence, us)
    ensures Sequence(Rep(sequence, us)) == sequence && Count(Rep(sequence, us)) == |us|
  {
    hide LittleEndian, FromLittleEndian, UpdatesBytes;
    Ranges();
    LittleEndianRoundTrip(sequence, 8);
    LittleEndianRoundTrip(|us|, 4);
    var b := Rep(sequence, us);
    assert b[..8] == LittleEndian(sequence, 8);
    assert b[8..12] == LittleEndian(|us|, 4);
  }

  // A batch is read back as it was written.
  lemma BatchRoundTrip(sequence: nat, us: seq<Update>)
    requires FitsBatch(sequence, us)
    ensures var b := Rep(sequence, us);
      Sequence(b) == sequence && Count(b) == |us| && Iterated(b) == Found(us, true)
  {
    hide LittleEndian, UpdatesBytes, Sequence, Count, UpdatesFrom, FitsUpdate;
    HeaderRoundTrip(sequence, us);
    var b, header := Rep(sequence, us), LittleEndian(sequence, 8) + LittleEndian(|us|, 4);
    HoldsBoth(b, 0, header, UpdatesBytes(us));
    WholeHolds(b);
    UpdatesRoundTrip(b, HEADER_SIZE, us);
  }

  lemma WholeHolds(b: Bytes)
    ensures Holds(b, 0, b)
  {
  }

  // ----- the object -----

  lemma {:induction false} UpdatesAppend(us: seq<Update>, more: seq<Update>)
    ensures UpdatesBytes(us + more) == UpdatesBytes(us) + UpdatesBytes(more)
    decreases us
  {
    hide UpdateBytes;
    if us == [] {
      assert us + more == more;
    } else {
      UpdatesAppend(us[1..], more);
      assert (us + more)[1..] == us[1..] + more;
    }
  }

  class WriteBatch {
    var rep: Bytes
    ghost var sequence: nat
    ghost var updates: seq<Update>

    ghost predicate Valid()
      reads this
    {
      rep == Rep(sequence, updates) && sequence < LIMIT64 && |updates| < LIMIT32
    }

    constructor ()
      ensures Valid() && sequence == 0 && updates == []
    {
      rep, sequence, updates := Zeros(HEADER_SIZE), 0, [];
      new;
      EmptyRep();
    }

    method Clear()
      modifies this
      ensures Valid() && sequence == 0 && updates == []
    {
      rep, sequence, updates := Zeros(HEADER_SIZE), 0, [];
      EmptyRep();
    }

    method SetSequence(n: nat)
      requires Valid() && n < LIMIT64
      modifies this`rep, this`sequence
      ensures Valid() && sequence == n
    {
      hide LittleEndian, UpdatesBytes;
      rep := LittleEndian(n, 8) + rep[8..];
      sequence := n;
    }

    method Put(key: Bytes, value: Bytes)
      requires Valid() && |updates| + 1 < LIMIT32
      modifies this`rep, this`updates
      ensures Valid() && updates == old(updates) + [Update.Put(key, value)]
    {
      hide Rep, LittleEndian, Slice, UpdatesBytes, Count;
      CountOfRep(sequence, updates);
      RepGrows(sequence, updates, [Update.Put(key, value)]);
      OneUpdate(Update.Put(key, value));
      rep := rep[..8] + LittleEndian(Count(rep) + 1, 4) + rep[12..];
      rep := rep + ([VALUE] + (Slice(key) + Slice(value)));
      updates := updates + [Update.Put(key, value)];
    }

    method Delete(key: Bytes)
      requires Valid() && |updates| + 1 < LIMIT32
      modifies this`rep, this`updates
      ensures Valid() && updates == old(updates) + [Update.Delete(key)]
    {
      hide Rep, LittleEndian, Slice, UpdatesBytes, Count;
      CountOfRep(sequence, updates);
      RepGrows(sequence, updates, [Update.Delete(key)]);
      OneUpdate(Update.Delete(key));
      rep := rep[..8] + LittleEndian(Count(rep) + 1, 4) + rep[12..];
      rep := rep + ([DELETION] + Slice(key));
      updates := updates + [Update.Delete(key)];
    }

    // The updates of another batch go behind those of this one.
    method Append(source: WriteBatch)
      requires Valid() && source.Valid() && |updates| + |source.updates| < LIMIT32
      modifies this`rep, this`updates
      ensures Valid() && updates == old(updates) + old(source.updates)
    {
      hide Rep, LittleEndian, UpdatesBytes, Count;
      CountOfRep(sequence, updates);
      CountOfRep(source.sequence, source.updates);
      RepGrows(sequence, updates, source.updates);
      BodyOfRep(source.sequence, source.updates);
      var body, n := source.rep[12..], Count(rep) + Count(source.rep);
      ghost var more := source.updates;
      rep := rep[..8] + LittleEndian(n, 4) + rep[12..];
      rep := rep + body;
      updates := updates + more;
    }

    // The bytes as they come from a log, whatever they are.
    method SetContents(bytes: Bytes)
      requires |bytes| >= HEADER_SIZE
      modifies this`rep
      ensures rep == bytes
    {
      rep := bytes;
    }

    // Hands over the updates one by one, up to the first that cannot be read.
    method Iterate() returns (found: seq<Update>, ok: bool)
      requires |rep| >= HEADER_SIZE
      ensures Found(found, ok) == Iterated(rep)
    {
      hide GetUpdate, Count;
      var pos: nat := HEADER_SIZE;
      found := [];
      while pos < |rep|
        invariant UpdatesFrom(rep, HEADER_SIZE)
               == var rest := UpdatesFrom(rep, pos); Found(found + rest.updates, rest.ok)
        decreases |rep| - pos
      {
        var u := GetUpdate(rep, pos);
        if u.Failed? {
          assert found + [] == found;
          return found, false;
        }
        NextUpdate(rep, pos, found);
        found := found + [u.value];
        pos := u.next;
      }
      ok := |found| == Count(rep);
    }
  }

  lemma EmptyRep()
    ensures Zeros(HEADER_SIZE) == Rep(0, [])
  {
    ZeroBytes(8);
    ZeroBytes(4);
  }

  lemma {:induction false} ZeroBytes(n: nat)
    ensures LittleEndian(0, n) == Zeros(n)
  {
    if n > 0 {
      ZeroBytes(n - 1);
    }
  }

  lemma NextUpdate(b: Bytes, pos: nat, found: seq<Update>)
    requires pos < |b| && GetUpdate(b, pos).Read?
    ensures var u, all := GetUpdate(b, pos), UpdatesFrom(b, pos);
      var rest := UpdatesFrom(b, u.next);
      found + all.updates == found + [u.value] + rest.updates && all.ok == rest.ok
  {
    hide GetUpdate;
  }

  lemma OneUpdate(u: Update)
    ensures UpdatesBytes([u]) == UpdateBytes(u)
  {
    assert [u][1..] == [];
    assert UpdatesBytes([u]) == UpdateBytes(u) + UpdatesBytes([]);
  }

  lemma CountOfRep(sequence: nat, us: seq<Update>)
    requires |us| < LIMIT32
    ensures Count(Rep(sequence, us)) == |us|
  {
    hide LittleEndian, FromLittleEndian, UpdatesBytes;
    Ranges();
    LittleEndianRoundTrip(|us|, 4);
    assert Rep(sequence, us)[8..12] == LittleEndian(|us|, 4);
  }

  lemma BodyOfRep(sequence: nat, us: seq<Update>)
    ensures Rep(sequence, us)[12..] == UpdatesBytes(us)
  {
    hide LittleEndian, UpdatesBytes;
  }

  lemma RepGrows(sequence: nat, us: seq<Update>, more: seq<Update>)
    ensures var b := Rep(sequence, us);
      Rep(sequence, us + more) == b[..8] + LittleEndian(|us| + |more|, 4) + b[12..] + UpdatesBytes(more)
  {
    hide LittleEndian, UpdatesBytes;
    UpdatesAppend(us, more);
    BodyOfRep(sequence, us);
    assert Rep(sequence, us)[..8] == LittleEndian(sequence, 8);
  }

  // ----- the bytes themselves, and what is refused -----

  // Sequence number 258, two updates: a put of "A" and "B", and a deletion of "C".
  lemma BatchBytes()
    ensures Rep(258, [Put([65], [66]), Delete([67])])
         == [2, 1, 0, 0, 0, 0, 0, 0, 2, 0, 0, 0, 1, 1, 65, 1, 66, 0, 1, 67]
  {
    hide LittleEndian, UpdatesBytes;
    SampleNumbers();
    SampleUpdates();
  }

  lemma SampleUpdates()
    ensures UpdatesBytes([Put([65], [66]), Delete([67])]) == [1, 1, 65, 1, 66, 0, 1, 67]
  {
    var us := [Put([65], [66]), Delete([67])];
    assert Varint(1) == [1];
    assert us[1..] == [Delete([67])] && us[1..][1..] == [];
    assert UpdateBytes(us[0]) == [1, 1, 65, 1, 66] && UpdateBytes(us[1]) == [0, 1, 67];
    assert UpdatesBytes(us[1..]) == [0, 1, 67] + [] == [0, 1, 67];
  }

  lemma SampleNumbers()
    ensures LittleEndian(258, 8) == [2, 1, 0, 0, 0, 0, 0, 0] && LittleEndian(2, 4) == [2, 0, 0, 0]
  {
    LowBytes(258, 2, 1, 6);
    LowBytes(2, 2, 0, 2);
  }

  lemma LowBytes(v: nat, low: nat, high: nat, n: nat)
    requires v == low + 256 * high && low < 256 && high < 256
    ensures LittleEndian(v, n + 2) == [low, high] + Zeros(n)
  {
    assert LittleEndian(v, n + 2) == [low] + LittleEndian(high, n + 1);
    assert LittleEndian(high, n + 1) == [high] + LittleEndian(0, n);
    ZeroBytes(n);
  }

  // A batch with any other count hands over its updates all the same, and is then found to be wrong.
  lemma WrongCountIsFound(sequence: nat, count: nat, us: seq<Update>)
    requires FitsBatch(sequence, us) && count < LIMIT32 && count != |us|
    ensures Iterated(LittleEndian(sequence, 8) + LittleEndian(count, 4) + UpdatesBytes(us)) == Found(us, false)
  {
    hide LittleEndian, UpdatesBytes, UpdatesFrom, FitsUpdate, FromLittleEndian;
    var header := LittleEndian(sequence, 8) + LittleEndian(count, 4);
    var b := header + UpdatesBytes(us);
    Ranges();
    LittleEndianRoundTrip(count, 4);
    assert b[8..12] == LittleEndian(count, 4);
    HoldsBoth(b, 0, header, UpdatesBytes(us));
    WholeHolds(b);
    UpdatesRoundTrip(b, HEADER_SIZE, us);
  }

  // A tag other than those of a put and of a deletion ends the reading with an error.
  lemma {:induction false} UnknownTagStops(b: Bytes, pos: nat, us: seq<Update>)
    requires Holds(b, pos, UpdatesBytes(us)) && pos + |UpdatesBytes(us)| < |b| && b[pos + |UpdatesBytes(us)|] > 1
    requires forall i | 0 <= i < |us| :: FitsUpdate(us[i])
    ensures UpdatesFrom(b, pos) == Found(us, false)
    decreases us
  {
    hide UpdateBytes, Holds, FitsUpdate, GetSlice;
    if us == [] {
      assert GetUpdate(b, pos) == Failed;
    } else {
      HoldsBoth(b, pos, UpdateBytes(us[0]), UpdatesBytes(us[1..]));
      UpdateRoundTrip(b, pos, us[0]);
      UnknownTagStops(b, pos + |UpdateBytes(us[0])|, us[1..]);
      assert [us[0]] + us[1..] == us;
    }
  }
}
