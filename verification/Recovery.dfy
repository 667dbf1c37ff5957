/** Opening a database again: the logs that the manifest does not yet account for are replayed into memtables,
    and these go to tables of level 0. */
module Recovery {
  import opened Naturals
  import opened Sequences
  import opened InternalKeys
  import opened LogFormat
  import opened LogReader
  import opened LogRecovery
  import opened Engine
  import opened EngineLogs
  import ProtoVarints
  import WriteBatches

  type Update = WriteBatches.Update

  // How keys and values look as bytes.
  datatype Coding = Coding(key: Key -> Bytes, unkey: Bytes -> Key, value: Value -> Bytes, unvalue: Bytes -> Value)

  // ----- what is in the records -----

  // MemTableInserter: an update with its sequence number.
  function EntryOf(k: Coding, u: Update, seqno: nat): Entry {
    match u
    case Put(key, value) => Entry(k.unkey(key), seqno, Put(k.unvalue(value)))
    case Delete(key) => Entry(k.unkey(key), seqno, Deletion)
  }

  function Numbered(k: Coding, first: nat, us: seq<Update>): (r: seq<Entry>)
    ensures |r| == |us|
  {
    seq(|us|, i requires 0 <= i < |us| => EntryOf(k, us[i], first + i))
  }

  // What one record adds to the memtable; a record that is too small adds nothing.
  function RecordEntries(k: Coding, b: Bytes): seq<Entry> {
    if |b| < WriteBatches.HEADER_SIZE then []
    else Numbered(k, WriteBatches.Sequence(b), WriteBatches.Iterated(b).updates)
  }

  function AllEntries(k: Coding, records: seq<Bytes>): seq<Entry> {
    if records == [] then [] else RecordEntries(k, records[0]) + AllEntries(k, records[1..])
  }

  predicate IsBatch(b: Bytes) {
    |b| >= WriteBatches.HEADER_SIZE && WriteBatches.Iterated(b).ok
  }

  // A file without damage, all of whose records are batches.
  ghost predicate Undamaged(c: Checksum, file: Bytes) {
    var all := AllRecords(c, file, 0);
    all.1 == [] && forall i | 0 <= i < |all.0| :: IsBatch(all.0[i])
  }

  // The last sequence number of a batch, in 64 bits; the count is a signed number of 32.
  function LastOf(b: Bytes): nat
    requires |b| >= WriteBatches.HEADER_SIZE
  {
    var count := WriteBatches.Count(b);
    var signed := if count < ProtoVarints.LIMIT32 / 2 then count else count - ProtoVarints.LIMIT32;
    (WriteBatches.Sequence(b) + signed - 1) % ProtoVarints.LIMIT64
  }

  function MaxLast(records: seq<Bytes>, most: nat): nat
    decreases records
  {
    if records == [] then most
    else MaxLast(records[1..], if |records[0]| < WriteBatches.HEADER_SIZE then most else Max(most, LastOf(records[0])))
  }

  // ----- the memtables of a log -----

  function Concat(groups: seq<seq<Entry>>): seq<Entry> {
    if groups == [] then [] else Concat(groups[..|groups| - 1]) + groups[|groups| - 1]
  }

  // The tables hold the entries of some groups, one after the other.
  ghost predicate AreTablesOf(tables: seq<seq<Entry>>, groups: seq<seq<Entry>>) {
    |tables| == |groups| && forall i | 0 <= i < |tables| :: tables[i] == InsertAll([], groups[i]) && tables[i] != []
  }

  lemma AllEntriesSnoc(k: Coding, records: seq<Bytes>, b: Bytes)
    ensures AllEntries(k, records + [b]) == AllEntries(k, records) + RecordEntries(k, b)
    decreases records
  {
    hide RecordEntries;
    if records == [] {
      assert [] + [b] == [b] && [b][1..] == [];
    } else {
      AllEntriesSnoc(k, records[1..], b);
      assert (records + [b])[1..] == records[1..] + [b];
    }
  }

  lemma MaxLastFirst(b: Bytes, rest: seq<Bytes>, most: nat)
    ensures MaxLast([b] + rest, most) == MaxLast(rest, if |b| < WriteBatches.HEADER_SIZE then most else Max(most, LastOf(b)))
  {
    hide LastOf;
    assert ([b] + rest)[1..] == rest;
  }

  // ----- which records go into one memtable -----

  datatype Limits = Limits(k: Coding, bufferSize: nat, usage: seq<Entry> -> nat) {
    // The memtable that some records make.
    function Filled(records: seq<Bytes>): seq<Entry> {
      InsertAll([], AllEntries(k, records))
    }

    // Behind none of the records is the memtable over its size; records that are too small do not count.
    ghost predicate StaysSmall(records: seq<Bytes>) {
      forall m | 0 < m <= |records| && |records[m - 1]| >= 12 :: usage(Filled(records[..m])) <= bufferSize
    }

    // The last record is the first that takes the memtable over its size.
    ghost predicate IsFull(records: seq<Bytes>) {
      && records != [] && |records[|records| - 1]| >= 12 && usage(Filled(records)) > bufferSize
      && StaysSmall(records[..|records| - 1])
    }

    // The memtables that are not empty.
    function Tables(parts: seq<seq<Bytes>>): seq<seq<Entry>> {
      if parts == [] then [] else
        var n := |parts| - 1;
        Tables(parts[..n]) + if Filled(parts[n]) == [] then [] else [Filled(parts[n])]
    }

    // The records come in parts that just fill a memtable, and some that are left over.
    ghost predicate Parts(records: seq<Bytes>, parts: seq<seq<Bytes>>, left: seq<Bytes>) {
      JoinedRecords(parts) + left == records && StaysSmall(left) && forall i | 0 <= i < |parts| :: IsFull(parts[i])
    }
  }

  function JoinedRecords(parts: seq<seq<Bytes>>): seq<Bytes> {
    if parts == [] then [] else JoinedRecords(parts[..|parts| - 1]) + parts[|parts| - 1]
  }

  lemma NoParts(l: Limits)
    ensures l.Parts([], [], []) && l.Tables([]) == [] && l.Filled([]) == []
  {
  }

  // One more record, too small or within the size.
  lemma PartGrows(l: Limits, seen: seq<Bytes>, parts: seq<seq<Bytes>>, left: seq<Bytes>, b: Bytes)
    requires l.Parts(seen, parts, left) && (|b| >= 12 ==> l.usage(l.Filled(left + [b])) <= l.bufferSize)
    ensures l.Parts(seen + [b], parts, left + [b])
  {
    hide JoinedRecords, Limits.Filled, Limits.IsFull;
    var more := left + [b];
    assert JoinedRecords(parts) + left + [b] == JoinedRecords(parts) + more;
    forall m | 0 < m <= |more| && |more[m - 1]| >= 12 ensures l.usage(l.Filled(more[..m])) <= l.bufferSize {
      if m == |more| {
        assert more[..m] == more;
      } else {
        assert more[..m] == left[..m] && more[m - 1] == left[m - 1];
      }
    }
  }

  // One that fills the memtable.
  lemma PartEnds(l: Limits, seen: seq<Bytes>, parts: seq<seq<Bytes>>, left: seq<Bytes>, b: Bytes)
    requires l.Parts(seen, parts, left) && |b| >= 12 && l.usage(l.Filled(left + [b])) > l.bufferSize
    ensures l.Parts(seen + [b], parts + [left + [b]], [])
    ensures l.Tables(parts + [left + [b]])
         == l.Tables(parts) + if l.Filled(left + [b]) == [] then [] else [l.Filled(left + [b])]
  {
    hide Limits.Filled;
    var more, all := left + [b], parts + [left + [b]];
    assert all[..|parts|] == parts && more[..|left|] == left;
    assert JoinedRecords(parts) + left + [b] == JoinedRecords(parts) + more + [];
  }

  lemma FilledMore(l: Limits, left: seq<Bytes>, b: Bytes, rest: seq<Entry>)
    requires rest == AllEntries(l.k, left)
    ensures l.Filled(left + [b]) == InsertAll([], rest + RecordEntries(l.k, b))
    ensures AllEntries(l.k, left + [b]) == rest + RecordEntries(l.k, b)
  {
    hide RecordEntries, InsertAll;
    AllEntriesSnoc(l.k, left, b);
  }

  // WriteBatchInternal::InsertInto
  method InsertInto(k: Coding, sequence: nat, updates: seq<Update>, mem: seq<Entry>) returns (more: seq<Entry>)
    ensures more == InsertAll(mem, Numbered(k, sequence, updates))
  {
    hide InsertAll, EntryOf, Insert;
    ghost var es := Numbered(k, sequence, updates);
    more := mem;
    NoneInserted(mem);
    for i := 0 to |updates|
      invariant more == InsertAll(mem, es[..i])
    {
      OneMoreHere(mem, es, i);
      more := Insert(more, EntryOf(k, updates[i], sequence + i));
    }
    assert es[..|updates|] == es;
  }

  // A record of a log: its updates go into the memtable as far as they can be read.
  method ReplayRecord(k: Coding, record: Bytes, paranoid: bool, mem: seq<Entry>, maxSequence: nat)
    returns (ok: bool, more: seq<Entry>, newMax: nat)
    ensures ok <==> !paranoid || IsBatch(record)
    ensures ok ==>
      && more == InsertAll(mem, RecordEntries(k, record))
      && newMax == if |record| < WriteBatches.HEADER_SIZE then maxSequence else Max(maxSequence, LastOf(record))
  {
    hide InsertAll, EntryOf, LastOf;
    if |record| < WriteBatches.HEADER_SIZE {
      NoneInserted(mem);
      return !paranoid, mem, maxSequence;  // log record too small
    }
    var batch := new WriteBatches.WriteBatch();
    batch.SetContents(record);
    var updates, good := batch.Iterate();
    more := InsertInto(k, WriteBatches.Sequence(record), updates, mem);
    ok := good || !paranoid;
    newMax := Max(maxSequence, LastOf(record));
  }

  lemma NoneInserted(mem: seq<Entry>)
    ensures InsertAll(mem, []) == mem && forall es: seq<Entry> :: InsertAll(mem, es[..0]) == mem
  {
  }

  lemma OneMoreHere(mem: seq<Entry>, es: seq<Entry>, i: nat)
    requires i < |es|
    ensures InsertAll(mem, es[..i + 1]) == Insert(InsertAll(mem, es[..i]), es[i])
  {
    hide Insert;
    assert es[..i + 1][..i] == es[..i];
  }

  // The tables and the memtable that some records are replayed into: a table for every part that fills a memtable,
  // and for those that are left, unless their memtable is kept.
  ghost predicate IsReplay(l: Limits, records: seq<Bytes>, parts: seq<seq<Bytes>>, left: seq<Bytes>, reuse: bool,
                           tables: seq<seq<Entry>>, mem: seq<Entry>) {
    && l.Parts(records, parts, left)
    && if reuse && parts == [] then tables == [] && mem == l.Filled(left)
       else mem == [] && tables == l.Tables(parts) + if l.Filled(left) == [] then [] else [l.Filled(left)]
  }

  // One log into memtables.  A memtable that is full goes to a table, and the last one too, unless it is
  // kept together with its log.  `groups` and `rest` are the entries, as they come, of the tables and of
  // the memtable that is kept.
  method RecoverLogFile(k: Coding, c: Checksum, file: Bytes, paranoid: bool, bufferSize: nat, usage: seq<Entry> -> nat,
                        reuse: bool, maxSequence: nat)
    returns (ok: bool, tables: seq<seq<Entry>>, mem: seq<Entry>, newMax: nat, ghost groups: seq<seq<Entry>>, ghost rest: seq<Entry>,
             ghost parts: seq<seq<Bytes>>, ghost left: seq<Bytes>)
    ensures ok <==> !paranoid || Undamaged(c, file)
    ensures ok ==>
      && Concat(groups) + rest == AllEntries(k, AllRecords(c, file, 0).0)
      && AreTablesOf(tables, groups) && mem == InsertAll([], rest)
      && (!reuse || tables != [] ==> rest == [])
      && IsReplay(Limits(k, bufferSize, usage), AllRecords(c, file, 0).0, parts, left, reuse, tables, mem)
      && newMax == MaxLast(AllRecords(c, file, 0).0, maxSequence)
  {
    hide AllRecords, Assemble, Reader.Valid, Reader.At, InsertAll, RecordEntries, LastOf, Concat, AreTablesOf, IsBatch,
      AllEntries, MaxLast, Limits.Parts, Limits.Tables;
    var reader := new Reader(c, file);
    tables, mem, newMax, groups, rest := [], [], maxSequence, [], [];
    parts, left := [], [];
    ghost var l := Limits(k, bufferSize, usage);
    NoParts(l);
    var compactions := 0;
    ghost var all, seen := AllRecords(c, file, 0), [];
    NothingReplayed(k);
    while true
      invariant fresh(reader) && reader.Valid() && reader.InFile() && reader.checksum == c && reader.file == file
      invariant all.0 == seen + AllRecords(c, file, reader.At()).0
      invariant all.1 == reader.drops + AllRecords(c, file, reader.At()).1
      invariant paranoid ==> reader.drops == [] && forall i | 0 <= i < |seen| :: IsBatch(seen[i])
      invariant Concat(groups) + rest == AllEntries(k, seen)
      invariant l.Parts(seen, parts, left) && tables == l.Tables(parts) && rest == AllEntries(k, left) && compactions == |parts|
      invariant AreTablesOf(tables, groups) && mem == InsertAll([], rest) && (compactions == 0 ==> tables == [])
      invariant MaxLast(all.0, maxSequence) == MaxLast(AllRecords(c, file, reader.At()).0, newMax)
      decreases |file| - reader.At()
    {
      RecordsFrom(c, file, reader.At(), seen, reader.drops);
      NextRecord(c, file, reader.At());
      var found := reader.ReadRecord();
      if paranoid && reader.drops != [] {
        return false, [], [], 0, [], [], [], [];
      }
      if found.NoMore? {
        break;
      }
      var good, more, most := ReplayRecord(k, found.data, paranoid, mem, newMax);
      if !good {
        assert all.0[|seen|] == found.data;
        return false, [], [], 0, [], [], [], [];
      }
      MaxLastFirst(found.data, AllRecords(c, file, reader.At()).0, newMax);
      AllEntriesSnoc(k, seen, found.data);
      InsertedBoth([], rest, RecordEntries(k, found.data));
      FilledMore(l, left, found.data, rest);
      seen, rest, mem, newMax := seen + [found.data], rest + RecordEntries(k, found.data), more, most;
      if |found.data| >= WriteBatches.HEADER_SIZE && usage(mem) > bufferSize {
        PartEnds(l, seen[..|seen| - 1], parts, left, found.data);
        parts, left := parts + [left + [found.data]], [];
        compactions := compactions + 1;
        tables, groups, rest := WriteLevel0Table(tables, mem, groups, rest);
        mem := [];
      } else {
        PartGrows(l, seen[..|seen| - 1], parts, left, found.data);
        left := left + [found.data];
      }
    }
    assert seen == all.0;
    EndOfReplay(newMax);
    if !reuse || compactions > 0 {
      tables, groups, rest := WriteLevel0Table(tables, mem, groups, rest);
      mem := [];
    }
    ok := true;
  }

  // A memtable with entries becomes a table.
  method WriteLevel0Table(tables: seq<seq<Entry>>, mem: seq<Entry>, ghost groups: seq<seq<Entry>>, ghost rest: seq<Entry>)
    returns (more: seq<seq<Entry>>, ghost moreGroups: seq<seq<Entry>>, ghost noRest: seq<Entry>)
    requires AreTablesOf(tables, groups) && mem == InsertAll([], rest)
    ensures AreTablesOf(more, moreGroups) && noRest == [] && [] == InsertAll([], noRest)
    ensures Concat(moreGroups) + noRest == Concat(groups) + rest
    ensures more == tables + if mem == [] then [] else [mem]
  {
    hide InsertAll, Concat;
    NoneInserted([]);
    noRest := [];
    if mem == [] {
      EmptyHasNoEntries(rest);
      more, moreGroups := tables, groups;
    } else {
      ConcatSnoc(groups, rest);
      more, moreGroups := tables + [mem], groups + [rest];
    }
    assert Concat(moreGroups) + [] == Concat(moreGroups);
  }

  lemma EmptyHasNoEntries(es: seq<Entry>)
    requires InsertAll([], es) == []
    ensures es == []
  {
    hide Insert;
    if es != [] {
      InsertIsNotEmpty(InsertAll([], es[..|es| - 1]), es[|es| - 1]);
    }
  }

  lemma InsertIsNotEmpty(es: seq<Entry>, e: Entry)
    ensures Insert(es, e) != []
  {
  }

  lemma ConcatSnoc(groups: seq<seq<Entry>>, es: seq<Entry>)
    ensures Concat(groups + [es]) == Concat(groups) + es
  {
    assert (groups + [es])[..|groups|] == groups;
  }

  lemma NothingReplayed(k: Coding)
    ensures AllEntries(k, []) == [] && Concat([]) == [] && AreTablesOf([], []) && InsertAll([], []) == []
  {
  }

  lemma EndOfReplay(most: nat)
    ensures MaxLast([], most) == most
  {
  }

  // ----- all logs -----

  datatype LogFile = LogFile(number: nat, bytes: Bytes)

  // The manifest does not account for what is in this log.
  predicate IsLive(f: LogFile, logNumber: nat, prevLogNumber: nat) {
    f.number >= logNumber || f.number == prevLogNumber
  }

  function LiveLogs(logs: seq<LogFile>, logNumber: nat, prevLogNumber: nat): seq<LogFile> {
    if logs == [] then [] else
      var n := |logs| - 1;
      LiveLogs(logs[..n], logNumber, prevLogNumber) + if IsLive(logs[n], logNumber, prevLogNumber) then [logs[n]] else []
  }

  // In their order, just those numbered from the log number on, and the one before the current one if it is named.
  lemma {:induction false} LiveMeans(logs: seq<LogFile>, logNumber: nat, prevLogNumber: nat, f: LogFile)
    ensures f in LiveLogs(logs, logNumber, prevLogNumber) <==> f in logs && (f.number >= logNumber || f.number == prevLogNumber)
  {
    if logs != [] {
      var n := |logs| - 1;
      LiveMeans(logs[..n], logNumber, prevLogNumber, f);
      assert logs == logs[..n] + [logs[n]];
    }
  }

  function LogEntries(k: Coding, c: Checksum, logs: seq<LogFile>): seq<Entry> {
    if logs == [] then [] else
      var n := |logs| - 1;
      LogEntries(k, c, logs[..n]) + AllEntries(k, AllRecords(c, logs[n].bytes, 0).0)
  }

  function LastInLogs(c: Checksum, logs: seq<LogFile>): nat {
    if logs == [] then 0 else
      var n := |logs| - 1;
      MaxLast(AllRecords(c, logs[n].bytes, 0).0, LastInLogs(c, logs[..n]))
  }

  // The tables of level 0 that recovery adds: each has a number of its own, in the order of their entries.
  ghost predicate AreAdded(added: seq<(nat, seq<Entry>)>, groups: seq<seq<Entry>>, next: nat, next': nat) {
    && next <= next' && |added| == |groups|
    && (forall i | 0 <= i < |added| :: added[i].1 == InsertAll([], groups[i]) && added[i].1 != [] && next <= added[i].0 < next')
    && forall i, j | 0 <= i < j < |added| :: added[i].0 < added[j].0
  }

  // Numbers for the tables of one log, and past the number of the log itself.
  method AddTables(added: seq<(nat, seq<Entry>)>, ghost groups: seq<seq<Entry>>, ghost first: nat,
                   tables: seq<seq<Entry>>, ghost more: seq<seq<Entry>>, next: nat, log: nat)
    returns (added': seq<(nat, seq<Entry>)>, next': nat)
    requires AreAdded(added, groups, first, next) && AreTablesOf(tables, more)
    ensures AreAdded(added', groups + more, first, next') && next' == Max(next + |tables|, log + 1)
    ensures |added'| == |added| + |tables| && added <= added'
    ensures forall i | 0 <= i < |tables| :: added'[|added| + i] == (next + i, tables[i])
  {
    hide InsertAll;
    added', next' := added, next;
    for i := 0 to |tables|
      invariant AreAdded(added', groups + more[..i], first, next') && next' == next + i
      invariant |added'| == |added| + i && added <= added'
      invariant forall j | 0 <= j < i :: added'[|added| + j] == (next + j, tables[j])
    {
      MoreGroups(groups, more, i);
      added' := added' + [(next', tables[i])];
      next' := next' + 1;
    }
    assert more[..|tables|] == more;
    if next' <= log {
      next' := log + 1;  // MarkFileNumberUsed
    }
  }

  lemma MoreGroups(groups: seq<seq<Entry>>, more: seq<seq<Entry>>, i: nat)
    requires i < |more|
    ensures groups + more[..i + 1] == groups + more[..i] + [more[i]]
  {
  }

  lemma {:induction false} ConcatBoth(a: seq<seq<Entry>>, b: seq<seq<Entry>>)
    ensures Concat(a + b) == Concat(a) + Concat(b)
    decreases b
  {
    if b == [] {
      assert a + b == a;
    } else {
      var n := |b| - 1;
      ConcatBoth(a, b[..n]);
      assert (a + b)[..|a + b| - 1] == a + b[..n] && (a + b)[|a + b| - 1] == b[n];
    }
  }

  lemma LogSnoc(k: Coding, c: Checksum, logs: seq<LogFile>, i: nat)
    requires i < |logs|
    ensures LogEntries(k, c, logs[..i + 1]) == LogEntries(k, c, logs[..i]) + AllEntries(k, AllRecords(c, logs[i].bytes, 0).0)
    ensures LastInLogs(c, logs[..i + 1]) == MaxLast(AllRecords(c, logs[i].bytes, 0).0, LastInLogs(c, logs[..i]))
  {
    hide AllEntries, AllRecords, MaxLast;
    assert logs[..i + 1][..i] == logs[..i];
  }

  // The logs that are live, in ascending order; logs come in that order.
  method SelectLogs(logs: seq<LogFile>, logNumber: nat, prevLogNumber: nat) returns (live: seq<LogFile>)
    ensures live == LiveLogs(logs, logNumber, prevLogNumber)
  {
    live := [];
    for i := 0 to |logs|
      invariant live == LiveLogs(logs[..i], logNumber, prevLogNumber)
    {
      assert logs[..i + 1][..i] == logs[..i];
      if IsLive(logs[i], logNumber, prevLogNumber) {
        live := live + [logs[i]];
      }
    }
    assert logs[..|logs|] == logs;
  }

  // One more log, with tables of its own.
  method RecoverOneLog(k: Coding, c: Checksum, f: LogFile, paranoid: bool, bufferSize: nat, usage: seq<Entry> -> nat, reuse: bool,
                       added: seq<(nat, seq<Entry>)>, ghost groups: seq<seq<Entry>>, ghost first: nat, next: nat, maxSequence: nat)
    returns (ok: bool, added': seq<(nat, seq<Entry>)>, mem: seq<Entry>, next': nat, newMax: nat,
             ghost groups': seq<seq<Entry>>, ghost rest: seq<Entry>)
    requires AreAdded(added, groups, first, next)
    ensures ok <==> !paranoid || Undamaged(c, f.bytes)
    ensures ok ==>
      && Concat(groups') + rest == Concat(groups) + AllEntries(k, AllRecords(c, f.bytes, 0).0)
      && AreAdded(added', groups', first, next') && mem == InsertAll([], rest) && (!reuse ==> rest == [])
      && added <= added' && next' == Max(next + |added'| - |added|, f.number + 1)
      && newMax == MaxLast(AllRecords(c, f.bytes, 0).0, maxSequence)
  {
    hide AllRecords, AllEntries, MaxLast, Concat, InsertAll, AreAdded, AreTablesOf, Undamaged;
    added', next', groups' := added, next, groups;
    var tables;
    ghost var more;
    ghost var parts, left;
    ok, tables, mem, newMax, more, rest, parts, left :=
      RecoverLogFile(k, c, f.bytes, paranoid, bufferSize, usage, reuse, maxSequence);
    if ok {
      ConcatBoth(groups, more);
      added', next' := AddTables(added, groups, first, tables, more, next, f.number);
      groups' := groups + more;
    }
  }

  // DBImpl::Recover, with what the manifest says: replays the live logs.  The tables of level 0 that are added
  // and the memtable that is kept hold the entries of the logs, one after the other.
  method Recover(k: Coding, c: Checksum, logs: seq<LogFile>, logNumber: nat, prevLogNumber: nat, nextFile: nat, lastSequence: nat,
                 paranoid: bool, reuse: bool, bufferSize: nat, usage: seq<Entry> -> nat)
    returns (ok: bool, added: seq<(nat, seq<Entry>)>, mem: seq<Entry>, next: nat, last: nat,
             ghost groups: seq<seq<Entry>>, ghost rest: seq<Entry>)
    ensures var live := LiveLogs(logs, logNumber, prevLogNumber);
      ok <==> !paranoid || forall i | 0 <= i < |live| :: Undamaged(c, live[i].bytes)
    ensures var live := LiveLogs(logs, logNumber, prevLogNumber);
      ok ==>
        && Concat(groups) + rest == LogEntries(k, c, live)
        && AreAdded(added, groups, nextFile, next) && mem == InsertAll([], rest) && (!reuse ==> mem == [])
        && (forall i | 0 <= i < |live| :: live[i].number < next)
        && last == Max(lastSequence, LastInLogs(c, live))
  {
    hide AllRecords, AllEntries, MaxLast, Concat, InsertAll, AreAdded, LogEntries, LastInLogs, Undamaged, LiveLogs;
    var live := SelectLogs(logs, logNumber, prevLogNumber);
    added, mem, next, groups, rest := [], [], nextFile, [], [];
    var maxSequence := 0;
    NothingAdded(k, c, live, nextFile);
    for i := 0 to |live|
      invariant paranoid ==> forall j | 0 <= j < i :: Undamaged(c, live[j].bytes)
      invariant i < |live| ==> rest == []
      invariant Concat(groups) + rest == LogEntries(k, c, live[..i])
      invariant AreAdded(added, groups, nextFile, next) && mem == InsertAll([], rest) && (!reuse ==> rest == [])
      invariant forall j | 0 <= j < i :: live[j].number < next
      invariant maxSequence == LastInLogs(c, live[..i])
    {
      LogSnoc(k, c, live, i);
      ok, added, mem, next, maxSequence, groups, rest :=
        RecoverOneLog(k, c, live[i], paranoid, bufferSize, usage, reuse && i == |live| - 1,
                      added, groups, nextFile, next, maxSequence);
      if !ok {
        return false, [], [], 0, 0, [], [];
      }
    }
    assert live[..|live|] == live;
    NoneInserted([]);
    last := Max(lastSequence, maxSequence);
    ok := true;
  }

  lemma NothingAdded(k: Coding, c: Checksum, live: seq<LogFile>, next: nat)
    ensures LogEntries(k, c, live[..0]) == [] && LastInLogs(c, live[..0]) == 0
    ensures Concat([]) == [] && AreAdded([], [], next, next) && InsertAll([], []) == []
  {
  }
}
