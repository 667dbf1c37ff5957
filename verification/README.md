# Verified models of the storage, arithmetic, serialization and promise code under dVox/Pods

The app itself is an interface to code it vendors: the LevelDB key/value store, the BigInt
arbitrary-precision integers, the nanopb encoder and decoder of protocol buffers, and PromiseKit.
These Dafny modules model the four, in the form of their sources, and prove what each is for.
`dafny verify dfyconfig.toml` checks everything.

**LevelDB.** Every part of the store answers to one function, `InternalKeys.Read`: the newest entry
of a key at or below a sequence number. `Versions`, `CompactionInputs`, `Compactions` and
`VersionEdits` are the pieces of the tree of files. `Engine` is a state machine whose steps (writes,
memtable switches, flushes, trivial moves, the start of a compaction, each output it opens, its end,
and snapshots) interleave freely; `EngineRuns` proves what every run keeps, and `DbImpl` has the
methods that carry the steps out.
Two things can go wrong in the code as it is, and for both the exact condition is proved, with a
concrete run from the empty store that meets it:

- a compaction can bring a deleted value back, because boundary files are added on level L only
  (`CompactionReads`, `Resurrections`);
- a table that is flushed in the middle of a manual compaction can land in a gap between its inputs,
  where an output then overlaps it (`Installs`, `Cuts`, `Collisions`): exactly when the kept entries on both
  sides of the table are not cut apart. Compactions of picked files leave no gap.

`DbIter` is the cursor that hides old versions, `Log*` the crash-safe log (`LogDamage` says what comes
back from damaged files), `Manifest*` and
`VersionSets` the manifest written through that log, `EngineManifests` the manifest of any run of the
engine, `SkipLists` and `MemTables` the memtable as a linked structure, `SnapshotLists` the ring of
snapshots, `GroupCommit` the queue of writers.

Opening a database again is put together from all of these. `WriteBatches` is the format of the records in a
log, `EngineLogs` says which writes are in files and which in the two logs at any moment of a run, `Recovery`
replays logs, and `Crashes.OpenAgain` proves, for every run and every place where the logs are cut off, what the
database that is opened again answers.

**BigInt.** `BigUInts` has the three storage forms as one mutable object whose value is the sum of its
digits at their places (`BigDigits`). All arithmetic works on these objects in place: schoolbook,
split and Karatsuba multiplication, half-word division and the 3/2 estimate, Algorithm D of Knuth
(The Art of Computer Programming, volume 2, section 4.3.1), shifts, powers, the binary gcd, the
extended Euclidean algorithm, Newton's square root and the Miller-Rabin test. `NumberTheory` proves
the theorems the last of these rests on, from Bezout's identity to Fermat's little theorem;
`PseudoPrimes` proves that it turns down the composite numbers its table of bounds is made of.

**nanopb.** `ProtoMessages` defines, over nested descriptors, what encoding and decoding mean;
`ProtoEncoder` and `ProtoDecoder` are the streams, passes, iterators and loops, each equal to that
meaning. `ProtoStreams` and `ProtoSkipping` say what the decoder makes of fields in any order and of fields it
does not know, `ProtoExamples` writes bytes out. The format is the one of the Protocol Buffers Encoding documentation ("Base 128 Varints",
"Signed Integers", "Message Structure").

**PromiseKit.** `PromiseBoxes` and `PromiseWhen` take each barrier block as one atomic step and prove
their claims for every interleaving.

Conventions. A class has the fields of its source; `Valid` says when they make sense, and a method
equates the new abstract value with a function of the old one. Randomness, clocks, checksums and file
sizes are parameters. Dafny's integers are unbounded; a word is a number below 2^64, and where the arithmetic
of the sources can wrap around, the model does (`uint_fast8_t` is taken as one byte); sizes and counts that
are taken as unbounded are named under "Left out". A `ghost` field or parameter only helps the proof.

Where the code differs from its comments, or from what one would expect, the model follows the code:

- The comment above `AddBoundaryInputs` (version_set.cc:1364-1373) tells why boundary files have to be
  taken along; the code takes them for level L only. See `CompactionReads`.
- `MaybeAddFile` asserts that the files of a level do not overlap (version_set.cc:745-749). See
  `Collisions` for a run in which they do.
- `DBIter::Next` tests `iter_->Valid()` after stepping forward out of the reverse direction, where the
  iterator cannot be exhausted; an assertion stands in for the dead branch.
- `VersionEdit::Clear` keeps the compaction pointers. See `ManifestRecords.RecordRoundTrip`.
- A fragment of the log with the right checksum whose type byte is 5 or 6 is taken for the reader's own kEof and
  kBadRecord (log_reader.h:64-73 numbers them on from the types). Its payload, and for 5 all that follows, is lost
  without a report. See `LogRecovery` and `ManifestRecovery.EditsBehindEndAreIgnored`.
- The two logs of a crash are replayed one after the other, each as far as it goes. If the older one has lost its
  end and the newer one has not lost everything, the writes found have a hole. See `EngineLogs.SurvivorsArePrefix`.
- nanopb encodes a char array that has no zero and refuses to decode it. See `ProtoBounds`.
- `pb_decode_varint32` has no limit on the length of a varint, and its bit position is one byte
  (pb_decode.c:187-247): an overlong varint is taken, with bits in the wrong place. See `ProtoVarints`.
- On a message type without fields, `pb_field_iter_find` compares the number looked for with the terminator of the
  empty list, so that field number 0 is found there (pb_common.c:78-95); `ProtoMessages` decodes it as the code does.

## Model

| member | source | states |
|---|---|---|
| `InternalKeys.PointGetReads` | dVox/Pods/leveldb-library/db/dbformat.cc:121-137 | one seek to the lookup key in a run in internal order answers what the newest visible entry of that run says, and misses exactly when the run has no visible entry of the key |
| `InternalKeys.ReadInOrder` | dVox/Pods/leveldb-library/db/db_impl.cc:1125-1133 | when everything in a first store is newer than the same keys in a second one, a hit in the first answers for both |
| `Versions.FindFile` | dVox/Pods/leveldb-library/db/version_set.cc:88-106 | binary search splits the files at the first whose largest key is at or after the lookup key |
| `Versions.SomeFileOverlapsRange` | dVox/Pods/leveldb-library/db/version_set.cc:122-157 | true if and only if some file meets the range, whether the files are sorted and disjoint (binary search) or not (linear scan) |
| `Versions.CandidatesNewestFirst` | dVox/Pods/leveldb-library/db/version_set.cc:349-363 | exactly the level-0 files that cover the key, by falling file number |
| `Versions.GetFromLevel0` | dVox/Pods/leveldb-library/db/version_set.cc:349-419 | searching the candidates in that order reads the newest visible entry of all of level 0 |
| `Versions.GetFromSortedLevel` | dVox/Pods/leveldb-library/db/version_set.cc:363-382 | one file found by binary search answers for a whole sorted level |
| `Versions.Get` | dVox/Pods/leveldb-library/db/version_set.cc:326-421 | stopping at the first level that knows the key gives the newest visible entry of all levels; a miss means there is none |
| `CompactionInputs.GetOverlappingInputs` | dVox/Pods/leveldb-library/db/version_set.cc:519-559 | the files meeting a range; in level 0 the range restarts until it is closed, and it ends as the least closed range containing the given one |
| `CompactionInputs.FindLargestKey` | dVox/Pods/leveldb-library/db/version_set.cc:1326-1342 | a largest key that one of the files has and none exceeds; none exactly for no files |
| `CompactionInputs.FindSmallestBoundaryFile` | dVox/Pods/leveldb-library/db/version_set.cc:1344-1362 | of the files that carry on a user key, one that starts first; none exactly when there is none |
| `CompactionInputs.AddBoundaryInputs` | dVox/Pods/leveldb-library/db/version_set.cc:1378-1401 | adds, one by one, the first file that carries on the largest key so far, until no file of the level does |
| `CompactionInputs.GetRange` | dVox/Pods/leveldb-library/db/version_set.cc:1205-1227 | the tight hull of the user keys of some files |
| `CompactionInputs.SetupOtherInputs` | dVox/Pods/leveldb-library/db/version_set.cc:1403-1462 | with a the seed and the files that carry it on, b what that meets below, and wide the files that meet the range of both with those that carry them on: the inputs are wide and what it meets below exactly when b is not empty, wide has more files than a, fewer than 25 files of bytes together with b, and meets as many files below as b has; otherwise they are a and b. They can be taken out without leaving older data above newer; the grandparents are those they overlap |
| `CompactionInputs.OneSetUp` | dVox/Pods/leveldb-library/db/version_set.cc:1403-1462 | a seed leads to just one pair of inputs |
| `CompactionInputs.OneCompletion` | dVox/Pods/leveldb-library/db/version_set.cc:1378-1401 | there is just one way to add the files that carry a selection on |
| `CompactionInputs.GrowInputs` | dVox/Pods/leveldb-library/db/version_set.cc:1417-1447 | the wider selection (all files of the level that meet the range of the inputs, and boundary files) is taken exactly when it is larger, within the size limit, and meets as many files below as before; whatever is taken can be taken out |
| `Compactions.Compaction.IsBaseLevelForKey` | dVox/Pods/leveldb-library/db/version_set.cc:1533-1552 | the moving cursors answer what a stateless check of all deeper levels answers, as long as keys ascend |
| `Compactions.Compaction.ShouldStopBefore` | dVox/Pods/leveldb-library/db/version_set.cc:1554-1576 | true exactly when the grandparents passed since the first key of the output hold more bytes than allowed; the count then starts again |
| `Compactions.DoCompactionWork` | dVox/Pods/leveldb-library/db/db_impl.cc:890-998 | the outputs hold, in order, exactly the input entries that the stateless drop rules keep; every output has the size of its entries and is closed at the first entry with which it reaches the size of a file; outputs are cut at every entry before which the grandparents passed since the last stop hold more than 10 files of bytes, and nowhere else |
| `Cuts.OneWayToCut` | dVox/Pods/leveldb-library/db/db_impl.cc:890-998 | what is kept can be cut into outputs by these rules in one way only |
| `Compactions.KeptEntries` | dVox/Pods/leveldb-library/db/db_impl.cc:944-977 | the kept entries are the input entries no rule drops, still sorted |
| `CompactionReads.CompactionKeepsReads` | dVox/Pods/leveldb-library/db/db_impl.cc:944-977 | a compaction keeps every read at or above the smallest snapshot if and only if it drops no deletion marker at the edge of its lower inputs whose key goes on, with an older value, in the file after them |
| `Resurrections.CompactionCanResurrect` | dVox/Pods/leveldb-library/db/version_set.cc:1403-1411 | a concrete valid store and compaction in which a boundary file is missing on level L+1, and a deleted value is read again |
| `Resurrections.ReadsCanGoWrong` | dVox/Pods/leveldb-library/db/version_set.cc:1403-1411 | a concrete run of the engine of 15 steps from the empty store, in which every flush goes where it is picked to, every compaction takes what a picked file leads to, and every output is cut by the rules; it ends in a well-formed state where a deleted value is read |
| `Installs.ReplacedIsValid` | dVox/Pods/leveldb-library/db/version_set.cc:695-761 | replacing the inputs of a compaction by its outputs keeps levels sorted and disjoint and newer data nearer the top if and only if no output overlaps a table that was flushed into its level while the compaction ran; Cuts.CollidesIsBridge says when that is |
| `Cuts.CollidesIsBridge` | dVox/Pods/leveldb-library/db/db_impl.cc:907-976 | some output overlaps a flushed table if and only if some flushed table has a last kept entry below it and a first kept entry above it, and the outputs are not cut between the two |
| `EngineRuns.ClearHoweverCut` | dVox/Pods/leveldb-library/db/db_impl.cc:907-976 | every way to cut the kept entries into outputs leaves the state well formed if and only if the kept entries lie all on one side of every table flushed into the output level: known before the compaction ends |
| `Installs.GaplessNeverCollides` | dVox/Pods/leveldb-library/db/db_impl.cc:907-918 | between inputs that leave no gap no table can have been flushed, so their outputs overlap none |
| `Collisions.LevelsCanBreak` | dVox/Pods/leveldb-library/db/db_impl.cc:907-918 | a concrete run of 17 steps from the empty store, with flushes, inputs and cuts by the same rules: a table is flushed into the gap between the inputs of a manual compaction, the output reaches across it, the level is no longer sorted, and binary search for a stored key leads to a file without it |
| `Installs.ReplacedContents` | dVox/Pods/leveldb-library/db/db_impl.cc:860-876 | the new version holds what was outside of the inputs, and the outputs |
| `Installs.ExtendedIsValid` | dVox/Pods/leveldb-library/db/version_set.cc:491-517 | a flushed table in a free place keeps levels sorted and disjoint and newer data nearer the top |
| `VersionEdits.Builder.Apply` | dVox/Pods/leveldb-library/db/version_set.cc:658-692 | collects the deletions and additions of an edit per level; an added file is no longer deleted |
| `VersionEdits.Builder.SaveTo` | dVox/Pods/leveldb-library/db/version_set.cc:695-752 | one merge per level of base and added files, without the deleted ones |
| `VersionEdits.ReplayIsLive` | dVox/Pods/leveldb-library/db/version_set.cc:897-945 | one builder over any number of edits saves the version that applying them one at a time reaches, when no level gets a file number back |
| `DbImpl.PickLevelForMemTableOutput` | dVox/Pods/leveldb-library/db/version_set.cc:491-517 | the deepest level down to 2 that the table can sink to step by step; level 0 when it overlaps level 0 |
| `DbImpl.OneFilesWorth` | dVox/Pods/leveldb-library/db/version_set.cc:1472-1487 | the shortest prefix of the files that reaches the size limit, or all of them |
| `DbImpl.Database.Write` | dVox/Pods/leveldb-library/db/db_impl.cc:1203-1237 | carries out the write step of the engine and keeps every reachable read right |
| `DbImpl.Database.SwitchMemtable` | dVox/Pods/leveldb-library/db/db_impl.cc:1310-1370 | carries out the memtable switch and keeps every reachable read right |
| `DbImpl.Database.CompactMemTable` | dVox/Pods/leveldb-library/db/db_impl.cc:535-566 | carries out a flush, to the level picked, also while a compaction runs, and keeps every reachable read right |
| `DbImpl.Database.WriteLevel0Table` | dVox/Pods/leveldb-library/db/db_impl.cc:491-533 | installs the table of the immutable memtable in the level that is picked for it, or nothing when it is empty |
| `DbImpl.Database.BackgroundCompaction` | dVox/Pods/leveldb-library/db/db_impl.cc:688-744 | from any seed, carries out the move of one file exactly when it is alone, meets nothing below and little two levels below, and the start of a compaction otherwise; the inputs are just those the seed leads to, and every reachable read stays right |
| `DbImpl.Database.OpenCompactionOutputFile` | dVox/Pods/leveldb-library/db/db_impl.cc:786-800 | takes the next file number for one more output, so that tables flushed between outputs get numbers of their own; the state stays well formed and reads right |
| `DbImpl.Database.FinishCompaction` | dVox/Pods/leveldb-library/db/db_impl.cc:878-1048 | carries out the end of a compaction on the version it was set up on, with the numbers its outputs have been opened with and cut by the rules; the state stays well formed if and only if no flushed table of the output level has kept entries on both sides with no cut between them, which cannot be when they lie on one side, or when the inputs leave no gap; reads stay right if and only if the compaction does not resurrect |
| `DbImpl.Database.Get` | dVox/Pods/leveldb-library/db/db_impl.cc:1100-1145 | memtable, immutable memtable and files in this order give the newest visible entry of everything stored, so the answer of the full history |
| `DbImpl.Database.GetSnapshot` | dVox/Pods/leveldb-library/db/db_impl.cc:1166-1169 | carries out the snapshot step: the new snapshot is the last sequence number |
| `DbImpl.Database.ReleaseSnapshot` | dVox/Pods/leveldb-library/db/db_impl.cc:1171-1175 | carries out the release of one snapshot and keeps every reachable read right |
| `DbImpl.Database.SeedFromFile` | dVox/Pods/leveldb-library/db/version_set.cc:1270-1324 | the picked file, and in level 0 the files of the least closed range around it: a seed a compaction may start from, and one without a gap |
| `DbImpl.Database.SeedFromRange` | dVox/Pods/leveldb-library/db/version_set.cc:1464-1495 | the files of a range, in level 0 of the least closed one around it, and below level 0 no more than reach one file of bytes |
| `EngineRuns.StepKeepsStructure` | dVox/Pods/leveldb-library/db/db_impl.cc:688-1048 | every step keeps the structure of the engine exactly unless it ends a compaction whose kept entries on both sides of a table flushed meanwhile are not cut apart, and keeps reads right exactly unless it ends a compaction that resurrects |
| `EngineRuns.RunsAreRight` | dVox/Pods/leveldb-library/db/db_impl.cc:1100-1145 | in every run of writes, switches, flushes (also inside compactions), moves, interleaved compactions and snapshots, every state is well formed until a compaction collides, and reads at or above the floor are those of the full history if no compaction resurrects |
| `EngineRuns.GaplessRunsAreWellFormed` | dVox/Pods/leveldb-library/db/version_set.cc:1270-1324 | when all compactions of a run start from inputs without a gap, as those of picked files do, nothing collides and every state is well formed |
| `EngineRuns.ManifestRebuildsVersion` | dVox/Pods/leveldb-library/db/version_set.cc:897-996 | one builder over the manifest of any reachable state rebuilds its version, all of whose file numbers are below the next one |
| `SnapshotLists.SnapshotList.New` | dVox/Pods/leveldb-library/db/snapshot.h:56-70 | relinking the ring appends one snapshot, with every link and the ascending order intact |
| `SnapshotLists.SnapshotList.Delete` | dVox/Pods/leveldb-library/db/snapshot.h:72-86 | relinking the neighbours takes out just that snapshot and keeps the others in order |
| `SnapshotLists.SnapshotList.Oldest` | dVox/Pods/leveldb-library/db/snapshot.h:46-54 | the snapshot after the head has the least sequence number of all |
| `SnapshotLists.SnapshotList.Floor` | dVox/Pods/leveldb-library/db/db_impl.cc:890-894 | the smallest snapshot of a compaction: not above any snapshot, and the present when there is none |
| `ManifestEdits.VersionEdit.EncodeTo` | dVox/Pods/leveldb-library/db/version_edit.cc:41-85 | appends the tagged items of the edit, deleted files in ascending order |
| `ManifestEdits.VersionEdit.DecodeFrom` | dVox/Pods/leveldb-library/db/version_edit.cc:107-205 | succeeds exactly when the bytes are a sequence of well formed items, and stores them one by one |
| `ManifestRecords.RecordRoundTrip` | dVox/Pods/leveldb-library/db/version_edit.cc:41-205 | decoding an encoded edit gives it back, after the compaction pointers the object had |
| `ManifestRecords.FreshRoundTrip` | dVox/Pods/leveldb-library/db/version_edit.cc:41-205 | a fresh object becomes equal to the edit that was encoded |
| `ManifestRecords.EditBytes` | dVox/Pods/leveldb-library/db/version_edit.cc:14-85 | an edit with one item of each kind, byte by byte |
| `ManifestRecords.TagIsChecked` | dVox/Pods/leveldb-library/db/version_edit.cc:107-205 | behind any items, a tag that does not exist spoils the record, the unused tag 8 too |
| `ManifestRecords.LevelIsChecked` | dVox/Pods/leveldb-library/db/version_edit.cc:97-105 | so does a level from 7 on, in a pointer, a deleted file or a new one |
| `VersionSets.VersionSet.LogAndApply` | dVox/Pods/leveldb-library/db/version_set.cc:801-884 | fills in the missing numbers, takes over the compaction pointers, writes the edit (after a snapshot, in a new manifest), and installs the version it makes; the manifest stays one that rebuilds the current state |
| `VersionSets.VersionSet.WriteSnapshot` | dVox/Pods/leveldb-library/db/version_set.cc:1088-1116 | the first record of a manifest is the current version, all its files and pointers |
| `VersionSets.VersionSet.Recover` | dVox/Pods/leveldb-library/db/version_set.cc:886-1011 | opens with exactly the version, numbers and compaction pointers that the records of the file make, or fails when one is damaged, does not decode, names another comparator, or a number is missing |
| `VersionSets.VersionSet.NewFileNumber` | dVox/Pods/leveldb-library/db/version_set.h:194-194 | hands out the next file number once, and the manifest stays one that rebuilds the current state |
| `ManifestRecovery.SnapshotRebuilds` | dVox/Pods/leveldb-library/db/version_set.cc:1088-1116 | replayed on top of nothing, the snapshot record is the version it was taken of, numbers, sizes and key ranges included |
| `ManifestRecovery.ManifestRecovers` | dVox/Pods/leveldb-library/db/version_set.cc:886-1011 | however a manifest is cut off, a restart finds the version, numbers and compaction pointers of its last complete edit, with a next file number above all its files, and fails exactly when not even one edit after the snapshot is complete |
| `ManifestRecovery.UndecodedIsRefused` | dVox/Pods/leveldb-library/db/version_set.cc:933-947 | a manifest with a record that does not decode, wherever it stands, is refused |
| `ManifestRecovery.OtherComparatorIsRefused` | dVox/Pods/leveldb-library/db/version_set.cc:936-943 | so is one with a record that names another comparator |
| `ManifestRecovery.WrongChecksumIsRefused` | dVox/Pods/leveldb-library/db/version_set.cc:926-936 | so is one with a wrong checksum behind any of its records |
| `ManifestRecovery.NumbersAreNeeded` | dVox/Pods/leveldb-library/db/version_set.cc:973-985 | so is one without a next file number, a log number or a last sequence number anywhere |
| `ManifestRecovery.EditsBehindEndAreIgnored` | dVox/Pods/leveldb-library/db/version_set.cc:886-1011 | a manifest with a good fragment of type 5 in it opens with the edits before that fragment, and the edits behind it are lost without an error |
| `ManifestRecovery.RecoveredAsDescribed` | dVox/Pods/leveldb-library/db/version_edit.cc:41-205 | number, size and both ends of the key range of every recovered file are those a decoded record gives for it |
| `ManifestRecovery.PointerAt` | dVox/Pods/leveldb-library/db/version_set.cc:651-656 | the last pointer an edit has for a level wins, and levels without one keep theirs |
| `VersionSets.RestartFindsCurrent` | dVox/Pods/leveldb-library/db/version_set.cc:801-1011 | a restart from everything written finds the current version, log numbers and compaction pointers, and a version a new manifest can start from |
| `EngineManifests.ManifestIsGood` | dVox/Pods/leveldb-library/db/version_set.cc:801-884 | the edits of a reachable state, with the numbers noted at each, make a manifest that recovery accepts |
| `EngineManifests.EngineRestarts` | dVox/Pods/leveldb-library/db/version_set.cc:801-1011 | every run of the engine has a manifest; cut off anywhere, it recovers the version after its complete edits with the numbers noted then, the present version when nothing is missing, and nothing exactly when less than one edit is left |
| `EngineLogs.RunLogsFit` | dVox/Pods/leveldb-library/db/db_impl.cc:1203-1260 | in every run, the writes in files, in the log of the immutable memtable and in that of the memtable follow one another and are together the whole history; the memtables hold what their logs hold |
| `EngineLogs.StepFilesRight` | dVox/Pods/leveldb-library/db/db_impl.cc:535-1048 | the files alone answer as the history of the writes in files does after every step, exactly unless the step ends a compaction that makes the files alone resurrect |
| `EngineLogs.RunFilesRight` | dVox/Pods/leveldb-library/db/db_impl.cc:535-1048 | in every run without collisions and such compactions, the files alone answer as that history does |
| `EngineLogs.SurvivorsArePrefix` | dVox/Pods/leveldb-library/db/db_impl.cc:344-361 | when the two logs are cut off on their own, what is left is a beginning of the history if and only if the older log has lost no write or the newer one has none left |
| `EngineLogs.SurvivorsRead` | dVox/Pods/leveldb-library/db/db_impl.cc:344-361 | when it is a beginning, files and logs together answer every read as the history of just these writes does |
| `WriteBatches.WriteBatch.Put` | dVox/Pods/leveldb-library/db/write_batch.cc:98-103 | adds one update to the bytes and counts it; the bytes stay those of sequence number, count and updates |
| `WriteBatches.WriteBatch.Delete` | dVox/Pods/leveldb-library/db/write_batch.cc:105-109 | adds one deletion in the same way |
| `WriteBatches.WriteBatch.Append` | dVox/Pods/leveldb-library/db/write_batch.cc:144-149 | the updates of another batch go behind those of this one, and the counts are added |
| `WriteBatches.WriteBatch.SetSequence` | dVox/Pods/leveldb-library/db/write_batch.cc:94-96 | overwrites the sequence number in the bytes and nothing else |
| `WriteBatches.WriteBatch.Iterate` | dVox/Pods/leveldb-library/db/write_batch.cc:42-80 | hands over the updates of any bytes up to the first that cannot be read, and says whether all could be read and are as many as counted |
| `WriteBatches.BatchRoundTrip` | dVox/Pods/leveldb-library/db/write_batch.cc:42-130 | a batch is read back as it was written: sequence number, count, and all updates in order |
| `WriteBatches.BatchBytes` | dVox/Pods/leveldb-library/db/write_batch.cc:5-31 | a batch of a put and a deletion, byte by byte |
| `WriteBatches.WrongCountIsFound` | dVox/Pods/leveldb-library/db/write_batch.cc:75-79 | with any other count, the updates are handed over and the batch is found to be wrong |
| `WriteBatches.UnknownTagStops` | dVox/Pods/leveldb-library/db/write_batch.cc:51-74 | any other tag behind some updates ends the reading with an error |
| `Recovery.ReplayRecord` | dVox/Pods/leveldb-library/db/db_impl.cc:413-437 | puts the updates of one record of a log into the memtable with their numbers, as far as they can be read; fails exactly for a bad record under paranoid checks |
| `Recovery.RecoverLogFile` | dVox/Pods/leveldb-library/db/db_impl.cc:371-489 | a table for every stretch of records that just fills a memtable, and one for the rest unless it is kept; together they hold the entries of all records of the log, in order; fails exactly for a damaged log under paranoid checks |
| `Recovery.LiveMeans` | dVox/Pods/leveldb-library/db/db_impl.cc:327-342 | the logs that are replayed are those numbered from the log number on, and the previous one that is named |
| `Recovery.Recover` | dVox/Pods/leveldb-library/db/db_impl.cc:311-368 | replays exactly the logs the manifest does not account for, in order; tables with rising new numbers and the memtable that is kept hold their entries, and the last sequence number is the largest found |
| `Crashes.CutLogIsRead` | dVox/Pods/leveldb-library/db/db_impl.cc:371-489 | a log of batches that is cut off anywhere is read without damage and gives just the entries of its whole batches |
| `Crashes.RunNumbersFit` | dVox/Pods/leveldb-library/db/db_impl.cc:548-557 | in every run the manifest has the number of the oldest log that is still needed |
| `Crashes.ManifestSays` | dVox/Pods/leveldb-library/db/db_impl.cc:1474-1515 | after any run with an edit, the manifest leads to the present version, the number of the oldest log needed, a file number above those of the version and a sequence number not below those in files |
| `Crashes.OpenAgain` | dVox/Pods/leveldb-library/db/db_impl.cc:280-369 | after a crash of any run, with both logs cut off anywhere, opening succeeds with a well-formed version, a file number above all that is there, and as the last sequence number exactly the largest of the manifest and of the batches that are whole in the logs; every read is answered as by the history of the writes that survived, all those batches among them, when these are a beginning of the history, and when they are is said exactly |
| `DbIter.RowsAreReads` | dVox/Pods/leveldb-library/db/db_iter.cc:168-198 | the rows a cursor may stand on are exactly the key and value pairs that reads at its snapshot find |
| `DbIter.RowKeysAscend` | dVox/Pods/leveldb-library/db/db_iter.cc:168-198 | rows in order have ascending user keys, one row a key |
| `DbIter.Cursor.SeekToFirst` | dVox/Pods/leveldb-library/db/db_iter.cc:283-292 | stands on the first row, or is not valid when there are none |
| `DbIter.Cursor.SeekToLast` | dVox/Pods/leveldb-library/db/db_iter.cc:294-299 | stands on the last row, or is not valid when there are none |
| `DbIter.Cursor.Seek` | dVox/Pods/leveldb-library/db/db_iter.cc:269-281 | stands on the first row at or after the target, or is not valid when all rows are before it |
| `DbIter.Cursor.Next` | dVox/Pods/leveldb-library/db/db_iter.cc:141-166 | one row further, from either direction; not valid after the last |
| `DbIter.Cursor.Prev` | dVox/Pods/leveldb-library/db/db_iter.cc:200-225 | one row back, from either direction; not valid before the first |
| `DbIter.Cursor.FindNextUserEntry` | dVox/Pods/leveldb-library/db/db_iter.cc:168-198 | stops at the next row, skipping versions that are too new, deleted or hidden |
| `DbIter.Cursor.FindPrevUserEntry` | dVox/Pods/leveldb-library/db/db_iter.cc:227-267 | scans back to the nearest row and keeps its key and value |
| `IteratorRuns.RowsAreTheHistory` | dVox/Pods/leveldb-library/db/db_iter.cc:141-299 | over all the engine stores, in any reachable state with right reads, the rows are the pairs of the full history at the snapshot |
| `LogWriter.Writer.AddRecord` | dVox/Pods/leveldb-library/db/log_writer.cc:34-80 | appends the record laid out in fragments that never cross a block, with zeros in the trailers |
| `LogWriter.Writer.EmitPhysicalRecord` | dVox/Pods/leveldb-library/db/log_writer.cc:82-108 | appends one fragment with its checksum, length and type |
| `LogFormat.CompleteMeans` | dVox/Pods/leveldb-library/db/log_writer.cc:34-80 | a record is complete in a prefix of the log exactly when its last byte is there |
| `LogReader.Reader.ReadPhysicalRecord` | dVox/Pods/leveldb-library/db/log_reader.cc:189-271 | the next fragment of the file with its type byte, whatever that is, or what is wrong with it, with the bytes dropped and why; what that means for the bytes of the file is said in LogDamage |
| `LogReader.Reader.ReadRecord` | dVox/Pods/leveldb-library/db/log_reader.cc:56-174 | the next reassembled record and the drops on the way, as the assembly of the whole file from there says; a good fragment of type 5 ends the reading in silence, one of type 6 is skipped in silence |
| `LogReader.FeedConserves` | dVox/Pods/leveldb-library/db/log_reader.cc:80-170 | whatever comes next, the bytes held and the payload that arrives are in the record returned, in the record begun, in the drops reported, or mislaid, which only fragments of type 5 or 6 do |
| `LogRecovery.ReadAll` | dVox/Pods/leveldb-library/db/log_reader.cc:56-174 | reading to the end collects all records and all drops of the file |
| `LogRecovery.NothingVanishes` | dVox/Pods/leveldb-library/db/log_reader.cc:56-174 | in any file, damaged or not, every payload byte of a good fragment is in a record, a reported drop or the unfinished record if and only if no fragment that is reached and has type 6 has a payload, and none of type 5 has a payload, bytes of a begun record before it or payload behind it |
| `LogRecovery.BytesAreAccountedFor` | dVox/Pods/leveldb-library/db/log_reader.cc:56-271 | in any file the payload bytes are those of the records, of the drops reported, of the unfinished record, and of what fragments of type 5 and 6 lose |
| `LogRecovery.FragmentTakenForEnd` | dVox/Pods/leveldb-library/db/log_reader.h:64-73 | a concrete file: a good fragment of type 5 and a whole record behind it give no record and no report, for any checksum with the two laws |
| `LogRecovery.FragmentTakenForBad` | dVox/Pods/leveldb-library/db/log_reader.h:64-73 | a concrete file: the payload of a good fragment of type 6 is dropped without a report, and the record behind it comes back |
| `LogRecovery.HiddenBehindEnd` | dVox/Pods/leveldb-library/db/log_reader.cc:142-150 | behind any log, a good fragment of type 5 hides whatever follows it: just the records before it come back, and nothing is reported |
| `LogRecovery.CrashSafe` | dVox/Pods/leveldb-library/db/log_reader.cc:56-271 | for any records and any truncation, exactly the complete records come back, in order, and nothing is reported as damaged |
| `LogDamage.RecordsStand` | dVox/Pods/leveldb-library/db/log_reader.cc:56-271 | whatever the file, every record that comes back is made up of fragments that stand in it one after the other, each inside a block, with the types in order and with the checksum of its header that of its type and payload; and no two records share a byte |
| `LogDamage.WrongChecksumDropsBlock` | dVox/Pods/leveldb-library/db/log_reader.cc:243-256 | behind any log, a fragment with another checksum: nothing of the rest of its block comes back, exactly that rest is reported, and reading goes on with the next block |
| `LogDamage.WrongLengthDropsBlock` | dVox/Pods/leveldb-library/db/log_reader.cc:222-234 | likewise for a length that goes past the block |
| `LogDamage.WrongLengthEndsFile` | dVox/Pods/leveldb-library/db/log_reader.cc:222-234 | a length that goes past the end of the file ends the reading without a report |
| `LogDamage.ZerosAreSkipped` | dVox/Pods/leveldb-library/db/log_reader.cc:235-241 | a header of zeros skips the rest of its block without a report |
| `LogDamage.ChangedByteIsFound` | dVox/Pods/leveldb-library/db/log_reader.cc:243-256 | a concrete file: one changed byte of a record is found by any checksum that tells the two apart; all 8 bytes are reported and no record comes back |
| `LogDamage.PartsWithoutStart` | dVox/Pods/leveldb-library/db/log_reader.cc:120-140 | a concrete file: parts of a record without its first one are dropped, each with a report |
| `LogDamage.PartWithoutEnd` | dVox/Pods/leveldb-library/db/log_reader.cc:92-118 | a concrete file: a record begun is reported when another one starts |
| `LogDamage.PartsThatFit` | dVox/Pods/leveldb-library/db/log_reader.cc:109-140 | a concrete file: a first and a last part make up a record |
| `LogDamage.ErrorBehindPart` | dVox/Pods/leveldb-library/db/log_reader.cc:152-171 | concrete files: a record begun is reported when something broken or of an unknown type follows, and the latter with it |
| `LogFormat.FixedBytes` | dVox/Pods/leveldb-library/db/log_writer.cc:82-108 | the four bytes of a checksum stand low byte first |
| `LogFormat.TrailerIsZero` | dVox/Pods/leveldb-library/db/log_writer.cc:43-57 | what is left of a block without room for a header is filled with zeros |
| `SkipLists.SkipList.FindGreaterOrEqual` | dVox/Pods/leveldb-library/db/skiplist.h:260-282 | the least node at or after the key, and on each level the last node before it |
| `SkipLists.SkipList.FindLessThan` | dVox/Pods/leveldb-library/db/skiplist.h:284-302 | the last node before the key, or the head |
| `SkipLists.SkipList.FindLast` | dVox/Pods/leveldb-library/db/skiplist.h:304-322 | the last node of the bottom level, or the head |
| `SkipLists.SkipList.LinkBottom` | dVox/Pods/leveldb-library/db/skiplist.h:361-366 | the one link that inserts: after it every level is still a sorted part of the one below |
| `SkipLists.SkipList.LinkHigher` | dVox/Pods/leveldb-library/db/skiplist.h:361-366 | each further link raises the tower of the node by one, with every level still a sorted part of the one below |
| `SkipLists.SkipList.Insert` | dVox/Pods/leveldb-library/db/skiplist.h:336-368 | adds exactly the key, in its place |
| `SkipLists.SkipList.Contains` | dVox/Pods/leveldb-library/db/skiplist.h:370-378 | true if and only if an equal key is in the list |
| `SkipLists.InsertAtRank` | dVox/Pods/leveldb-library/db/skiplist.h:336-368 | putting an entry at its rank is inserting it in order |
| `MemTables.MemTable.Add` | dVox/Pods/leveldb-library/db/memtable.cc:75-98 | adds exactly the entry, in internal order |
| `MemTables.MemTable.Get` | dVox/Pods/leveldb-library/db/memtable.cc:100-134 | one seek finds what the newest visible entry of the key says |
| `MemTables.SeekFinds` | dVox/Pods/leveldb-library/db/memtable.cc:100-105 | seeking the lookup key in the list stops where the first visible entry of the key would be |
| `GroupCommit.BuildBatchGroup` | dVox/Pods/leveldb-library/db/db_impl.cc:1258-1306 | the longest group from the front of the queue that sync flags, empty batches and the size limit allow, and its operations in order |
| `GroupCommit.LimitsOfGroup` | dVox/Pods/leveldb-library/db/db_impl.cc:1268-1276 | a leader of up to 128 KB adds no more than 128 KB to its own batch, a larger one makes a group of up to 1 MB, and one above that goes alone |
| `GroupCommit.RunsAreLed` | dVox/Pods/leveldb-library/db/db_impl.cc:1260-1306 | in every run, no writer that asked for a sync is in a group whose leader did not, and all groups keep to these limits |
| `GroupCommit.RunsAreAccounted` | dVox/Pods/leveldb-library/db/db_impl.cc:1185-1256 | in every run, log, memtable, answers and last sequence number are those of the finished groups and the part written of the current one |
| `GroupCommit.BatchIsApplied` | dVox/Pods/leveldb-library/db/db_impl.cc:1203-1237 | the whole batch of a writer in an applied group is in the memtable, in order, with consecutive published numbers |
| `GroupCommit.MemAscends` | dVox/Pods/leveldb-library/db/db_impl.cc:1203-1237 | memtable entries have ascending sequence numbers, so no operation is there twice |
| `GroupCommit.PublishedIsWhole` | dVox/Pods/leveldb-library/db/db_impl.cc:1203-1237 | the published sequence number covers exactly the finished groups, never a part of a batch |
| `GroupCommit.AnsweredInOrder` | dVox/Pods/leveldb-library/db/db_impl.cc:1239-1255 | writers are answered in order of arrival, each once |
| `GroupCommit.SomeoneGoesOn` | dVox/Pods/leveldb-library/db/db_impl.cc:1185-1256 | as long as writers wait there is a step, other than the arrival of one, that brings the end of the queue nearer |
| `GroupCommit.StepsComeToAnEnd` | dVox/Pods/leveldb-library/db/db_impl.cc:1185-1256 | every such step brings it nearer, so each writer is answered in the end |
| `BigUInts.BigUInt.Normalize` | dVox/Pods/BigInt/Sources/BigUInt.swift:133-163 | no digit changes, leading zeros go, and slices become inline words or arrays where they can |
| `BigUInts.BigUInt.Set` | dVox/Pods/BigInt/Sources/BigUInt.swift:209-238 | in every storage form only that digit changes, and the value by the difference of the digits at their place |
| `BigUInts.BigUInt.Extract` | dVox/Pods/BigInt/Sources/BigUInt.swift:258-282 | the digits of the range, cut off at the end of the number |
| `BigUInts.BigUInt.ShiftRightWords` | dVox/Pods/BigInt/Sources/BigUInt.swift:290-315 | every digit moves down by the amount |
| `BigUInts.BigUInt.ShiftLeftWords` | dVox/Pods/BigInt/Sources/BigUInt.swift:317-343 | every digit moves up by the amount, zeros below |
| `BigDigits.NormalIsUnique` | dVox/Pods/BigInt/Sources/BigUInt.swift:133-163 | a value has only one normal form |
| `BigArithmetic.Compare` | dVox/Pods/BigInt/Sources/Comparable.swift:17-25 | orders numbers by value |
| `BigArithmetic.Add` | dVox/Pods/BigInt/Sources/Addition.swift:42-61 | adds the shifted number exactly |
| `BigArithmetic.SubtractReportingOverflow` | dVox/Pods/BigInt/Sources/Subtraction.swift:68-89 | overflow exactly when the shifted number is larger; the difference, wrapped at the words touched |
| `BigMultiplication.MultiplyByWord` | dVox/Pods/BigInt/Sources/Multiplication.swift:16-28 | the exact product with a word |
| `BigMultiplication.MultiplyAndAdd` | dVox/Pods/BigInt/Sources/Multiplication.swift:45-71 | adds the shifted product exactly |
| `BigMultiplication.Split` | dVox/Pods/BigInt/Sources/BigUInt.swift:349-368 | the two halves make up the number |
| `BigMultiplication.MultiplyDirectly` | dVox/Pods/BigInt/Sources/Multiplication.swift:99-108 | schoolbook: the exact product |
| `BigMultiplication.MultiplyKaratsuba` | dVox/Pods/BigInt/Sources/Multiplication.swift:123-148 | three half-size products make the exact product, without underflow in the subtraction |
| `BigMultiplication.Multiply` | dVox/Pods/BigInt/Sources/Multiplication.swift:91-149 | the exact product for every limit of the direct method, through all branches, terminating |
| `BigShifts.ShiftLeft` | dVox/Pods/BigInt/Sources/Shifts.swift:39-59 | times a power of two |
| `BigShifts.ShiftRight` | dVox/Pods/BigInt/Sources/Shifts.swift:86-107 | the quotient by a power of two |
| `WordDivision.HalfQuotient` | dVox/Pods/BigInt/Sources/Division.swift:56-75 | the exact half-word quotient of three half-words by two |
| `WordDivision.HalfDivide` | dVox/Pods/BigInt/Sources/Division.swift:76-87 | quotient and remainder of that division, the wrapped subtraction included |
| `WordDivision.FastDividingFullWidth` | dVox/Pods/BigInt/Sources/Division.swift:41-105 | the exact quotient and remainder of two words by one, every other intermediate value in a word |
| `WordDivision.ApproximateQuotient` | dVox/Pods/BigInt/Sources/Division.swift:112-138 | exactly the smaller of the quotient of three words by two and the largest word |
| `BigDivision.DivideByWord` | dVox/Pods/BigInt/Sources/Division.swift:148-158 | quotient in place and remainder by a word |
| `BigDivision.EstimateDigit` | dVox/Pods/BigInt/Sources/Division.swift:224-237 | the trial digit of a normalized window is the true digit or one more |
| `BigDivision.AddBackFits` | dVox/Pods/BigInt/Sources/Division.swift:241-246 | adding the divisor back never carries past the window |
| `BigDivision.ReduceWindow` | dVox/Pods/BigInt/Sources/Division.swift:224-247 | one step of the long division: the true digit, and a window smaller than the divisor |
| `BigDivision.Divide` | dVox/Pods/BigInt/Sources/Division.swift:173-252 | x becomes the quotient and y the remainder, for all operands |
| `BigDivision.FormRemainder` | dVox/Pods/BigInt/Sources/Division.swift:255-286 | the remainder by the number that was normalized |
| `BigExponentiation.PowerOf` | dVox/Pods/BigInt/Sources/Exponentiation.swift:24-43 | the power; of a negative exponent 1 for base 1 and 0 for larger ones |
| `BigExponentiation.PowerModulo` | dVox/Pods/BigInt/Sources/Exponentiation.swift:52-72 | the power modulo a number, by squaring bit by bit |
| `BigGcd.GreatestCommonDivisor` | dVox/Pods/BigInt/Sources/GCD.swift:15-33 | the binary algorithm computes the greatest common divisor |
| `BigInts.Plus` | dVox/Pods/BigInt/Sources/Addition.swift:98-119 | exact signed sum, never a negative zero |
| `BigInts.Minus` | dVox/Pods/BigInt/Sources/Subtraction.swift:163-165 | exact signed difference |
| `BigInts.Times` | dVox/Pods/BigInt/Sources/Multiplication.swift:159-161 | exact signed product |
| `BigInverse.EuclidStep` | dVox/Pods/BigInt/Sources/GCD.swift:45-53 | a round keeps both coefficients right, their signs alternating, and |t2| r1 + |t1| r2 equal to the modulus |
| `BigInverse.Inverse` | dVox/Pods/BigInt/Sources/GCD.swift:43-57 | no inverse if and only if the numbers are not coprime; otherwise the inverse below the modulus |
| `BigSquareRoot.StepDecides` | dVox/Pods/BigInt/Sources/Square Root.swift:20-27 | above the root a Newton step descends, at the root it stays or goes up by one |
| `BigSquareRoot.SquareRoot` | dVox/Pods/BigInt/Sources/Square Root.swift:15-29 | terminates with the largest number whose square does not exceed the input |
| `NumberTheory.Fermat` | dVox/Pods/BigInt/Sources/Prime Test.swift:33-64 | for a prime p and a not divisible by p, the power p - 1 of a is 1 modulo p |
| `NumberTheory.RootsOfOne` | dVox/Pods/BigInt/Sources/Prime Test.swift:33-64 | modulo a prime, 1 has no square roots but 1 and -1 |
| `PrimeTest.IsStrongProbablePrime` | dVox/Pods/BigInt/Sources/Prime Test.swift:40-64 | true if and only if the number is a strong probable prime for the base |
| `PrimeTest.PrimePasses` | dVox/Pods/BigInt/Sources/Prime Test.swift:40-64 | a prime is a strong probable prime for every base it does not divide |
| `PrimeTest.TestFixedBases` | dVox/Pods/BigInt/Sources/Prime Test.swift:97-109 | true if and only if the number passes for every prime of the table up to the first without an exception as small |
| `PrimeTest.TestRandomBases` | dVox/Pods/BigInt/Sources/Prime Test.swift:111-120 | true if and only if the number passes for all bases drawn |
| `PrimeTest.IsProbablyPrime` | dVox/Pods/BigInt/Sources/Prime Test.swift:79-121 | true exactly for the primes of the table and for numbers above 1 without a factor in it that pass for their bases |
| `PrimeTest.PrimeIsAccepted` | dVox/Pods/BigInt/Sources/Prime Test.swift:79-121 | every prime is accepted, whatever bases are drawn |
| `PseudoPrimes.NoBoundIsAccepted` | dVox/Pods/BigInt/Sources/Prime Test.swift:18-36 | no bound of the table but the last is accepted, whatever bases are drawn: so none is larger than it may be |
| `PseudoPrimes.TurnsDown2047` | dVox/Pods/BigInt/Sources/Prime Test.swift:22-22 | 2047 is a product of factors above 1 and is turned down, by its powers to the base 3 |
| `PseudoPrimes.TurnsDown1373653` | dVox/Pods/BigInt/Sources/Prime Test.swift:23-23 | 1373653 is a product of factors above 1 and is turned down, by its powers to the base 5 |
| `PseudoPrimes.TurnsDown25326001` | dVox/Pods/BigInt/Sources/Prime Test.swift:24-24 | 25326001 is a product of factors above 1 and is turned down, by its powers to the base 7 |
| `PseudoPrimes.TurnsDown3215031751` | dVox/Pods/BigInt/Sources/Prime Test.swift:25-25 | 3215031751 is a product of factors above 1 and is turned down, by its powers to the base 11 |
| `PseudoPrimes.TurnsDown2152302898747` | dVox/Pods/BigInt/Sources/Prime Test.swift:26-26 | 2152302898747 is a product of factors above 1 and is turned down, by its powers to the base 13 |
| `PseudoPrimes.TurnsDown3474749660383` | dVox/Pods/BigInt/Sources/Prime Test.swift:27-27 | 3474749660383 is a product of factors above 1 and is turned down, by its powers to the base 17 |
| `PseudoPrimes.TurnsDown341550071728321` | dVox/Pods/BigInt/Sources/Prime Test.swift:28-28 | 341550071728321 is a product of factors above 1 and is turned down, by its powers to the base 23 |
| `PseudoPrimes.TurnsDown3825123056546413051` | dVox/Pods/BigInt/Sources/Prime Test.swift:30-30 | 3825123056546413051 is a product of factors above 1 and is turned down, by its powers to the base 37 |
| `PseudoPrimes.TurnsDown318665857834031151167461` | dVox/Pods/BigInt/Sources/Prime Test.swift:33-33 | 318665857834031151167461 is a product of factors above 1 and is turned down, by its powers to the base 41 |
| `PromiseBoxes.StepConserves` | dVox/Pods/PromiseKit/Sources/Promise.swift:73-87 | no step of any thread loses a handler or doubles it |
| `PromiseBoxes.RunConserves` | dVox/Pods/PromiseKit/Sources/Promise.swift:73-87 | after any run, the handler of every piping thread is in exactly one place, and no other handler is anywhere |
| `PromiseBoxes.StepAgrees` | dVox/Pods/PromiseKit/Sources/Box.swift:36-57 | every step of a thread that seals leaves the box sealed, and no step changes the value of a sealed box |
| `PromiseBoxes.SealedForGood` | dVox/Pods/PromiseKit/Sources/Box.swift:36-57 | under every interleaving, once a box is sealed its value stays |
| `PromiseBoxes.CalledAtMostOnce` | dVox/Pods/PromiseKit/Sources/Promise.swift:73-87 | under every interleaving a handler runs at most once, and with the sealed value |
| `PromiseBoxes.CalledExactlyOnce` | dVox/Pods/PromiseKit/Sources/Promise.swift:73-87 | when all threads have finished, every piped handler has run once if anybody sealed, and otherwise waits in the box once |
| `PromiseBoxes.StepsRunOut` | dVox/Pods/PromiseKit/Sources/Box.swift:36-83 | every step of an unfinished thread brings the end of the run nearer |
| `PromiseWhen.WhenIsRight` | dVox/Pods/PromiseKit/Sources/when.swift:4-44 | for any order of callbacks: pending until the first rejection or the last fulfilment, then for good what that one brought |
| `PromiseWhen.WhenFulfils` | dVox/Pods/PromiseKit/Sources/when.swift:4-44 | fulfilled if and only if all are, otherwise rejected with the first rejection |
| `PromiseWhen.JoinIsRight` | dVox/Pods/PromiseKit/Sources/when.swift:230-252 | under every interleaving of promises that resolve and of the two blocks of each callback, no missing result is unwrapped; it is sealed with all results in input order, never before all are there and counted, and certainly when all callbacks have finished |
| `ProtoVarints.EncodeVarint` | dVox/Pods/nanopb/pb_encode.c:608-628 | the base 128 varint of the value |
| `ProtoVarints.VarintRoundTrip` | dVox/Pods/nanopb/pb_decode.c:255-276 | a varint of at most 64 bits is decoded to its value, wherever it stands |
| `ProtoVarints.Varint32RoundTrip` | dVox/Pods/nanopb/pb_decode.c:187-247 | so is one of at most 32 bits by the short decoder |
| `ProtoScalars.LittleEndianRoundTrip` | dVox/Pods/nanopb/pb_encode.c:641-666 | fixed-width integers come back from their little-endian bytes |
| `ProtoEncoder.OStream.Write` | dVox/Pods/nanopb/pb_encode.c:103-127 | writes all or nothing, never past the end of the buffer; a sizing stream only counts |
| `ProtoEncoder.WriteSubmessage` | dVox/Pods/nanopb/pb_encode.c:717-765 | length and contents of a nested message, sized by a first pass and written by a second with exactly that room |
| `ProtoEncoder.WriteArray` | dVox/Pods/nanopb/pb_encode.c:147-236 | a packed or a tagged array, or nothing; fails exactly on too many values, a value that does not encode, or a full stream |
| `ProtoEncoder.PackedSize` | dVox/Pods/nanopb/pb_encode.c:169-189 | the size computed for a packed array is that of its bytes |
| `ProtoEncoder.WriteField` | dVox/Pods/nanopb/pb_encode.c:341-426 | one field by its kind: present, absent, array or oneof member |
| `ProtoEncoder.WriteMessage` | dVox/Pods/nanopb/pb_encode.c:528-550 | writes the encoding of the fields in order; succeeds if and only if every value encodes and all of it fits |
| `ProtoEncoder.EncodedSize` | dVox/Pods/nanopb/pb_encode.c:567-576 | the sizing pass succeeds exactly when encoding can, with the number of bytes of the encoding |
| `ProtoDecoder.IStream.ReadVarint` | dVox/Pods/nanopb/pb_decode.c:255-276 | the loop reads what the recursive decoder of varints reads |
| `ProtoDecoder.IStream.ReadVarint32` | dVox/Pods/nanopb/pb_decode.c:187-247 | so does the loop for 32 bits, with sign extension bytes, its overflow checks, and a bit position of one byte that wraps around |
| `ProtoVarints.PaddingWraps` | dVox/Pods/nanopb/pb_decode.c:187-247 | the 32-bit decoder takes any number of bytes 0x80 and goes on as if the bit position had wrapped around 256 |
| `ProtoVarints.OverlongIsTaken` | dVox/Pods/nanopb/pb_decode.c:187-276 | a concrete varint of 38 bytes that the 32-bit decoder reads as 8 and the 64-bit decoder refuses |
| `ProtoVarints.ExtendedSignIsTaken` | dVox/Pods/nanopb/pb_decode.c:187-247 | a concrete varint: the smallest number of 32 bits, extended to 64, is taken |
| `ProtoVarints.OtherBitsAreRefused` | dVox/Pods/nanopb/pb_decode.c:187-247 | other bits behind the low 32 are refused, and so is an extended sign behind a number that is not negative |
| `ProtoDecoder.IStream.Substream` | dVox/Pods/nanopb/pb_decode.c:372-400 | a length and a substream of just as many bytes |
| `ProtoDecoder.FieldIter.Next` | dVox/Pods/nanopb/pb_common.c:20-76 | the next field or around to the first, with the number of required fields before it |
| `ProtoDecoder.FieldIter.Find` | dVox/Pods/nanopb/pb_common.c:78-95 | a circular search finds a field with the tag from any start, and fails only if there is none; on an empty list it finds tag 0, that of the terminator |
| `ProtoRequired.WordsMark` | dVox/Pods/nanopb/pb_decode.c:1015-1020 | setting the bit of a required field marks that field and no other |
| `ProtoRequired.MarksTell` | dVox/Pods/nanopb/pb_decode.c:1033-1073 | the first 64 required fields have all been seen exactly when their bits are all set |
| `ProtoRequired.AllMarked` | dVox/Pods/nanopb/pb_decode.c:1054-1072 | whole words and the bits that remain are all ones exactly when everything is marked |
| `ProtoDecoder.ReadValue` | dVox/Pods/nanopb/pb_decode.c:1328-1564 | each type decodes as specified, with its range and length checks; a nested message adds to what is there |
| `ProtoDecoder.ReadField` | dVox/Pods/nanopb/pb_decode.c:406-483 | one field by its kind: packed arrays, single array values, and the rest |
| `ProtoDecoder.ReadMessage` | dVox/Pods/nanopb/pb_decode.c:928-1076 | the loop with its bit map decodes what the recursive decoder decodes, and fails when it fails; what that means for fields in any order is said in ProtoStreams |
| `ProtoDecoder.ReadNew` | dVox/Pods/nanopb/pb_decode.c:1078-1090 | into a fresh struct, decodes exactly what the recursive decoder decodes |
| `ProtoRoundTrip.MessageRoundTrip` | dVox/Pods/nanopb/pb_decode.c:928-1090 | a message in which every char array ends with a zero is decoded to itself, nested messages included |
| `ProtoStreams.StreamDecodes` | dVox/Pods/nanopb/pb_decode.c:928-1076 | of any sequence of fields the decoder makes what they mean: strange fields are skipped, arrays add up, packed or not, later values replace earlier ones, a member of a oneof takes the place of the others, nested messages add to the one that is there; and it fails exactly when an array overflows or one of the first 64 required fields is missing |
| `ProtoStreams.UnknownStep` | dVox/Pods/nanopb/pb_decode.c:278-331 | at any place in any bytes, a varint, 8 bytes, a length with as many bytes, or 4 bytes under a number the message does not have are passed over |
| `ProtoStreams.UnknownIsIgnored` | dVox/Pods/nanopb/pb_decode.c:978-992 | with such fields anywhere between the others, a message is decoded as without them |
| `ProtoStreams.FoundAmongUnknown` | dVox/Pods/nanopb/pb_decode.c:928-1090 | a message that was encoded is decoded to itself with such fields in front of, between and behind its own |
| `ProtoSkipping.UnknownInFront` | dVox/Pods/nanopb/pb_decode.c:321-331 | such a field changes nothing in front of any bytes, well formed or not |
| `ProtoSkipping.StrangeWireFails` | dVox/Pods/nanopb/pb_decode.c:321-331 | a wire type that does not exist makes decoding fail |
| `ProtoExamples.NumberExample` | dVox/Pods/nanopb/pb_encode.c:608-707 | field 1 with the number 150, byte by byte |
| `ProtoExamples.StringExample` | dVox/Pods/nanopb/pb_encode.c:709-715 | field 2 with the string "testing", byte by byte |
| `ProtoExamples.MessageExample` | dVox/Pods/nanopb/pb_encode.c:717-765 | field 3 with a nested message, byte by byte |
| `ProtoExamples.PackedExample` | dVox/Pods/nanopb/pb_encode.c:147-236 | field 6 with a packed array, byte by byte |
| `ProtoExamples.FixedExamples` | dVox/Pods/nanopb/pb_encode.c:641-666 | a number of fixed width has its low byte first |
| `ProtoExamples.LongFixedExample` | dVox/Pods/nanopb/pb_encode.c:653-666 | so has a long one |
| `ProtoExamples.ZigZagExamples` | dVox/Pods/nanopb/pb_encode.c:630-640 | small signed numbers of either sign have small codes |
| `ProtoExamples.LowBitsExamples` | dVox/Pods/nanopb/pb_decode.c:1339-1375 | a signed number of at most 32 bits is taken from the low 32 bits, and refused when it does not fit its member |
| `ProtoExamples.FixedBufferExamples` | dVox/Pods/nanopb/pb_decode.c:1543-1564 | a buffer of fixed length is cleared by an empty one and takes no other length than its own |
| `ProtoExamples.BoolExample` | dVox/Pods/nanopb/pb_decode.c:1328-1337 | any number but zero is true |
| `ProtoExamples.ZeroInString` | dVox/Pods/nanopb/pb_decode.c:1481-1517 | a string ends at its first zero |
| `ProtoExamples.ZeroTagEnds` | dVox/Pods/nanopb/pb_decode.c:298-319 | a zero tag ends the message, whatever follows |
| `ProtoBounds.DecodedFits` | dVox/Pods/nanopb/pb_decode.c:928-1090 | whatever the bytes, a decoded message fits its struct: integers in width, buffers, strings and arrays in bounds, one member of a oneof at most |
| `ProtoBounds.ComesBack` | dVox/Pods/nanopb/pb_decode.c:1481-1517 | an encoded message is decoded to itself if and only if no char array is full to its last byte |
| `ProtoBounds.DecodedComesBack` | dVox/Pods/nanopb/pb_encode.c:528-550 | whatever has been decoded with no required field missing can be encoded, and is decoded to itself again |
| `ProtoBounds.FullStringIsLost` | dVox/Pods/nanopb/pb_encode.c:875-899 | a char array without its zero is encoded, and the bytes are refused by the decoder |

## Left out

- The loop of a compaction over its entries runs in one go when the compaction ends; flushes and the opening of outputs are steps of their own before that. Which of them comes at which entry does not matter, because the loop reads only the version the compaction was set up on. An output that is opened and not used only leaves its number unused.
- EngineRuns.RunsAreRight: two conditions stay, because the code needs them: no compaction resurrects (Resurrections.ReadsCanGoWrong) and none collides (Collisions.LevelsCanBreak). What happens after a collision is not modelled.
- EngineManifests.EngineRestarts: numbers, sizes and keys fit the format of the manifest (64-bit numbers, slices below 2^32 bytes), and the edits of the engine carry no compaction pointers.
- PrimeTest.IsProbablyPrime: that the fixed bases decide primality below 3.3e24 is a computation over all smaller numbers (OEIS A014233), not proved; the bases and bounds are those of the code.
- ManifestRecovery.ManifestRecovers: writes to the manifest succeed, and the records stay in the order written; the switch of the CURRENT file is not part of it.
- VersionSets.VersionSet.LogAndApply: a write that fails, and the CURRENT file; the compaction pointer that SetupOtherInputs sets in memory before its edit is logged.
- VersionSets.VersionSet.Recover: reading CURRENT, and going on with the old manifest instead of starting a new one.
- Crashes.OpenAgain: the manifest is whole, as it is synced with every edit (ManifestRecovery.ManifestRecovers is about manifests that are cut off); the run is one without collisions, whose compactions do not make the files alone resurrect; tables that a version names are on disk, and the listing of the directory has the logs in ascending order, as `std::sort` puts them. A batch has fewer than 2^31 updates, so that its count is not negative as an `int`, and its keys and values read back as they are. The new log that comes last in `DB::Open`, and deleting obsolete files.
- Crashes.ManifestSays: a database with no edit yet, whose manifest is the one `NewDB` writes. The first log has number 1 in the model.
- Recovery.RecoverLogFile: with `reuse_logs`, writing on to the log that was kept. Keys and values have bytes by two functions and their inverses, which the theorems need only for the keys and values written.
- Failed writes to log or manifest, reuse of old manifests, repair, and errors of the file system.
- Scores, and picking by compaction pointer: a compaction may start from any file or any range, so what they pick is covered. Seek sampling likewise.
- Table files, block format, caches, bloom filters and compression: a table is the sorted run of its entries, and the merging iterator delivers the entries of its inputs in order.
- User keys are real numbers under `<`; any comparator on byte strings, of which there are countably many, orders them like some reals. Sequence numbers stay below 2^56 - 1.
- `std::sort`, `std::set` and `std::upper_bound` appear as what they promise. util/coding is not part of this model: its varints are the base 128 varints of ProtoVarints, and a 32-bit one is a varint below 2^32.
- The log reader starts at offset 0, as all its callers do (log_reader.cc:33-54 is skipped); the checksum is any function with the two laws the log needs.
- Skip list: memory order, and readers in the middle of a search while a node is linked; what holds after every single link does hold for them.
- DbImpl keeps the sequence numbers of its snapshots in a sequence and its memtables in sorted sequences; SnapshotLists and MemTables show that the linked structures hold just those.
- BigInt: copying forms of operations that exist in place, bitwise operators, conversions, text, hashing, random numbers, and the recycling of array capacity. Shift counts and indices are unbounded. The Boolean or of disjoint bits is a sum.
- nanopb: pointer fields, callbacks, extensions, fixed-count arrays, proto3 fields without presence, and default values other than "absent". Messages are values, not structs at addresses. Sizes are those of PB_FIELD_32BIT, and encodings stay below 2^32 bytes. A oneof member counts as present when it is the one selected.
- nanopb: the bit `or` of the required-field map adds a bit that is not set.
- PromiseKit: queues, logging, progress, `when(fulfilled:concurrently:)`, guarantees, and bridging to Objective-C. Callbacks of `when` come from promises that keep PromiseBoxes.CalledAtMostOnce.
- Group commit: failures of single insertions into the memtable; the bytes of a log record are the business of LogWriter.
- The app's own Swift code, other pods, and generated files.
