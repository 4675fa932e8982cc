# Verified model of LevelDB and nanopb

The app's own Swift code is views and cloud calls. What it stores and sends goes through two libraries kept in its
repository: the LevelDB storage engine and the nanopb protocol-buffer codec. This project models both in Dafny and
proves what they are for. Paths below start at the root of the repository.

`dafny verify dfyconfig.toml` checks everything.

## What is modelled

**The log-structured merge tree** (`DbFormat`, `Tree`, `VersionGet`, `Overlap`, `Inputs`, `Picking`, `Builder`,
`Compaction`, `OutputCuts`, `CompactionWork`, `CompactionReads`, `Install`, `Background`, `Database`, `DbImpl`,
`Resurrection`, `Recovery`, `LogReplay`, `CrashReads`, `SnapshotList`). The specification of every read is one line: the
newest entry of the user key whose sequence number is not past the snapshot, in the flat set of all entries. Point reads
refine it under the tree invariant; every background step keeps the invariant; every step keeps what live snapshots
read, with the one exception stated exactly; reads are what the batches written say; and after a crash the manifest and
the logs give back the reads of the moment after the last whole batch.

**Cursors** (`Cursor`, `MergingIterator`, `TwoLevelIterator`, `DbIter`, `InternalIterator`). Each operation, after any
others, leaves the iterator where a cursor on the sorted union, the concatenated blocks or the visible keys would be;
`InternalIterator` puts them together over a database.

**Formats** (`Bytewise`, `Coding`, `Crc32c`, `Crc32cTables`, `Checksum`, `Log`, `Bloom`, `FilterBlock`, `Block`,
`BlockIter`, `InternalKeys`, `Footer`, `Table`, `TableBuilder`, `VersionEdit`, `Manifest`, `WriteBatch`, `Layout`).
Writers are state machines over byte strings; readers give back what was written, also from a log cut off at any byte,
and find a key through one block. `Layout` spells the formats out byte by byte, without the functions that writers and
readers share.

**Structures and protocols in memory** (`SkipList`, `MemTable`, `HandleTable`, `LruCache`, `LruOrder`, `GroupCommit`,
`ConcurrentRead`). The skip list and the write queue are state machines whose steps are single stores, and stretches of
code between lock releases; the proofs cover every interleaving, and `ConcurrentRead` of both together. The classes
beside them run the same steps.

**nanopb** (`Nanopb`, `NanopbDecode`, `NanopbRoundTrip`, `NanopbSound`, `NanopbWire`, `NanopbRequired`, `NanopbMerge`,
`NanopbIter`, `NanopbEncoder`, `NanopbDecoder`). `Nanopb` and `NanopbDecode` say what encoding and decoding mean for
descriptor-driven messages (Protocol Buffers Encoding guide, sections "Base 128 Varints" and "Message Structure"),
`NanopbRoundTrip` and `NanopbSound` prove what that promises, `NanopbWire`, `NanopbRequired` and `NanopbMerge` what
becomes of fields that are unknown, missing or come again, and the stream classes of `NanopbEncoder` and `NanopbDecoder`
are proved to do it.

## Where the code falls short, and what is assumed

* A compaction closes its upper inputs under shared boundary user keys, but not its lower ones
  (`db/version_set.cc:1403-1422` of the LevelDB sources). If a file left in the output level continues the last user key
  of a lower input with older entries, dropping a deletion brings an old value back. Nothing is assumed to rule this
  out: compactions keep the invariant whatever they leave behind, `CompactionReads.CompactionPreservesReads` and
  `Database.CompactReadsExactly` give the exact condition under which reads stay as they are, and
  `Resurrection.DatabaseMayResurrect` is a run from the empty database in which one does not. Theorems about reads after
  a crash are stated for the keys that no compaction brings back in the tables, since memtables that hid one may be
  lost.
* Each version edit is one atomic step against the version it was computed from. A memtable flushed from inside a
  running compaction is not interleaved.

## Where code and documentation differ

* `VersionEdit::Clear` leaves the compaction pointers, so decoding into a used edit does not simply replace it. The
  model follows the code, and `VersionEdit.EditRoundTrip` says exactly when the edit is restored.
* nanopb does not compare the wire type of a field with its declared type, except to tell packed arrays. A message type
  without fields matches tag 0 against the terminator of its field table and reads a bool there. The model follows the
  code in both.
* nanopb checks presence of the first 64 required fields only.
* Where nanopb takes a 64-bit number as a negative one of 32 bits it does not ask for a full sign extension:
  `NanopbDecode.Varint32Exactly` says which numbers it takes.

## Model

| member | source | states |
|---|---|---|
| Bytewise.RankEmbedsOrder | MyMealPrep/Pods/leveldb-library/util/comparator.cc:25-27 | byte strings under memcmp order embed in the reals, strictly and injectively, so results proved for real user keys hold for byte-string keys |
| Bytewise.FindShortestSeparator | MyMealPrep/Pods/leveldb-library/util/comparator.cc:29-50 | the result is at or after `start`, before `limit` whenever `start` is, never longer, and different from `start` exactly when some byte can be raised without reaching `limit` |
| Bytewise.FindShortSuccessor | MyMealPrep/Pods/leveldb-library/util/comparator.cc:52-64 | the result is at or after the key, never longer, and equal to it exactly when every byte is 0xff; otherwise the first other byte is raised and the rest cut |
| VersionGet.FindFile | MyMealPrep/Pods/leveldb-library/db/version_set.cc:88-106 | binary search returns the boundary: every file before it ends before the key, none from it on does |
| VersionGet.OverlappingNewestFirst | MyMealPrep/Pods/leveldb-library/db/version_set.cc:278-300 | exactly the level-0 files whose user-key range holds the key, newest file first |
| VersionGet.FileForKey | MyMealPrep/Pods/leveldb-library/db/version_set.cc:306-324 | in a sorted level at most one file is looked at, and it has the newest visible entry of the level if any file has one |
| VersionGet.FirstHitIsNewest | MyMealPrep/Pods/leveldb-library/db/version_set.cc:343-418 | the first file, in search order, with a visible entry holds the newest visible entry of the whole level |
| VersionGet.SearchFiles | MyMealPrep/Pods/leveldb-library/db/version_set.cc:387-418 | stopping at the first file with a visible entry gives the read of the flat set of the level; nothing is found exactly when no entry is visible |
| VersionGet.Get | MyMealPrep/Pods/leveldb-library/db/version_set.cc:326-421 | under the tree invariant, for every key and snapshot: stopping at the first level that answers gives the newest visible entry over all files, deletions included |
| Overlap.SomeFileOverlapsRange | MyMealPrep/Pods/leveldb-library/db/version_set.cc:122-157 | true exactly if some file touches the possibly unbounded range, by scan or by binary search |
| Overlap.GetOverlappingInputs | MyMealPrep/Pods/leveldb-library/db/version_set.cc:519-559 | the restart loop stops; in level 0 it returns the least set of files closed under overlap with the range, in deeper levels exactly the files touching it |
| Overlap.ForcedRangeIsClosure | MyMealPrep/Pods/leveldb-library/db/version_set.cc:533-558 | a range widened only by files that had to be taken selects the least closed set |
| Inputs.FindSmallestBoundaryFile | MyMealPrep/Pods/leveldb-library/db/version_set.cc:1342-1362 | the file with the smallest start among those that start after the key with its user key; none exactly if there is no such file |
| Inputs.AddBoundaryInputs | MyMealPrep/Pods/leveldb-library/db/version_set.cc:1378-1401 | the loop stops, keeps the inputs as a prefix, adds no duplicate, and leaves no file that continues the last user key of the inputs |
| Inputs.ChainContinuesRun | MyMealPrep/Pods/leveldb-library/db/version_set.cc:1378-1401 | in a sorted level the files added are just the ones that follow the chosen run, one after another |
| Picking.OverlappingIsRun | MyMealPrep/Pods/leveldb-library/db/version_set.cc:519-559 | in a sorted level the files touching a range are consecutive |
| Picking.RunLeavesNewer | MyMealPrep/Pods/leveldb-library/db/version_set.cc:1403-1407 | a run of files whose successor does not continue its last user key leaves only newer entries of its keys behind |
| Picking.Level0ClosureLeavesNewer | MyMealPrep/Pods/leveldb-library/db/version_set.cc:1305-1320 | a set of level-0 files closed under overlap leaves only newer entries of its keys behind |
| Picking.ClosedStartIsSafe | MyMealPrep/Pods/leveldb-library/db/version_set.cc:1403-1407 | closing the inputs under shared boundary user keys makes it safe to move them a level down, in level 0 and below |
| Compaction.VersionSet.CloseInputs | MyMealPrep/Pods/leveldb-library/db/version_set.cc:1403-1412 | the inputs so closed, with every file they touch in the next level, are good inputs of a compaction |
| Compaction.VersionSet.SetupOtherInputs | MyMealPrep/Pods/leveldb-library/db/version_set.cc:1403-1462 | the inputs are good and include the files first chosen; the upper inputs are grown exactly if growing adds a file, keeps the lower inputs as they are and stays within the byte bound; the compaction pointer moves to their largest key, and the grandparents are exactly the files touched two levels down |
| Compaction.VersionSet.PickCompaction | MyMealPrep/Pods/leveldb-library/db/version_set.cc:1270-1324 | a compaction exactly when one is due, at the level of the trigger; its upper inputs are those that the file named by the trigger leads to by closing and growing, and include it: the file read too often, or the first of the level, by index, that ends past the old compaction pointer, or the first of all; the pointer then stands at their end |
| Compaction.VersionSet.FirstAfterPointer | MyMealPrep/Pods/leveldb-library/db/version_set.cc:1285-1297 | the first file, by index, whose largest key is past the pointer; the first of the level if there is none |
| Compaction.VersionSet.CompactRange | MyMealPrep/Pods/leveldb-library/db/version_set.cc:1464-1495 | nothing exactly if no file touches the range; otherwise the inputs that the range leads to by closing and growing, which take in all files touched in level 0, and deeper down just as many of the first ones as it takes to reach the size of one file; the pointer then stands at their end |
| Compaction.VersionSet.PickLevelForMemTableOutput | MyMealPrep/Pods/leveldb-library/db/version_set.cc:491-516 | exactly the level of the placement rule: level 0 if the table touches a file there; otherwise as deep as level 2, as long as the next level is untouched and the overlap in the level after that is within the bound |
| Compaction.Compaction.IsBaseLevelForKey | MyMealPrep/Pods/leveldb-library/db/version_set.cc:1533-1552 | although its cursors only move forward, exact for keys asked for in nondecreasing order: true exactly if no level below the output holds the key in a file range |
| Compaction.Compaction.ShouldStopBefore | MyMealPrep/Pods/leveldb-library/db/version_set.cc:1554-1576 | passes exactly the grandparents that end before the key, and stops exactly when the bytes passed since the last stop exceed the bound |
| Compaction.Compaction.IsTrivialMove | MyMealPrep/Pods/leveldb-library/db/version_set.cc:1515-1523 | for a compaction with good inputs, true exactly if it has one upper file, no file of the next level touches it and it overlaps few enough bytes two levels down; and then that file alone is a good input, so that relabelling it is the TrivialMove step |
| CompactionWork.DropDecision | MyMealPrep/Pods/leveldb-library/db/db_impl.cc:926-971 | the remembered last sequence number decides just what the definition says: an entry is dropped exactly if a newer one hides it from every snapshot, or it is a deletion that every snapshot sees with no file for its key further down |
| CompactionWork.DoCompactionWork | MyMealPrep/Pods/leveldb-library/db/db_impl.cc:878-999 | the output files in order hold exactly the entries not dropped; no file is empty and their numbers are consecutive; each is closed as soon as it reaches the size limit; none goes on past a stop, so that none overlaps more bytes two levels down than the bound; and none but the last ends short of the limit unless at a stop |
| CompactionWork.StopsBefore | MyMealPrep/Pods/leveldb-library/db/db_impl.cc:919-927 | asking before each entry in turn tells just the stops, from counters that only move forward |
| CompactionWork.GrandparentsRise | MyMealPrep/Pods/leveldb-library/db/version_set.cc:1450-1455 | the files that a compaction overlaps two levels down end one after another |
| OutputCuts.PassedOn | MyMealPrep/Pods/leveldb-library/db/version_set.cc:1554-1565 | the bytes that the counter adds up are those of the files that end between two keys |
| OutputCuts.SinceLastStop | MyMealPrep/Pods/leveldb-library/db/version_set.cc:1567-1575 | since the last stop, or the first entry, no more bytes were passed than the bound |
| OutputCuts.UncutIsBounded | MyMealPrep/Pods/leveldb-library/db/version_set.cc:1554-1576 | a stretch of the input without a stop inside overlaps no more bytes two levels down than the bound |
| OutputCuts.ShortFilesAreDue | MyMealPrep/Pods/leveldb-library/db/db_impl.cc:919-927 | a file below the size limit that is not the last ends only where, between it and the next, the bytes passed since the last stop came to exceed the bound |
| OutputCuts.FilledInTheEnd | MyMealPrep/Pods/leveldb-library/db/db_impl.cc:978-1008 | closing what is open after the last entry completes output files that are cut as they should be |
| CompactionReads.DroppedEntry | MyMealPrep/Pods/leveldb-library/db/db_impl.cc:942-971 | every entry that is gone is hidden by a newer one at the oldest snapshot, or is an obsolete deletion |
| CompactionReads.OutputIsExactly | MyMealPrep/Pods/leveldb-library/db/db_impl.cc:942-971 | written are exactly the entries of the input files that no newer one of their user key among them hides at the oldest snapshot, save the deletions seen by every snapshot whose user key no file of a deeper level may hold |
| CompactionReads.CompactionPreservesReads | MyMealPrep/Pods/leveldb-library/db/db_impl.cc:878-999 | exact condition: reads of every key at every snapshot from the oldest on are unchanged if and only if no key has an obsolete deletion dropped while a file left in the output level holds an older value of it |
| CompactionReads.WithoutContinuationNothingResurrects | MyMealPrep/Pods/leveldb-library/db/version_set.cc:1403-1422 | a check of file bounds is enough: if no file left in the output level starts with the last user key of a lower input, no such key exists |
| Resurrection.InputsAreChosen | MyMealPrep/Pods/leveldb-library/db/version_set.cc:1403-1422 | in a concrete valid tree the inputs are chosen so that a file left behind continues the last user key of a lower input |
| Resurrection.CompactionMayResurrect | MyMealPrep/Pods/leveldb-library/db/db_impl.cc:942-971 | compacting that tree turns the read of a deleted key from nothing to the old value |
| Resurrection.DatabaseMayResurrect | MyMealPrep/Pods/leveldb-library/db/db_impl.cc:688-767 | a run of thirteen steps from the empty database - writes, flushes, a compaction under a snapshot and one after it - reads nothing of a deleted key and then its old value; each step is one the code takes: tables go where the placement rule puts them, inputs are ones that the version set chooses, output files are full, and no compaction is one that it would do by moving a file |
| Install.ReplacementIsValid | MyMealPrep/Pods/leveldb-library/db/db_impl.cc:860-876 | replacing inputs by good outputs keeps the tree valid: files sound, deeper levels sorted and apart, newer entries in upper levels, level 0 by number, numbers distinct |
| Background.CompactionEditReplaces | MyMealPrep/Pods/leveldb-library/db/version_set.cc:1525-1531 | the edit with all input deletions and output additions changes the two levels so, and nothing else |
| Background.CutFilesApart | MyMealPrep/Pods/leveldb-library/db/db_impl.cc:974-989 | cutting a sorted sequence of entries into files gives sound files that are pairwise apart |
| Background.CompactionInstalls | MyMealPrep/Pods/leveldb-library/db/db_impl.cc:860-876 | installing the merge result keeps the tree valid, and its entries are the ones kept and the ones that were not inputs |
| Background.TrivialMoveInstalls | MyMealPrep/Pods/leveldb-library/db/db_impl.cc:717-731 | moving one file down keeps the tree valid and every entry in it |
| Background.FlushInstalls | MyMealPrep/Pods/leveldb-library/db/db_impl.cc:491-533 | a table of the newest entries, placed where PickLevelForMemTableOutput allows, keeps the tree valid and adds exactly its entries |
| Builder.InSaveLevel | MyMealPrep/Pods/leveldb-library/db/version_set.cc:695-754 | saving yields, in key order, exactly the base files and added files that are not deleted |
| Builder.ApplyToSaved | MyMealPrep/Pods/leveldb-library/db/version_set.cc:650-692 | one edit removes its deleted numbers, then adds its new files |
| Builder.FoldedEditIsOneVersion | MyMealPrep/Pods/leveldb-library/db/version_set.cc:650-754 | one more edit in the builder is one more version saved and edited, as long as it adds numbers that the level has not |
| Builder.Builder.Apply | MyMealPrep/Pods/leveldb-library/db/version_set.cc:650-692 | deletions enter the deleted set, new files the added set and leave the deleted set, level by level |
| Builder.Builder.SaveTo | MyMealPrep/Pods/leveldb-library/db/version_set.cc:695-754 | merging with upper bounds and skipping deleted numbers gives the level that Builder.InSaveLevel describes |
| Compaction.VersionSet.LogAndApply | MyMealPrep/Pods/leveldb-library/db/version_set.cc:801-884 | the version installed is the current one with the edit applied |
| Database.StepKeeps | MyMealPrep/Pods/leveldb-library/db/db_impl.cc:688-767 | every step - write, memtable switch, flush, move, compaction, taking and releasing a snapshot - keeps the invariant, and every read at a snapshot from the oldest live one up to the last sequence number, save the reads of keys that a compaction brings back |
| Database.CompactKeepsInv | MyMealPrep/Pods/leveldb-library/db/db_impl.cc:878-999 | every compaction of good inputs keeps the invariant, with no condition on what it leaves behind |
| Database.CompactReadsExactly | MyMealPrep/Pods/leveldb-library/db/db_impl.cc:942-971 | exact condition, read by read: a compaction keeps the read of a key at a sequence number from the oldest snapshot on if and only if it does not drop a deletion of it for good while an older value stays in the output level, with nothing newer than the oldest snapshot, in memtables or tables, for that read to see |
| Database.WithoutContinuationNothingComesBack | MyMealPrep/Pods/leveldb-library/db/version_set.cc:1403-1422 | a check on file bounds is enough for that: no file left in the output level continues the last user key of a lower input |
| Database.RunKeepsInv | MyMealPrep/Pods/leveldb-library/db/db_impl.cc:688-767 | the invariant holds after every run |
| Database.SnapshotReadsStable | MyMealPrep/Pods/leveldb-library/db/db_impl.cc:1100-1145 | over whole runs: a snapshot reads the same of a key from when it is taken until it is released, whatever is written and compacted meanwhile, unless a compaction of the run brings the key back for a read at it |
| DbImpl.MemTableGet | MyMealPrep/Pods/leveldb-library/db/db_impl.cc:1123-1136 | a memtable that knows the key answers for everything older as well; one that does not changes nothing |
| DbImpl.DBImpl.Get | MyMealPrep/Pods/leveldb-library/db/db_impl.cc:1100-1145 | memtable, immutable memtable, then tables gives the read of all entries of the database at the snapshot, or at the last sequence number |
| DbImpl.DBImpl.Write | MyMealPrep/Pods/leveldb-library/db/db_impl.cc:1185-1258 | the operations enter the memtable under the sequence numbers that follow, as one step of the state machine |
| DbImpl.DBImpl.SwitchMemTable | MyMealPrep/Pods/leveldb-library/db/db_impl.cc:1348-1366 | the full memtable becomes the immutable one and an empty one takes its place |
| DbImpl.DBImpl.CompactMemTable | MyMealPrep/Pods/leveldb-library/db/db_impl.cc:535-566 | the immutable memtable becomes a table at the level of the placement rule, as one flush step |
| DbImpl.MergeInputs | MyMealPrep/Pods/leveldb-library/db/version_set.cc:1237-1268 | all entries of the inputs once each, in internal-key order |
| DbImpl.DBImpl.MoveFile | MyMealPrep/Pods/leveldb-library/db/db_impl.cc:717-731 | a trivial move is one step that keeps the invariant, and one that the code schedules |
| DbImpl.DBImpl.CompactFiles | MyMealPrep/Pods/leveldb-library/db/db_impl.cc:878-1045 | every compaction of chosen inputs is one step of the state machine, keeps the invariant and fills its output files |
| DbImpl.DBImpl.BackgroundCompaction | MyMealPrep/Pods/leveldb-library/db/db_impl.cc:688-767 | an immutable memtable is flushed first; without one, nothing is done exactly if nothing is due, or no file of a manual compaction touches its range; otherwise a move or a compaction at the level of the trigger or of the manual compaction, of the inputs that these lead to: the file read too often is among them, or the first of the level past the old compaction pointer, or the first files of the range; a compaction where a move would do only by hand; each is one step that keeps the invariant and puts the pointer of the level at the end of its inputs; what is left of a manual compaction begins where its inputs end, and it is done when there is nothing to do |
| DbImpl.DBImpl.GetSnapshot | MyMealPrep/Pods/leveldb-library/db/db_impl.cc:1166-1169 | the snapshot is the last sequence number, added as the newest |
| DbImpl.DBImpl.ReleaseSnapshot | MyMealPrep/Pods/leveldb-library/db/db_impl.cc:1171-1175 | only that snapshot goes |
| SnapshotList.SnapshotList.New | MyMealPrep/Pods/leveldb-library/db/snapshot.h:57-71 | in the circular list: the new snapshot comes last, the links stay a ring in rising order |
| SnapshotList.SnapshotList.Delete | MyMealPrep/Pods/leveldb-library/db/snapshot.h:81-88 | only the snapshot released leaves the ring |
| SnapshotList.SnapshotList.Oldest | MyMealPrep/Pods/leveldb-library/db/snapshot.h:47-50 | no live snapshot has a lower sequence number than the one after the head |
| SnapshotList.SnapshotList.Newest | MyMealPrep/Pods/leveldb-library/db/snapshot.h:51-54 | no live snapshot has a higher one than the one before the head |
| SnapshotList.SnapshotList.Empty | MyMealPrep/Pods/leveldb-library/db/snapshot.h:46 | true exactly if no snapshot is live |
| Cursor.PositionsAreDetermined | MyMealPrep/Pods/leveldb-library/table/merger.cc:31-108 | with distinct keys a cut of the sorted entries has one position on each side |
| Cursor.PrevUndoesNext | MyMealPrep/Pods/leveldb-library/table/merger.cc:55-108 | stepping back undoes stepping forward, and the other way round |
| MergingIterator.SmallestIsFirstAbove | MyMealPrep/Pods/leveldb-library/table/merger.cc:148-161 | when all children stand past a cut, the smallest is the first entry of the union past it |
| MergingIterator.LargestIsLastBelow | MyMealPrep/Pods/leveldb-library/table/merger.cc:163-176 | when all children stand before a cut, the largest is the last entry of the union before it |
| MergingIterator.MergingIterator.SeekToFirst | MyMealPrep/Pods/leveldb-library/table/merger.cc:31-37 | at the first entry of the union |
| MergingIterator.MergingIterator.SeekToLast | MyMealPrep/Pods/leveldb-library/table/merger.cc:39-45 | at the last entry of the union |
| MergingIterator.MergingIterator.Seek | MyMealPrep/Pods/leveldb-library/table/merger.cc:47-53 | at the first entry of the union not before the target |
| MergingIterator.MergingIterator.Next | MyMealPrep/Pods/leveldb-library/table/merger.cc:55-79 | whatever was called before, direction switches included: at the entry of the union that follows the current one |
| MergingIterator.MergingIterator.Prev | MyMealPrep/Pods/leveldb-library/table/merger.cc:81-108 | whatever was called before: at the entry of the union before the current one |
| MergingIterator.TurnForward | MyMealPrep/Pods/leveldb-library/table/merger.cc:62-74 | after walking backwards every other child is put past the current key |
| MergingIterator.TurnBackward | MyMealPrep/Pods/leveldb-library/table/merger.cc:88-103 | after walking forwards every other child is put before the current key |
| TwoLevelIterator.TwoLevelIterator.Seek | MyMealPrep/Pods/leveldb-library/table/two_level_iterator.cc:82-87 | at the first entry of the concatenated blocks not before the target |
| TwoLevelIterator.TwoLevelIterator.SeekToFirst | MyMealPrep/Pods/leveldb-library/table/two_level_iterator.cc:89-94 | at the first entry of all blocks |
| TwoLevelIterator.TwoLevelIterator.SeekToLast | MyMealPrep/Pods/leveldb-library/table/two_level_iterator.cc:96-101 | at the last entry of all blocks |
| TwoLevelIterator.TwoLevelIterator.Next | MyMealPrep/Pods/leveldb-library/table/two_level_iterator.cc:103-107 | at the entry that follows, across empty blocks |
| TwoLevelIterator.TwoLevelIterator.Prev | MyMealPrep/Pods/leveldb-library/table/two_level_iterator.cc:109-113 | at the entry before, across empty blocks |
| TwoLevelIterator.TwoLevelIterator.SkipEmptyDataBlocksForward | MyMealPrep/Pods/leveldb-library/table/two_level_iterator.cc:115-126 | from past a cut inside a block, at the first entry past it in any block |
| TwoLevelIterator.TwoLevelIterator.SkipEmptyDataBlocksBackward | MyMealPrep/Pods/leveldb-library/table/two_level_iterator.cc:128-139 | from before a cut inside a block, at the last entry before it in any block |
| TwoLevelIterator.TwoLevelIterator.InitDataBlock | MyMealPrep/Pods/leveldb-library/table/two_level_iterator.cc:146-161 | the data iterator is over the block that the index stands at |
| DbIter.ShownIsRead | MyMealPrep/Pods/leveldb-library/db/db_iter.cc:168-198 | the entries shown are what point reads at the snapshot return: a key is shown exactly if its read finds a value, and with that value |
| DbIter.YieldsAreOrdered | MyMealPrep/Pods/leveldb-library/db/db_iter.cc:168-198 | each user key is shown once, in rising order |
| DbIter.ShownStepsUndo | MyMealPrep/Pods/leveldb-library/db/db_iter.cc:141-267 | stepping back undoes stepping forward, and the other way round |
| DbIter.DBIter.FindNextUserEntry | MyMealPrep/Pods/leveldb-library/db/db_iter.cc:168-198 | at the first entry shown from the current one on whose key is past the one to skip |
| DbIter.DBIter.FindPrevUserEntry | MyMealPrep/Pods/leveldb-library/db/db_iter.cc:227-267 | at the last entry shown before the point reached, with key and value saved |
| DbIter.DBIter.Seek | MyMealPrep/Pods/leveldb-library/db/db_iter.cc:269-281 | at the first user key shown that is at or after the target |
| DbIter.DBIter.SeekToFirst | MyMealPrep/Pods/leveldb-library/db/db_iter.cc:283-292 | at the first user key shown |
| DbIter.DBIter.SeekToLast | MyMealPrep/Pods/leveldb-library/db/db_iter.cc:294-299 | at the last user key shown |
| DbIter.DBIter.Next | MyMealPrep/Pods/leveldb-library/db/db_iter.cc:141-166 | from any valid state, whichever way it last moved: at the next user key shown |
| DbIter.DBIter.Prev | MyMealPrep/Pods/leveldb-library/db/db_iter.cc:200-225 | from any valid state: at the user key shown before |
| DbIter.DBIter.Key | MyMealPrep/Pods/leveldb-library/db/db_iter.cc:64-67 | the user key of the entry stood at, whether read or saved |
| DbIter.DBIter.Value | MyMealPrep/Pods/leveldb-library/db/db_iter.cc:68-71 | its value, whether read or saved |
| InternalIterator.AddIterators | MyMealPrep/Pods/leveldb-library/db/version_set.cc:223-246 | the children made for a version are its level-0 tables one by one and each deeper level that has tables |
| InternalIterator.LevelIsLayered | MyMealPrep/Pods/leveldb-library/db/version_set.cc:223-228 | the tables of a deeper level with their largest keys are what the two-level iterator needs, and it then walks just the entries of that level |
| InternalIterator.TablesAreMergeable | MyMealPrep/Pods/leveldb-library/db/version_set.cc:230-246 | the children are sorted, no key is in two of them, and together they hold the entries of the version |
| InternalIterator.NewInternalIterator | MyMealPrep/Pods/leveldb-library/db/db_impl.cc:1062-1087 | the merging iterator over memtable, immutable memtable and tables is over all entries of the database |
| InternalIterator.IteratorShowsReads | MyMealPrep/Pods/leveldb-library/db/db_impl.cc:1147-1157 | in every state of the database and at every snapshot: the internal iterator moves as a run over all entries in order does, and the user iterator over it shows exactly the keys whose point read finds a value, with that value |
| SkipList.StoreKeeps | MyMealPrep/Pods/leveldb-library/db/skiplist.h:346-367 | each single store of an insert - raising the height, the new link, the published link - keeps every level sorted and inside the level below, and adds the key at its level-0 publication and only then |
| SkipList.LevelsNest | MyMealPrep/Pods/leveldb-library/db/skiplist.h:346-367 | every level is a part of the bottom one |
| SkipList.StepIsExact | MyMealPrep/Pods/leveldb-library/db/skiplist.h:260-281 | a step of a search loads only links that exist, stays before the target and makes progress; a search that ends is exact for the memory it last loaded from |
| SkipList.RunKeeps | MyMealPrep/Pods/leveldb-library/db/skiplist.h:260-368 | over every interleaving of stores and readers the invariant holds and no key is lost |
| SkipList.ReaderNeverMisses | MyMealPrep/Pods/leveldb-library/db/skiplist.h:260-281 | a reader interleaved with inserts ends at the first node not before its target in the memory of that moment, so it never passes over a key that was there when it began |
| SkipList.SkipList.FindGreaterOrEqual | MyMealPrep/Pods/leveldb-library/db/skiplist.h:260-281 | the first node at or after the key, and at each level in use the last node before it |
| SkipList.SkipList.FindLessThan | MyMealPrep/Pods/leveldb-library/db/skiplist.h:283-302 | the last node before the key, or the head |
| SkipList.SkipList.FindLast | MyMealPrep/Pods/leveldb-library/db/skiplist.h:304-322 | the last node, or the head |
| SkipList.SkipList.Contains | MyMealPrep/Pods/leveldb-library/db/skiplist.h:370-378 | at rest: true exactly if the key is in the set |
| SkipList.SkipList.Insert | MyMealPrep/Pods/leveldb-library/db/skiplist.h:336-368 | adds exactly the key, and every memory a reader can come upon is one store of the protocol after the one before |
| SkipList.Iterator.Next | MyMealPrep/Pods/leveldb-library/db/skiplist.h:206-210 | at the node that follows in key order |
| SkipList.Iterator.Prev | MyMealPrep/Pods/leveldb-library/db/skiplist.h:212-221 | at the last node before, by a fresh search, or nowhere |
| SkipList.Iterator.Seek | MyMealPrep/Pods/leveldb-library/db/skiplist.h:223-226 | at the first node at or after the target |
| SkipList.Iterator.SeekToLast | MyMealPrep/Pods/leveldb-library/db/skiplist.h:233-239 | at the last node, or nowhere |
| MemTable.EntryRoundTrip | MyMealPrep/Pods/leveldb-library/db/memtable.cc:80-105 | key and value are read back from the bytes of an entry, with user key, sequence number and kind |
| MemTable.SeekFinds | MyMealPrep/Pods/leveldb-library/db/memtable.cc:107-125 | seeking to the lookup key passes by what the snapshot does not see, so the first entry found, if of that user key, is the newest visible one, and if not none is visible |
| MemTable.Table.Add | MyMealPrep/Pods/leveldb-library/db/memtable.cc:80-105 | adds exactly the entry, in its place in the order of internal keys |
| MemTable.Table.Get | MyMealPrep/Pods/leveldb-library/db/memtable.cc:107-135 | the newest entry visible at the snapshot decides: its value, or that the key is deleted; without one the memtable does not know |
| MemTable.BuildLookupKey | MyMealPrep/Pods/leveldb-library/db/dbformat.cc:121-137 | the memtable form of the lookup key: length, user key, sequence number with the kind sought first |
| WriteBatch.RepRoundTrip | MyMealPrep/Pods/leveldb-library/db/write_batch.cc:42-80 | header and records are read back: all operations in order, the count and the sequence number |
| Layout.BatchBytes | MyMealPrep/Pods/leveldb-library/db/write_batch.cc:5-14 | the bytes of a batch, number by number: sequence number, count, and records that begin with 1 for an insertion and 0 for a deletion |
| WriteBatch.WriteBatch.Put | MyMealPrep/Pods/leveldb-library/db/write_batch.cc:98-103 | one more operation, the sequence number as before |
| WriteBatch.WriteBatch.Delete | MyMealPrep/Pods/leveldb-library/db/write_batch.cc:105-109 | one more operation, the sequence number as before |
| WriteBatch.WriteBatch.Append | MyMealPrep/Pods/leveldb-library/db/write_batch.cc:144-148 | the operations of both batches in order |
| WriteBatch.WriteBatch.SetSequence | MyMealPrep/Pods/leveldb-library/db/write_batch.cc:94-96 | another sequence number, the operations as before |
| WriteBatch.WriteBatch.SetContents | MyMealPrep/Pods/leveldb-library/db/write_batch.cc:139-142 | the batch is the bytes handed over |
| WriteBatch.WriteBatch.Iterate | MyMealPrep/Pods/leveldb-library/db/write_batch.cc:42-80 | hands over the operations in order, and reports just the first thing wrong: truncated records, unknown tags, a wrong count |
| WriteBatch.WriteBatch.InsertInto | MyMealPrep/Pods/leveldb-library/db/write_batch.cc:132-137 | each operation enters under the next sequence number; of bytes that are no sound batch, those before the first bad record, with what is wrong |
| GroupCommit.BuildBatchGroup | MyMealPrep/Pods/leveldb-library/db/db_impl.cc:1260-1306 | the group is the longest front of the queue that the size limit, sync flags and batches without content allow, and its batch is theirs in order |
| GroupCommit.GroupIsOneByOne | MyMealPrep/Pods/leveldb-library/db/db_impl.cc:1205-1224 | a group written together leaves the memtable and sequence number that writing its members one at a time leaves |
| GroupCommit.DoesKeeps | MyMealPrep/Pods/leveldb-library/db/db_impl.cc:1185-1258 | every step between lock releases keeps the invariant of the protocol |
| GroupCommit.RunKeeps | MyMealPrep/Pods/leveldb-library/db/db_impl.cc:1185-1258 | so it holds over every interleaving of any number of writers |
| GroupCommit.OneAtWork | MyMealPrep/Pods/leveldb-library/db/db_impl.cc:1209-1226 | at most one writer is in the section without the lock, and it is the front of the queue |
| GroupCommit.EachFinishesOnce | MyMealPrep/Pods/leveldb-library/db/db_impl.cc:1239-1249 | finished and queued writers are together all that arrived, in order: each finishes exactly once |
| GroupCommit.VisibleIsOneByOne | MyMealPrep/Pods/leveldb-library/db/db_impl.cc:1185-1258 | at every moment what is visible at the published sequence number is what writing the finished batches one at a time gives; numbers rise without repeat, and a group being inserted lies wholly past them |
| GroupCommit.LogComesFirst | MyMealPrep/Pods/leveldb-library/db/db_impl.cc:1214-1226 | what is in the memtable is in the log, and what asked for a sync is synced before its writer is told so |
| ConcurrentRead.PlaceEmbedsOrder | MyMealPrep/Pods/leveldb-library/db/dbformat.cc:51-67 | internal keys embed in the reals with their order, user key rising and packed number falling, so what is proved of the skip list holds for the memtable |
| ConcurrentRead.RunKeeps | MyMealPrep/Pods/leveldb-library/db/memtable.cc:80-105 | over every interleaving of writers, stores and searches the list holds the memtable of the protocol, and at most the entry about to be inserted |
| ConcurrentRead.ReadWhileWriting | MyMealPrep/Pods/leveldb-library/db/memtable.cc:107-135 | a read at the number published at some moment, its search interleaved in any way with a group being inserted, ends at the newest entry that the batches finished by that moment, written one at a time, hold for the key, or at no entry of the key if they hold none |
| GroupCommit.WriteQueue.Enqueue | MyMealPrep/Pods/leveldb-library/db/db_impl.cc:1186-1198 | the writer joins the back of the queue: one step of the protocol |
| GroupCommit.WriteQueue.Begin | MyMealPrep/Pods/leveldb-library/db/db_impl.cc:1200-1214 | the front writer makes room, gathers its group, numbers it and lets go of the lock, or leaves with an error: one step |
| GroupCommit.WriteQueue.End | MyMealPrep/Pods/leveldb-library/db/db_impl.cc:1226-1256 | the leader publishes the sequence numbers and sees its whole group off: one step |
| GroupCommit.WriteQueue.InsertOne | MyMealPrep/Pods/leveldb-library/db/db_impl.cc:1223-1225 | one operation of the group enters the memtable: one step |
| HandleTable.HandleTable.FindPointer | MyMealPrep/Pods/leveldb-library/util/cache.cc:114-120 | the place of the entry in the chain of its bucket, or the end of that chain |
| HandleTable.HandleTable.Lookup | MyMealPrep/Pods/leveldb-library/util/cache.cc:74-76 | the table is a map: the entry under hash and key, if there is one |
| HandleTable.HandleTable.Insert | MyMealPrep/Pods/leveldb-library/util/cache.cc:78-92 | the map with that slot set, and the entry it displaced; growing included, so that there are never more entries than buckets |
| HandleTable.HandleTable.Remove | MyMealPrep/Pods/leveldb-library/util/cache.cc:94-102 | the map without that slot, and the entry that was there |
| HandleTable.HandleTable.Resize | MyMealPrep/Pods/leveldb-library/util/cache.cc:122-146 | rehashing keeps the map; the buckets are a power of two, at least four, and no more than it takes to have one for each entry |
| LruCache.RefKeeps | MyMealPrep/Pods/leveldb-library/util/cache.cc:217-223 | taking a handle keeps all invariants: usage is the charges of cached entries, each is in the table and in the list its count says, counts are handles plus the cache |
| LruCache.UnrefKeeps | MyMealPrep/Pods/leveldb-library/util/cache.cc:225-237 | so does giving one back, which deletes the entry if it was the last reference |
| LruCache.FinishEraseKeeps | MyMealPrep/Pods/leveldb-library/util/cache.cc:307-316 | an entry taken from the table leaves its list and the usage; the invariants hold again |
| LruCache.EvictMeans | MyMealPrep/Pods/leveldb-library/util/cache.cc:293-300 | what is dropped is a front part of the idle list, and nothing else changes; LruOrder.OrderIsByIdleTime says what the order of the list is |
| LruCache.EvictFits | MyMealPrep/Pods/leveldb-library/util/cache.cc:293-300 | no more is dropped than needed, and then the usage fits or nothing is idle |
| LruCache.InsertMeans | MyMealPrep/Pods/leveldb-library/util/cache.cc:266-303 | after Insert the usage is within the capacity or nothing is idle; the caller holds the new entry, and it is found under its key if the capacity is not zero |
| LruCache.EachDeletedOnce | MyMealPrep/Pods/leveldb-library/util/cache.cc:217-333 | over whole runs: the entries deleted so far stay deleted, in order; none of them twice, and once deleted an entry is never held or cached again |
| LruCache.DeletedWithLastReference | MyMealPrep/Pods/leveldb-library/util/cache.cc:225-237 | over whole runs: the deleter of an entry runs in exactly the step after which neither a client nor the cache refers to it any more |
| LruCache.DoesKeeps | MyMealPrep/Pods/leveldb-library/util/cache.cc:252-333 | every operation - lookup, release, insert, erase, prune, a change of capacity - keeps the invariants |
| LruCache.RunKeeps | MyMealPrep/Pods/leveldb-library/util/cache.cc:252-333 | so they hold in every state of a run from the empty cache |
| LruOrder.StepJoins | MyMealPrep/Pods/leveldb-library/util/cache.cc:208-253 | every operation leaves what stays in the idle list in its order, and adds at most one entry, which was not in it, at the end |
| LruOrder.OrderIsByIdleTime | MyMealPrep/Pods/leveldb-library/util/cache.cc:225-237 | over every run: of two idle entries one stands before the other in the list exactly if the last step in which it became idle is the earlier one |
| LruOrder.InsertDropsLeastRecent | MyMealPrep/Pods/leveldb-library/util/cache.cc:266-303 | over every run: an idle entry that an insertion drops, other than one of the same key, has been idle longer than every idle entry that the insertion leaves |
| LruCache.LRUCache.Lookup | MyMealPrep/Pods/leveldb-library/util/cache.cc:252-259 | the cached entry under hash and key, held by the caller from then on; otherwise nothing changes |
| LruCache.LRUCache.Release | MyMealPrep/Pods/leveldb-library/util/cache.cc:261-264 | gives one handle back: the step of the state machine that the theorems about runs, LruOrder.InsertDropsLeastRecent among them, are about |
| LruCache.LRUCache.Insert | MyMealPrep/Pods/leveldb-library/util/cache.cc:266-303 | the state that LruCache.InsertMeans describes, an entry of the same key displaced |
| LruCache.LRUCache.Erase | MyMealPrep/Pods/leveldb-library/util/cache.cc:305-321 | the entry leaves table and cache; it is deleted once nobody holds it |
| LruCache.LRUCache.Prune | MyMealPrep/Pods/leveldb-library/util/cache.cc:323-333 | all idle entries go and no other |
| Crc32c.MaskRoundTrip | MyMealPrep/Pods/leveldb-library/util/crc32c.h:29-43 | masking and unmasking undo each other |
| Crc32c.ValueConcat | MyMealPrep/Pods/leveldb-library/util/crc32c.cc:276-377 | extending over A, then B, is extending over A and B |
| Crc32c.SwathStep | MyMealPrep/Pods/leveldb-library/util/crc32c.cc:293-347 | one swath of 16 bytes in four interleaved remainders advances the folded checksum by those 16 bytes |
| Crc32c.WordStep | MyMealPrep/Pods/leveldb-library/util/crc32c.cc:349-358 | one more word with the remainders changing places advances it by four bytes |
| Crc32c.Extend | MyMealPrep/Pods/leveldb-library/util/crc32c.cc:276-377 | for tables that are linear and satisfy the stride equation, every length and every alignment: the byte-at-a-time checksum |
| Crc32cTables.TablesAreOk | MyMealPrep/Pods/leveldb-library/util/crc32c.cc:20-243 | the tables of the code are such tables: linear, from their entries at powers of two, and the four stride tables together advance a word by 16 bytes |
| Crc32cTables.ByteTableDivides | MyMealPrep/Pods/leveldb-library/util/crc32c.cc:20-63 | an entry of the byte table is the remainder of the byte after division by the polynomial of CRC32C (section 12.1 of RFC 3720) |
| Crc32cTables.ValueIsRemainder | MyMealPrep/Pods/leveldb-library/util/crc32c.cc:276-377 | the byte-at-a-time checksum is the complement of the remainder of bit-by-bit division by the polynomial, going on from the complement of the checksum so far |
| Crc32cTables.ValueOfMessage | MyMealPrep/Pods/leveldb-library/util/crc32c.cc:276-377 | the checksum of a message on its own: its first 32 bits complemented, divided bit by bit by the polynomial, and the remainder complemented |
| Crc32cTables.Extend | MyMealPrep/Pods/leveldb-library/util/crc32c.cc:276-377 | with these tables, every length and every alignment: the interleaved computation gives the byte-at-a-time checksum |
| Checksum.RoundTrip | MyMealPrep/Pods/leveldb-library/util/crc32c.h:29-43 | a masked checksum written as four bytes is read back |
| Layout.MaskedBits | MyMealPrep/Pods/leveldb-library/util/crc32c.h:29-32 | a masked checksum is the checksum turned right by 15 bits, plus 0xa282ead8 |
| Log.Writer.AddRecord | MyMealPrep/Pods/leveldb-library/db/log_writer.cc:34-80 | appends exactly the fragments of the record, which depend on the length of the file alone; so reopening at any length goes on with the same bytes |
| Log.Writer.EmitPhysicalRecord | MyMealPrep/Pods/leveldb-library/db/log_writer.cc:82-108 | appends checksum, length, type and payload |
| Layout.LogFragment | MyMealPrep/Pods/leveldb-library/db/log_writer.cc:82-108 | the bytes of a fragment, number by number: masked checksum of kind and payload, length in two bytes, the kind - 1 for a whole record, 2 for the first of several, 3 in between, 4 for the last - and the payload |
| Layout.LogBlocks | MyMealPrep/Pods/leveldb-library/db/log_writer.cc:34-80 | no fragment crosses a multiple of 32768 bytes; fewer than seven bytes before one are zeros |
| Log.Writer.constructor | MyMealPrep/Pods/leveldb-library/db/log_writer.cc:23-30 | reopening stands at the block offset of the length |
| Log.EmittedIsRead | MyMealPrep/Pods/leveldb-library/db/log_reader.cc:56-174 | a record wholly in the file is read back; one cut off anywhere reads as the end; neither is reported |
| Log.CrashPrefix | MyMealPrep/Pods/leveldb-library/db/log_reader.cc:56-174 | for any records, empty ones included, and any cut: exactly the records wholly inside are returned, in order, without a report |
| Log.CrashPrefixFromStart | MyMealPrep/Pods/leveldb-library/db/log_reader.cc:56-174 | the same for a log written from its start; uncut, all records come back |
| Log.RecordIsChecked | MyMealPrep/Pods/leveldb-library/db/log_reader.cc:56-174 | whatever bytes the file holds: a record read with checksums on is one fragment of kind 1, or fragments of kinds 2, 3 and 4 that follow each other directly, each inside one block and with its checksum |
| Log.Reader.ReadPhysicalRecord | MyMealPrep/Pods/leveldb-library/db/log_reader.cc:189-271 | through its block buffer the reader sees the physical records of the file, end and damage included |
| Log.Reader.ReadRecord | MyMealPrep/Pods/leveldb-library/db/log_reader.cc:56-174 | puts together the record the file has at the position, with the reports that the fragments call for |
| Coding.FixedWidths | MyMealPrep/Pods/leveldb-library/util/coding.h:60-85 | 32-bit and 64-bit numbers are read back from their bytes |
| Coding.VarintsRoundTrip | MyMealPrep/Pods/leveldb-library/util/coding.cc:112-169 | every 32-bit and 64-bit number is read back from its variable-width form, with what follows left over |
| Coding.VarintSizes | MyMealPrep/Pods/leveldb-library/util/coding.cc:47-101 | five bytes are enough for 32 bits, ten for 64 |
| Layout.FixedBytes | MyMealPrep/Pods/leveldb-library/util/coding.cc:11-33 | fixed-width numbers are written low bytes first |
| Layout.VarintBytes | MyMealPrep/Pods/leveldb-library/util/coding.cc:35-94 | variable-width numbers have seven bits to a byte, low ones first, the top bit set in all but the last byte, and no byte too many |
| Coding.EncodeVarint32 | MyMealPrep/Pods/leveldb-library/util/coding.cc:47-73 | the unrolled encoder writes the variable-width form |
| Coding.EncodeVarint64 | MyMealPrep/Pods/leveldb-library/util/coding.cc:81-90 | the loop writes the variable-width form |
| Coding.VarintLength | MyMealPrep/Pods/leveldb-library/util/coding.cc:103-110 | the length of the variable-width form |
| Coding.GetVarintPtr | MyMealPrep/Pods/leveldb-library/util/coding.cc:112-128 | the shift-and-or loop reads the number that the bytes stand for, modulo the width, or fails |
| Coding.GetVarint32Ptr | MyMealPrep/Pods/leveldb-library/util/coding.h:90-100 | the one-byte fast path agrees with the loop |
| Coding.LengthPrefixedRoundTrip | MyMealPrep/Pods/leveldb-library/util/coding.cc:98-101 | a length-prefixed string is read back, with what follows left over |
| Bloom.NoFalseNegatives | MyMealPrep/Pods/leveldb-library/util/bloom.cc:28-80 | the policy never turns away a key the filter was made from |
| Bloom.CreateFilter | MyMealPrep/Pods/leveldb-library/util/bloom.cc:28-54 | the loops set exactly the probe bits of the keys, in an array of at least 64 bits |
| Bloom.KeyMayMatch | MyMealPrep/Pods/leveldb-library/util/bloom.cc:56-80 | true exactly if all probe bits are set, or the filter is too short or of a later format |
| Bloom.DeltaTurns | MyMealPrep/Pods/leveldb-library/util/bloom.cc:73-73 | the distance between probes is the hash with its 32 bits turned right by 17 places |
| Bloom.ProbesOfKey | MyMealPrep/Pods/leveldb-library/util/bloom.cc:70-78 | the j-th probe of a key is (h + j * turned h) modulo 2^32, where bit i of the turned hash is bit (i + 17) modulo 32 of h |
| FilterBlock.FilterBlockBuilder.StartBlock | MyMealPrep/Pods/leveldb-library/table/filter_block.cc:21-27 | one filter for each 2 KiB window up to the block, keys in the window they came for |
| FilterBlock.FilterBlockBuilder.Finish | MyMealPrep/Pods/leveldb-library/table/filter_block.cc:35-49 | filters, their offsets, the offset of the array and the window size |
| Layout.FilterTail | MyMealPrep/Pods/leveldb-library/table/filter_block.cc:35-49 | a filter block ends with the offsets, four bytes each, the offset of these, and the number 11 |
| FilterBlock.ContentsAreRead | MyMealPrep/Pods/leveldb-library/table/filter_block.cc:77-88 | the reader finds the array, and the last filter ends where the array starts |
| FilterBlock.NoFalseNegatives | MyMealPrep/Pods/leveldb-library/table/filter_block.cc:90-104 | for any block offsets and keys fed to the builder and a policy without false negatives, the reader lets every key through at its block's offset |
| FilterBlock.BloomIsSound | MyMealPrep/Pods/leveldb-library/util/bloom.cc:28-80 | the Bloom policy is such a policy |
| Block.EntryRoundTrip | MyMealPrep/Pods/leveldb-library/table/block.cc:54-74 | shared length, rest and value are read back from the bytes of an entry |
| Block.DecodeEntryFast | MyMealPrep/Pods/leveldb-library/table/block.cc:54-74 | the one-byte short cut agrees with the general decoding |
| Block.BlockBuilder.Add | MyMealPrep/Pods/leveldb-library/table/block_builder.cc:72-106 | appends the pair; every restartInterval-th entry is a restart point with its whole key, and every other shares exactly its common prefix with the last key |
| Block.BlockBuilder.Finish | MyMealPrep/Pods/leveldb-library/table/block_builder.cc:62-70 | buffer, restart points and their number, laid out as the entries added |
| Layout.WordBytes | MyMealPrep/Pods/leveldb-library/table/filter_block.cc:40-44 | an array of words is their bytes one after the other, four each |
| Layout.BlockTail | MyMealPrep/Pods/leveldb-library/table/block_builder.cc:62-70 | after the entries the restart points and their number, four bytes each |
| BlockIter.Iter.Next | MyMealPrep/Pods/leveldb-library/table/block.cc:137-140 | key and value of the following entry, exactly as added |
| BlockIter.Iter.Prev | MyMealPrep/Pods/leveldb-library/table/block.cc:142-161 | of the entry before, reached by parsing on from a restart point; past the front the iterator is not valid |
| BlockIter.Iter.Seek | MyMealPrep/Pods/leveldb-library/table/block.cc:163-201 | for rising keys and any restart points: the first entry not before the target |
| BlockIter.Iter.SeekToFirst | MyMealPrep/Pods/leveldb-library/table/block.cc:203-206 | the first entry |
| BlockIter.Iter.SeekToLast | MyMealPrep/Pods/leveldb-library/table/block.cc:208-213 | the last entry |
| BlockIter.Iter.FindRestart | MyMealPrep/Pods/leveldb-library/table/block.cc:164-190 | binary search: the last restart point with a key before the target, or the first if there is none; all entries before it are before the target |
| InternalKeys.KeyLessIsBefore | MyMealPrep/Pods/leveldb-library/db/dbformat.cc:51-67 | comparing encoded internal keys is comparing user key, then sequence number and kind, the newest first |
| InternalKeys.FindShortestSeparator | MyMealPrep/Pods/leveldb-library/db/dbformat.cc:69-86 | never longer, and exactly this: the start, unless a byte of its user key before the last can be raised without reaching the limit; then that byte raised, the rest cut off, with the number that comes first |
| InternalKeys.FindShortSuccessor | MyMealPrep/Pods/leveldb-library/db/dbformat.cc:88-98 | never longer, and exactly this: the key, unless a byte of its user key before the last is below 0xff; then the first such byte raised, the rest cut off, with the number that comes first |
| Layout.InternalKeyBytes | MyMealPrep/Pods/leveldb-library/db/dbformat.cc:14-23 | an internal key is the user key, a byte for the kind, and seven bytes of sequence number, low ones first |
| Table.FoundIsFirst | MyMealPrep/Pods/leveldb-library/table/table.cc:216-244 | what a seek in the block chosen by the index finds is the first entry of the whole table at or after the key |
| Table.SameUserInBlock | MyMealPrep/Pods/leveldb-library/table/table.cc:216-244 | if the first entry at or after the key has its user key, it is in that block: no shortened separator can come between |
| Table.SeparatorsRise | MyMealPrep/Pods/leveldb-library/table/table_builder.cc:94-116 | shortened separators stay in strictly rising order |
| Footer.HandleRoundTrip | MyMealPrep/Pods/leveldb-library/table/format.cc:15-29 | block handles are read back |
| Footer.RoundTrip | MyMealPrep/Pods/leveldb-library/table/format.cc:31-62 | the footer has its fixed length, and its two handles are read back from it |
| Layout.FooterBytes | MyMealPrep/Pods/leveldb-library/table/format.cc:31-40 | two handles, zeros up to 40 bytes, and 57 fb 80 8b 24 75 47 db |
| Table.Table.InternalGet | MyMealPrep/Pods/leveldb-library/table/table.cc:216-244 | hands back the first entry at or after the key whenever it has the key's user key, though it reads one block and may skip it on a filter miss; and never anything but that first entry |
| TableBuilder.TableBuilder.Add | MyMealPrep/Pods/leveldb-library/table/table_builder.cc:94-123 | for strictly rising keys the table under construction holds the entries so far, with their index and filters; every data block written reached the block size with its last entry and not before, and the open one has not |
| TableBuilder.TableBuilder.AddIndexEntry | MyMealPrep/Pods/leveldb-library/table/table_builder.cc:103-111 | the index entry of the last block gets a key that separates it from the next, shortened as InternalKeys.FindShortestSeparator does |
| TableBuilder.TableBuilder.Flush | MyMealPrep/Pods/leveldb-library/table/table_builder.cc:125-139 | the data block is in the file and can be read back; entries, index and filter windows stay right |
| TableBuilder.TableBuilder.WriteBlock | MyMealPrep/Pods/leveldb-library/table/table_builder.cc:141-196 | block, type and masked checksum are appended, and reading at the handle gives the block back |
| Layout.BlockTrailer | MyMealPrep/Pods/leveldb-library/table/table_builder.cc:178-196 | a block is followed by a zero byte and the masked checksum of both |
| TableBuilder.TableBuilder.Finish | MyMealPrep/Pods/leveldb-library/table/table_builder.cc:198-240 | the file is a complete table of exactly the entries added: data blocks, of which only the last may be short of the block size, filter, metaindex, index and footer, each to be read back at the place that the one before it names |
| TableBuilder.TableBuilder.WriteMeta | MyMealPrep/Pods/leveldb-library/table/table_builder.cc:213-226 | the metaindex block has the one entry that leads from the name of the policy to the filter, or none without a filter |
| TableBuilder.TableBuilder.WriteFooter | MyMealPrep/Pods/leveldb-library/table/table_builder.cc:240-252 | with the footer appended the file alone leads to everything in it |
| TableBuilder.ReadFilter | MyMealPrep/Pods/leveldb-library/table/table.cc:84-136 | a filter is taken up exactly if the file has one under the name of the policy, and it covers every data block |
| TableBuilder.FilteredIsCovered | MyMealPrep/Pods/leveldb-library/table/filter_block.cc:90-104 | every user key of every data block passes the filter at that block's offset |
| TableBuilder.InternalPolicyIsSound | MyMealPrep/Pods/leveldb-library/db/dbformat.cc:105-119 | filtering on user keys keeps the absence of false negatives |
| TableBuilder.OpenTable | MyMealPrep/Pods/leveldb-library/table/table.cc:38-136 | from the bytes of the file alone, through footer and metaindex: the table opened has exactly the entries added |
| VersionEdit.FieldRoundTrip | MyMealPrep/Pods/leveldb-library/db/version_edit.cc:107-204 | each kind of field is read back from tag and body, with what follows left over |
| Layout.EditBytes | MyMealPrep/Pods/leveldb-library/db/version_edit.cc:41-91 | the bytes of each kind of field behind its number, which is 1 to 7 or 9 |
| VersionEdit.EditRoundTrip | MyMealPrep/Pods/leveldb-library/db/version_edit.cc:41-204 | decoding an encoded edit restores it exactly, if and only if the edit decoded into has no compaction pointers left |
| VersionEdit.VersionEdit.EncodeTo | MyMealPrep/Pods/leveldb-library/db/version_edit.cc:41-85 | the fields that the edit has, in order |
| VersionEdit.VersionEdit.DecodeFrom | MyMealPrep/Pods/leveldb-library/db/version_edit.cc:107-204 | consumes fields until the bytes end, or stops at the first that is wrong, with its message |
| VersionEdit.VersionEdit.Clear | MyMealPrep/Pods/leveldb-library/db/version_edit.cc:26-39 | everything but the compaction pointers |
| Manifest.FoldIsReplay | MyMealPrep/Pods/leveldb-library/db/version_set.cc:650-754 | folding any sequence of edits through one builder gives, level by level, the files that applying them one version at a time gives, if no edit re-adds a number to a level that had it |
| Manifest.EncodedIsDecoded | MyMealPrep/Pods/leveldb-library/db/version_edit.cc:41-204 | the records of any edits decode to those edits |
| Manifest.CrashRecovers | MyMealPrep/Pods/leveldb-library/db/version_set.cc:924-971 | after a crash at any byte of the manifest the edits read back are just those whose records are there in full |
| Manifest.RebuiltIsReplay | MyMealPrep/Pods/leveldb-library/db/version_set.cc:990-1003 | the version recovered is the one that applying those edits one by one leaves, if no edit adds a file number again to a level that had it |
| Recovery.NotBackAgain | MyMealPrep/Pods/leveldb-library/db/version_set.h:193-194 | no edit of a run does: numbers are handed out once, and files only move down |
| Recovery.EditIsStep | MyMealPrep/Pods/leveldb-library/db/version_set.cc:801-828 | each background step of the database is the version that its logged edit leads to, with outputs that are new or come from higher up |
| Recovery.RunIsTracked | MyMealPrep/Pods/leveldb-library/db/version_set.cc:990-1003 | the records of a run, replayed one by one, lead to the version the run has reached |
| Recovery.CrashRecoversRun | MyMealPrep/Pods/leveldb-library/db/version_set.cc:886-1011 | for every run of the database and every byte at which a crash may cut its manifest: recovery reads without a report just the records that are there in full, and rebuilds the version that was current after the last of their steps; the database comes up in a state where the invariant holds |
| LogReplay.RecoverLogFile | MyMealPrep/Pods/leveldb-library/db/db_impl.cc:370-458 | replay of a log file puts the batches of its records into the memtable, in order and under their numbers, and finds the largest number; short records and unsound batches are passed over, or end it if errors count |
| LogReplay.CutLogIsReplayed | MyMealPrep/Pods/leveldb-library/db/db_impl.cc:370-458 | of a log cut at any byte exactly the batches that are there in full come back, without a report |
| LogReplay.SyncedSurvives | MyMealPrep/Pods/leveldb-library/db/db_impl.cc:1214-1226 | over every run of the writers: what a writer asked to be synced and was told is well comes back from any cut of the log that keeps the bytes synced |
| CrashReads.ReadsAreWrites | MyMealPrep/Pods/leveldb-library/db/db_impl.cc:688-767 | over every run: a read at any number from the oldest snapshot on returns what the batches written, one after the other, say; nothing of switches, flushes, moves and compactions shows, for keys that no compaction brings back in the tables |
| CrashReads.CrashRecoversReads | MyMealPrep/Pods/leveldb-library/db/db_impl.cc:282-458 | for every run and a crash at any moment, the logs of the memtables cut at any byte: manifest and logs are read without a report, the database comes up in a state where the invariant holds, and reads as it did after the last batch that is whole in the logs, for keys that no compaction brings back in the tables |
| Manifest.Recover | MyMealPrep/Pods/leveldb-library/db/version_set.cc:886-1011 | reads the manifest, checks comparators and missing counters, and installs that version with its counters |
| Manifest.DecodedLevels | MyMealPrep/Pods/leveldb-library/db/version_edit.cc:97-105 | no decoded edit names a level that does not exist |
| NanopbRoundTrip.RoundTrip | MyMealPrep/Pods/nanopb/pb_decode.c:1078-1090 | for every descriptor tree with distinct nonzero tags - required, optional, repeated, oneof, nested - and every well-typed message that fits its struct: decoding the encoding gives the message back |
| NanopbRoundTrip.NullterminatedRoundTrip | MyMealPrep/Pods/nanopb/pb_decode.c:298-319 | so it does from an encoding ended by a zero, whatever bytes follow |
| NanopbRoundTrip.BytesTaken | MyMealPrep/Pods/nanopb/pb_decode.c:1434-1551 | on any bytes: a byte string, text or fixed-length byte string is taken exactly if it fits its field; a text up to its zero byte, an empty string as zeros of the fixed length |
| NanopbWire.UnknownIsPassed | MyMealPrep/Pods/nanopb/pb_decode.c:321-331 | wherever a field may come, of a message in any state: a field of another tag - a varint of any size, eight bytes, a length and that many bytes, or four bytes - changes nothing |
| NanopbWire.UnknownFieldsDecode | MyMealPrep/Pods/nanopb/pb_decode.c:980-1030 | any number of such fields, before, between and after the fields of an encoding, leave the message that is decoded as it was |
| NanopbWire.FieldOnTheWire | MyMealPrep/Pods/nanopb/pb_encode.c:675-707 | the bytes of a field, without its wire type function: key 8 * tag + 0 and a varint for bool, plain, unsigned and zig-zag numbers, + 5 and four bytes, + 1 and eight bytes for the fixed ones, + 2 and a length with its bytes for strings, messages and packed arrays; one for each element of other arrays |
| NanopbWire.LackedFieldIsPassed | MyMealPrep/Pods/nanopb/pb_decode.c:321-331 | a decoder whose descriptor lacks a field passes over exactly what the encoder wrote for it |
| NanopbWire.OlderDescriptorDecodes | MyMealPrep/Pods/nanopb/pb_decode.c:928-1076 | a message decodes under every descriptor that has only some of its fields, to just those fields of it |
| NanopbRequired.DecodesIfComplete | MyMealPrep/Pods/nanopb/pb_decode.c:1033-1073 | on any bytes: decoding succeeds exactly if each field can be decoded and a key with the tag of each of the first 64 required fields was read |
| NanopbRequired.OmittedField | MyMealPrep/Pods/nanopb/pb_decode.c:1033-1073 | an encoding with one field left out: decoding fails if that is one of the first 64 required fields, and otherwise gives the message without it |
| NanopbMerge.MergeReads | MyMealPrep/Pods/nanopb/pb_decode.c:406-483 | reading the encoding of one message into another merges them: later values replace earlier ones, arrays are joined, messages inside are merged, another member of a oneof is cleared; it fails exactly if an array grows too long |
| NanopbMerge.ConcatDecodes | MyMealPrep/Pods/nanopb/pb_decode.c:928-1076 | the encodings of two messages, one after the other, decode to the two merged (section "Last One Wins" of the Encoding guide) |
| NanopbMerge.UnpackedIsRead | MyMealPrep/Pods/nanopb/pb_decode.c:450-461 | an array that could be packed reads the same when each element comes with its own tag |
| NanopbRoundTrip.ValueReads | MyMealPrep/Pods/nanopb/pb_decode.c:1321-1551 | each type of value is read back, with what follows left over |
| NanopbRoundTrip.PackedReads | MyMealPrep/Pods/nanopb/pb_decode.c:418-448 | a packed array is read back element by element and uses up its bytes |
| NanopbRoundTrip.FieldsRead | MyMealPrep/Pods/nanopb/pb_decode.c:928-1034 | from any field on, decoding the rest of an encoding completes the message and goes on with what follows |
| NanopbSound.DecodedIsSound | MyMealPrep/Pods/nanopb/pb_decode.c:1078-1090 | for arbitrary bytes: a message that decoding accepts is well typed, inside the bounds of its arrays, byte strings and texts, and sets at most one member of each oneof |
| NanopbSound.DecodedIsStable | MyMealPrep/Pods/nanopb/pb_decode.c:1078-1090 | encoding a decoded message and decoding again changes nothing, even for bytes that no encoder writes |
| NanopbSound.DefaultSound | MyMealPrep/Pods/nanopb/pb_decode.c:911-922 | so is the message of default values |
| NanopbDecode.Varint32Reads | MyMealPrep/Pods/nanopb/pb_decode.c:187-247 | the 32-bit decoder with its overflow checks reads back every 32-bit number |
| NanopbDecode.Varint32Exactly | MyMealPrep/Pods/nanopb/pb_decode.c:187-247 | of the 64-bit numbers the 32-bit decoder takes exactly those below 2^32, and those with bits 31 and 63 set whose groups of seven bits from bit 35 on are all ones or all zeros; of these the low 32 bits |
| NanopbDecode.FieldNumberReads | MyMealPrep/Pods/nanopb/pb_decode.c:1332-1415 | signed, unsigned and zig-zag numbers are taken back in fields of 8, 16, 32 and 64 bits, through sign extension and truncation |
| NanopbDecode.FieldIndex | MyMealPrep/Pods/nanopb/pb_common.c:78-96 | a field with the tag, or none exactly if no field has it |
| NanopbEncoder.OStream.BufWrite | MyMealPrep/Pods/nanopb/pb_encode.c:74-84 | exactly the bytes are appended in the buffer |
| NanopbEncoder.OStream.Write | MyMealPrep/Pods/nanopb/pb_encode.c:103-126 | succeeds exactly if the bytes fit; counted only, on a sizing stream |
| NanopbEncoder.VarintBytes | MyMealPrep/Pods/nanopb/pb_encode.c:608-628 | the ten-byte buffer is enough, and holds the variable-width form |
| NanopbEncoder.OStream.EncodeSvarint | MyMealPrep/Pods/nanopb/pb_encode.c:630-639 | shift and complement on 64 bits write the zig-zag number |
| NanopbEncoder.OStream.EncodeFixed32 | MyMealPrep/Pods/nanopb/pb_encode.c:641-650 | four bytes, least significant first |
| NanopbEncoder.OStream.EncodeFixed64 | MyMealPrep/Pods/nanopb/pb_encode.c:653-666 | eight bytes, least significant first |
| NanopbEncoder.OStream.EncodeString | MyMealPrep/Pods/nanopb/pb_encode.c:709-715 | length and bytes, or failure exactly if they do not fit |
| NanopbEncoder.OStream.EncodeValue | MyMealPrep/Pods/nanopb/pb_encode.c:769-912 | the encoder of the field's type writes the value, and fails exactly for a byte string too large or for want of room |
| NanopbEncoder.OStream.EncodePacked | MyMealPrep/Pods/nanopb/pb_encode.c:167-207 | the size, by multiplication or by a sizing pass, is that of the elements then written |
| NanopbEncoder.OStream.EncodeArray | MyMealPrep/Pods/nanopb/pb_encode.c:147-236 | nothing for an empty array, failure exactly for too many elements, one that cannot be encoded or want of room |
| NanopbEncoder.OStream.EncodeBasicField | MyMealPrep/Pods/nanopb/pb_encode.c:341-426 | required, optional, repeated and oneof fields are written exactly if present, with the keys and payloads that NanopbWire.FieldOnTheWire spells out |
| NanopbEncoder.OStream.EncodeSubmessage | MyMealPrep/Pods/nanopb/pb_encode.c:717-765 | the outcome is that of length and message, although it is computed in two passes |
| NanopbEncoder.OStream.WriteSubmessage | MyMealPrep/Pods/nanopb/pb_encode.c:742-765 | after a successful sizing pass the second pass cannot fail and writes exactly the size announced, so "submsg size changed" is never reported |
| NanopbEncoder.OStream.EncodeMessage | MyMealPrep/Pods/nanopb/pb_encode.c:528-550 | success exactly if all fields can be encoded and the encoding fits; then exactly the encoding is appended, whose bytes NanopbWire.FieldOnTheWire spells out |
| NanopbEncoder.OStream.EncodeNullterminated | MyMealPrep/Pods/nanopb/pb_encode.c:557-565 | the encoding and a zero |
| NanopbEncoder.GetEncodedSize | MyMealPrep/Pods/nanopb/pb_encode.c:567-576 | the sizing stream predicts the length of the encoding |
| NanopbEncoder.FittingMessage | MyMealPrep/Pods/nanopb/pb_encode.c:155-156 | every message that fits its struct can be encoded |
| NanopbEncoder.OverlongIsRefused | MyMealPrep/Pods/nanopb/pb_encode.c:155-156 | a message with an array longer than its field allows, or a byte string longer than its array, cannot be encoded |
| NanopbIter.FieldIter.Next | MyMealPrep/Pods/nanopb/pb_common.c:20-76 | the next field with its place and required-field number, or the first again |
| NanopbIter.FieldIter.Find | MyMealPrep/Pods/nanopb/pb_common.c:78-96 | going round from anywhere, found exactly if some field has the tag; if not, back where it was |
| NanopbIter.SpotIsOffset | MyMealPrep/Pods/nanopb/pb_common.c:20-76 | the running offsets are those of the struct that the table was made for, members of a oneof sharing theirs |
| NanopbDecoder.IStream.Read | MyMealPrep/Pods/nanopb/pb_decode.c:102-137 | exactly the next bytes, or failure exactly if there are fewer |
| NanopbDecoder.IStream.DecodeVarint32Eof | MyMealPrep/Pods/nanopb/pb_decode.c:187-247 | the loop reads what NanopbDecode.Varint32 says, and reports the end of the stream only before the first byte |
| NanopbDecoder.IStream.DecodeVarint | MyMealPrep/Pods/nanopb/pb_decode.c:255-275 | the 64-bit loop of at most ten bytes |
| NanopbDecoder.IStream.DecodeSvarint | MyMealPrep/Pods/nanopb/pb_decode.c:1272-1284 | complement and shift on 64 bits read the zig-zag number |
| NanopbDecoder.IStream.DecodeTag | MyMealPrep/Pods/nanopb/pb_decode.c:298-319 | tag and wire type; a zero ends the message, and so does the end of the stream before the first byte, which is not an error |
| NanopbDecoder.IStream.SkipField | MyMealPrep/Pods/nanopb/pb_decode.c:321-331 | passes over exactly one field of the wire type; NanopbWire.UnknownIsPassed says what that comes to on literal bytes |
| NanopbDecoder.IStream.MakeSubstream | MyMealPrep/Pods/nanopb/pb_decode.c:372-385 | a stream over exactly the announced bytes, or failure if the parent has fewer |
| NanopbDecoder.IStream.CloseSubstream | MyMealPrep/Pods/nanopb/pb_decode.c:387-400 | the parent goes on behind them, read or not |
| NanopbDecoder.Clamped | MyMealPrep/Pods/nanopb/pb_decode.c:1332-1415 | casting to the width of the field and comparing accepts exactly the numbers in range |
| NanopbDecoder.IStream.DecodeBytes | MyMealPrep/Pods/nanopb/pb_decode.c:1434-1551 | byte strings, texts and fixed-length byte strings, refused before copying if they do not fit |
| NanopbDecoder.IStream.DecodeSubmessage | MyMealPrep/Pods/nanopb/pb_decode.c:1506-1528 | array elements start from default values, other messages are merged into what is there |
| NanopbDecoder.IStream.DecodePacked | MyMealPrep/Pods/nanopb/pb_decode.c:418-448 | takes elements while there is room; bytes left over are an error |
| NanopbDecoder.IStream.DecodeStaticField | MyMealPrep/Pods/nanopb/pb_decode.c:406-483 | required, optional, repeated and oneof fields, packed or not, as the wire type says |
| NanopbDecoder.IStream.DecodeNoinit | MyMealPrep/Pods/nanopb/pb_decode.c:928-1076 | the loop over tags is the decoding function, the bit field of required fields included: failure exactly if a field cannot be decoded or one of the first 64 required fields is missing, as NanopbRequired.DecodesIfComplete has it |
| NanopbDecoder.RequiredFieldsSeen | MyMealPrep/Pods/nanopb/pb_decode.c:1041-1073 | comparing the bit field word by word succeeds exactly if each of the first 64 required fields was seen |
| NanopbDecoder.MessageDefaults | MyMealPrep/Pods/nanopb/pb_decode.c:839-922 | default values field by field, nested messages included |
| NanopbDecoder.IStream.Decode | MyMealPrep/Pods/nanopb/pb_decode.c:1078-1090 | decoding into default values, to which NanopbRequired.DecodesIfComplete and NanopbWire.UnknownFieldsDecode apply |

## Left out

* The memtable flush nested in a running compaction; shutdown in the middle of one; I/O errors other than where a step
  names them.
* Compaction scores in floating point, seek counters and read sampling. Of manual compactions the loop that asks for
  round after round is not modelled. The size limits are parameters.
* User keys of the tree and iterator modules are real numbers, which stand for byte strings by
  `Bytewise.RankEmbedsOrder`; the sizes of table files are a function parameter.
* Files are byte strings with append and truncation. Deleting obsolete files, locks and file names are not modelled.
* Corrupted keys and tables: properties are about files that the code wrote or that were cut off. The log reader's paths
  for damage are modelled; of a damaged log it is proved what a record that is read is made of, not which records
  survive.
- Log.Reader.ReadRecord: reads from the start of the file; a reader with a positive initial offset, and the
  resynchronising it does, is not modelled.
- Log.Reader.ReadPhysicalRecord: the same, and with it the record type for blocks before the initial offset.
- TableBuilder.TableBuilder.Finish: needs a file shorter than 2^64 bytes and a filter block shorter than 2^32, the
  widths of their offsets; properties blocks and Snappy compression are not modelled.
- TableBuilder.OpenTable: reads files that `TableBuilder.TableBuilder.Finish` has written; the error paths for other
  files are not modelled.
- Compaction.VersionSet.PickCompaction: whether a compaction is due, and why, comes in as a parameter
  (`Compaction.Trigger`).
- Builder.Builder.Apply: the compaction pointers of an edit, which go to the version set and not to the files, are not
  applied.
- SkipList.SkipList.Insert: the height is an argument instead of a random number; stores and loads are sequentially
  consistent steps, memory orders are not modelled.
- MemTable.Table.Add: keeps the entries in one sorted list, as the `SkipList` module proves of the bottom level;
  reference counts and the arena are not modelled.
- GroupCommit.WriteQueue.Begin: whether there is room is an argument; waiting for background work is not modelled.
- Compaction.VersionSet.LogAndApply: changes the version in memory; the manifest records it writes are in `Manifest`.
- Manifest.Recover: starts from the bytes of the manifest; the lookup through the CURRENT file, the marking of file
  numbers as used and the reuse of a manifest are not modelled.
- Recovery.CrashRecoversRun: is about the manifest of one run from the empty database.
- CrashReads.CrashRecoversReads: the logs are those of the two memtables, without file numbers, and one run from the
  empty database writes them; a newer log with records beside an older one that lost some is not covered; tables written
  out when replay fills a memtable are not modelled, all that is replayed is one memtable.
- ConcurrentRead.ReadWhileWriting: is about the memtable written to; stores and loads are sequentially consistent.
- LruCache.LRUCache.Insert: hashing, sharding over sixteen caches and the destructor are not modelled.
- Crc32cTables.TablesAreOk: of each table the eight entries at powers of two are written down; the other entries of the
  arrays are not compared with their linear combinations. The accelerated variant is not modelled.
- NanopbDecoder.IStream.DecodeNoinit: the struct being filled is a value that is passed in and out, not memory; what a
  failed decoding leaves in it is not modelled. Extensions, callbacks, dynamic allocation and arrays without a counter
  are not modelled.
- NanopbDecoder.MessageDefaults: default values declared in the descriptor are not modelled; every default is zero or
  empty.
- NanopbDecoder.IStream.DecodeVarint32Eof: bit positions do not wrap, as they do in the code after 36 bytes of one
  number where the fastest type of at least eight bits has just eight.
- NanopbEncoder.OStream.EncodeMessage: sizes do not wrap at the width of `size_t`; implicit presence of proto3 is not
  modelled.
- NanopbRoundTrip.RoundTrip: needs an encoding shorter than 4 GiB, as lengths are 32 bits on the way in.
* nanopb built with lengths narrower than 32 bits: the header of a byte array is `Nanopb.BYTES_HEADER`, as this
  repository builds nanopb (`MyMealPrep/Pods/Target Support Files/nanopb/nanopb.release.xcconfig:3`).
* Arena, statistics, loggers, the environment, the C interface, repair, dump and test programs.
* The Swift code, and the other libraries of the repository.
