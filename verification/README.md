# Models of the vendored storage, event-loop and wire-format code

The applications in this repository vendor three C and C++ libraries. This project models the parts of
them that are hardest to get right, in Dafny, and proves what they promise. Each module keeps the form of
the code it models: what the code changes in place is a class or an array here, with methods and loops;
what it computes is a function; a protocol between threads is a state machine over its atomic steps.

- **LevelDB** keeps several versions of every key. `MvccStore` says what that means: at a sequence, the
  newest visible entry wins and a tombstone hides. `DbFormat` holds the key encoding and its order.
  `DbIterator` is the two-way iterator, proved to move as a plain cursor over the live keys. `Compaction`
  is the loop that drops entries; `LsmStore` is the whole store as a state machine over layers, snapshots
  and compactions, with the exact condition under which every read that anyone can still make is kept.
  Below it, `VersionFiles` searches the files of a level, `CompactionInputs` picks the inputs of a
  compaction, `StoredInputs` joins these files with the store, and `LevelRanges` and `GaplessInputs` say
  when the files of a level stay disjoint. `Durability` covers memtable switches, log files, the manifest
  and recovery, and says exactly when an acknowledged write can be lost; `SyncedLogs` adds crashes of the
  machine, and `Reopening` that a crashed database can always be opened again. `WriteQueue` is group
  commit. The log is written in 32 KiB blocks (`LogFormat`, `LogWriter`, into a file that may fail,
  `PosixFile`) and read back, whole, cut or damaged (`LogReader`) or written on behind a torn end
  (`TornLogs`).
- **libuv** brings a pointer-linked binary heap (`Heap`), timers (`TimerLoop`), circular queues (`Queue`),
  a thread pool (`ThreadPool`, and `ThreadPoolOrder` for the order in which it works), internationalised host
  names (`Utf8`, `Punycode`, `PunycodeDeltas`, `Idna`; two labels in full in `PunycodeExamples`) and address
  text (`Inet4`, and `Inet6Forms`, `Inet6Vars`, `Inet6Reading`, `Inet6Parser`, `Inet6`; `InetExamples`).
- **nanopb** encodes and decodes Protocol Buffers messages by a field table: streams (`PbStream`), varints
  (`PbVarint`), the cyclic field iterator (`PbFieldIter`), schemas, messages and their bytes (`PbMessage`),
  what a sequence of fields on the wire means (`PbMeaning`), what becomes of each field (`PbSame`), the
  encoder (`PbEncode`), the decoder (`PbDecode`) and both together (`PbCodec`). `PbExamples` has fields byte
  by byte.

`Wrappers`, `Bytes` and `Arith` hold what several of them need. `dafny verify dfyconfig.toml` checks the
project.

Choices that run through the models:

- A user key is its rank under the user's comparator; `DbFormat.InternalCompareIsBefore` connects ranks
  with keys as bytes.
- Integer widths are written out where the code can reach them: 32-bit arithmetic in `Idna` and
  `PbVarint`, 64-bit loop time in `TimerLoop`, 16-bit lengths in `LogFormat`, the 8-bit bit position of
  the 32-bit varint decoder.
- Buffers of the Punycode encoder are arrays, and everything said about its output holds for the part
  that fits; the decoder it is compared with is the one of section 6.2 of RFC 3492.

Where the code does less than it seems to, with the exact condition where it does what it promises:

- A write that LevelDB acknowledges can be lost. An append that fails is not remembered
  (`Durability.FailedAppendLoses`), and after a crash within an append a log may be reused
  (`Durability.ReusedTornLogLoses`); what is then appended behind the torn end is dropped with the rest of
  its block (`TornLogs.LostBehindTorn`, and `TornLogs.ReusedLogIsRead` says which records these are).
  `Durability.LossIffTorn` says when the next write is in danger,
  `Durability.AcknowledgedWritesSurviveIff` when all is well over a run, and
  `Durability.CleanRunsAreDurable` how a caller avoids it. From the next block on everything is read
  again (`LogReader.WrittenBehindIsRead`), but for a checksummed record of type 5, which the reader takes
  for the end of the file (`LogReader.FalseEndHides`).
- A synced write does not put every earlier one on the disk: the log is not synced when the memtable is
  switched, so that a crash of the machine can cost a write and not a later one
  (`SyncedLogs.EarlierIsLost`). `SyncedLogs.EarlierAreSyncedIff` says when it does, `SyncedLogs.CutOffIff`
  what such a crash can cost, and `SyncedLogs.SyncedWritesSurviveIff` that a synced write itself is lost
  only behind a torn end.
- A deleted value can come back in LevelDB. Boundary files are added to the inputs from the level that is
  compacted, and not to those from the next one, so that an older entry of a key may be left there
  (`CompactionInputs.BoundaryOfNextIsLeft`); when its deletion is dropped, a read at a held snapshot
  changes (`LsmStore.DeletedComesBack`). `LsmStore.SnapshotIsolation` says exactly when not, and
  `StoredInputs.ClosedIffNoBoundary` which files show that it cannot happen.
- A memtable flushed between the inputs of a manual compaction, into its output level, overlaps the
  output, and its keys are not found any more (`LevelRanges.GapFlushLosesKey`). Exactly such a flush makes
  an overlap possible (`LevelRanges.FlushInGapIff`, over runs `LevelRanges.LevelsStayDisjoint`), and there
  is none without manual compactions (`GaplessInputs.WithoutManualCompactions`).
- `ThreadPool.DoneTwice`: a request that was cancelled still looks queued after its `done`, since a removed
  node keeps its links (`Queue.Remove`); cancelled again, for instance in that `done`, it has `done` called
  again. `ThreadPool.DoneOnceIff` says that nothing else does this.
- `Utf8.MalformedAccepted`: the UTF-8 decoder tests only the exclusive or of the later bytes' top bits, so
  some sequences that are no UTF-8 are accepted. `Utf8.AcceptedIsWellFormed` says exactly when an accepted
  sequence is well-formed.
- The switch on `*p - pe` (`InstaClone/Pods/Libuv-gRPC/src/idna.c:35`) never sees 2, and sees 1 only where
  the loop macro decodes once more at the end of the text, whose result is not used
  (`Utf8.DecodeAtEnd`). So a text that ends within a code point is decoded from up to three bytes behind
  its end (`Utf8.Decode1`). `Idna.ToAscii` says what becomes of it.
- `PbVarint.AcceptsMore`: the 32-bit varint decoder accepts values that are neither of 32 bits nor
  sign-extended negative ones. `PbVarint.DecodeVarint32Eof` says exactly what it accepts, and
  `PbVarint.Fits32Iff` which of that is right.
- `TimerLoop.RepeatIsLater`: at loop time 2^64 - 1 a repeating timer is due again at once, and running the
  timers never ends (`TimerLoop.Loop.RunTurns`). Below that time, or without repeating timers, it does
  (`TimerLoop.Loop.RunTimers`).
- In `inet_ntop6` (`InstaClone/Pods/Libuv-gRPC/src/inet.c:129-131`) a run of seven zero words never lets
  the loop reach its test at word six, so that part of the condition decides nothing.
- `inet_ntop6` with a buffer of size zero writes nothing and reports success (`Inet6.Ntop6`).

## Model

| member | source | states |
|---|---|---|
| MvccStore.ReadsIsTotalAndUnique | InstaClone/Pods/leveldb-library/db/db_impl.cc:1100-1145 | The meaning of a store at a sequence (newest visible entry wins, a tombstone hides) gives every key exactly one answer |
| DbFormat.ParseOfAppend | InstaClone/Pods/leveldb-library/db/dbformat.cc:14-23 | Parsing an encoded internal key gives the key back, for every sequence of 56 bits |
| DbFormat.AppendOfParse | InstaClone/Pods/leveldb-library/db/dbformat.h:165-175 | Bytes parse if and only if they are the encoding of some key, and then of the key that was parsed |
| DbFormat.KeyInBytes | InstaClone/Pods/leveldb-library/db/dbformat.cc:14-23 | Behind the user key one byte of type, 1 for a value and 0 for a deletion, and seven of sequence, low byte first |
| DbFormat.InternalCompareIsBefore | InstaClone/Pods/leveldb-library/db/dbformat.cc:51-67 | The comparator on encoded keys is the order the store's meaning rests on: user key up, sequence and type down, both strict directions |
| DbFormat.LookupKeySeesVisible | InstaClone/Pods/leveldb-library/db/dbformat.cc:121-138 | The lookup key for (user key, s) sorts at or before exactly those entries of that key that are visible at s |
| DbFormat.SeparatorSeparates | InstaClone/Pods/leveldb-library/db/dbformat.cc:69-86 | A shortened separator is no longer than the start key, at or after it, and before the limit: the two asserts of the code |
| DbIterator.LiveEntriesAreNewest | InstaClone/Pods/leveldb-library/db/db_iter.cc:34-38 | The list the iterator is compared with holds exactly the newest visible entry of each key that is not deleted at the read sequence |
| DbIterator.LiveUpToSorted | InstaClone/Pods/leveldb-library/db/db_iter.cc:34-38 | ... in strictly ascending key order, so each key once |
| DbIterator.InternalIterator.Seek | InstaClone/Pods/leveldb-library/db/db_iter.cc:269-281 | The internal iterator's contract: lands on the first entry not before the given internal key |
| DbIterator.DBIter.constructor | InstaClone/Pods/leveldb-library/db/db_iter.cc:48-57 | A new iterator is a plain cursor over the live keys, not valid |
| DbIterator.DBIter.Valid | InstaClone/Pods/leveldb-library/db/db_iter.cc:63 | Says whether the plain cursor is at an entry |
| DbIterator.DBIter.Key | InstaClone/Pods/leveldb-library/db/db_iter.cc:64-67 | The key of the plain cursor's entry, in both directions |
| DbIterator.DBIter.Value | InstaClone/Pods/leveldb-library/db/db_iter.cc:68-71 | The value of the plain cursor's entry, in both directions |
| DbIterator.DBIter.FindNextUserEntry | InstaClone/Pods/leveldb-library/db/db_iter.cc:168-198 | Stops at the first live entry ahead (beyond the saved key when skipping), or passes none |
| DbIterator.DBIter.FindPrevUserEntry | InstaClone/Pods/leveldb-library/db/db_iter.cc:227-267 | Stops at the last live entry behind, with its key and value saved, or passes none |
| DbIterator.DBIter.Seek | InstaClone/Pods/leveldb-library/db/db_iter.cc:269-281 | Lands on the least key at or above the target of which a read at the sequence finds a value, with that value, and is not valid exactly if there is none |
| DbIterator.DBIter.SeekToFirst | InstaClone/Pods/leveldb-library/db/db_iter.cc:283-292 | ... on the least such key of all |
| DbIterator.DBIter.SeekToLast | InstaClone/Pods/leveldb-library/db/db_iter.cc:294-299 | ... on the greatest |
| DbIterator.DBIter.Next | InstaClone/Pods/leveldb-library/db/db_iter.cc:141-166 | Goes on to the least such key above the one it stood on, also after a switch from reverse: none is skipped and none comes twice; not valid exactly if there is none |
| DbIterator.DBIter.Prev | InstaClone/Pods/leveldb-library/db/db_iter.cc:200-225 | Goes back to the greatest such key below, also after a switch from forward |
| Compaction.DoCompactionWork | InstaClone/Pods/leveldb-library/db/db_impl.cc:878-1036 | The output tables, none empty and in order together, hold exactly the entries that no newer entry at or below the smallest snapshot supersedes and that are no obsolete deletion |
| Compaction.FinishCompactionOutputFile | InstaClone/Pods/leveldb-library/db/db_impl.cc:811-858 | Closing the open table appends it whole to the outputs |
| Compaction.SurvivesIffNotSuperseded | InstaClone/Pods/leveldb-library/db/db_impl.cc:937-960 | Looking one entry back, as the loop does, decides the same as looking for any newer entry of the key at or below the smallest snapshot |
| Compaction.OneEntryBelowSnapshot | InstaClone/Pods/leveldb-library/db/db_impl.cc:946-948 | After a compaction each user key has at most one entry at or below the smallest snapshot |
| LsmStore.InitInv | InstaClone/Pods/leveldb-library/db/db_impl.cc:182-212 | A new database meets the invariant: layers ordered by age, unique trailers, sane snapshots |
| LsmStore.WriteKeeps | InstaClone/Pods/leveldb-library/db/db_impl.cc:1204-1237 | A write keeps the invariant and every read at or below the last sequence before it |
| LsmStore.WriteIsRead | InstaClone/Pods/leveldb-library/db/db_impl.cc:1204-1243 | After a batch is written its last operation on a key is what is read of that key at the new last sequence, and all other keys read as before |
| LsmStore.SnapshotSeesWrites | InstaClone/Pods/leveldb-library/db/db_impl.cc:1166-1175 | A snapshot sees everything written before it, and nothing that is written later |
| LsmStore.SwitchKeeps | InstaClone/Pods/leveldb-library/db/db_impl.cc:1345-1366 | Switching memtables keeps the invariant and the contents, also during a compaction |
| LsmStore.FlushKeeps | InstaClone/Pods/leveldb-library/db/db_impl.cc:491-566 | Flushing the immutable memtable to level 0, or deeper where nothing overlaps, keeps the invariant and the contents, also during a compaction |
| LsmStore.StartKeeps | InstaClone/Pods/leveldb-library/db/db_impl.cc:688-767 | Picking inputs and fixing the smallest snapshot sets up a job that meets its invariant, also where older entries of a key are left in the output level |
| LsmStore.JobSnapshotIsSmallest | InstaClone/Pods/leveldb-library/db/db_impl.cc:890-894 | The smallest snapshot of a running compaction is at or below every snapshot listed while it runs and every later one |
| LsmStore.NewestStays | InstaClone/Pods/leveldb-library/db/db_impl.cc:937-960 | The newest entry visible at or above the smallest snapshot is written again, or is a deletion that is not missed |
| LsmStore.CompactionPreservesReadsIff | InstaClone/Pods/leveldb-library/db/db_impl.cc:937-960 | Installing a compaction keeps the answers of reads at a sequence from the smallest snapshot on, if and only if it does not drop a deletion such reads rely on while the inputs leave an older value of its key in the output level |
| LsmStore.ClosedUncoversNothing | InstaClone/Pods/leveldb-library/db/version_set.cc:1378-1401 | Where the inputs leave no older entry of their keys behind, no deletion is missed |
| LsmStore.FinishKeeps | InstaClone/Pods/leveldb-library/db/db_impl.cc:860-876 | Installing a compaction keeps the invariant, and the reads exactly as said |
| LsmStore.MoveKeeps | InstaClone/Pods/leveldb-library/db/db_impl.cc:717-731 | The trivial move of a table to the next level keeps the invariant and the contents |
| LsmStore.StepKeepsReads | InstaClone/Pods/leveldb-library/db/db_impl.cc:535-566 | Every step (write, snapshot, switch, flush, compaction start, end, move, failure) keeps the invariant; and the answer of each read at a held snapshot or at the current sequence, if and only if it does not install a compaction that uncovers a value for it |
| LsmStore.ReachableInv | InstaClone/Pods/leveldb-library/db/db_impl.cc:1310-1370 | The invariant holds in every reachable state |
| LsmStore.SnapshotIsolation | InstaClone/Pods/leveldb-library/db/db_impl.cc:1166-1175 | Over any run, as long as a snapshot is held, its reads never change, if and only if no compaction is installed that uncovers a value for it |
| LsmStore.ClosedRunsAreIsolated | InstaClone/Pods/leveldb-library/db/db_impl.cc:1166-1175 | They never change if every compaction takes the older entries of its inputs' keys along |
| StoredInputs.PickedMayStart | InstaClone/Pods/leveldb-library/db/version_set.cc:1403-1462 | The files that AddBoundaryInputs and SetupOtherInputs pick are, as entries, inputs with which a compaction of the store may start |
| StoredInputs.ClosedIffNoBoundary | InstaClone/Pods/leveldb-library/db/version_set.cc:1342-1401 | A compaction takes all older entries of its inputs' keys along if and only if no file of the next level goes on with the key on which its inputs from there end |
| StoredInputs.CheckedRunsAreIsolated | InstaClone/Pods/leveldb-library/db/db_impl.cc:1166-1175 | Over any run in which no compaction starts while such a file is there, every read at a held snapshot has the same answer in all states |
| LsmStore.DeletedComesBack | InstaClone/Pods/leveldb-library/db/version_set.cc:1403-1462 | A run from the empty database in which the reads at a held snapshot change: boundary files are added to the inputs of one level only, and a deleted value comes back |
| LsmStore.Get | InstaClone/Pods/leveldb-library/db/db_impl.cc:1100-1145 | Searching the layers newest first and stopping at the first hit gives the flat store's answer |
| LsmStore.LayerGet | InstaClone/Pods/leveldb-library/db/db_impl.cc:1123-1135 | One layer's search finds its newest visible entry of the key, or there is none |
| LsmStore.GetIsDetermined | InstaClone/Pods/leveldb-library/db/db_impl.cc:1100-1145 | In every reachable state the layers are ordered as Get needs, and the flat store allows one answer |
| VersionFiles.FindFile | InstaClone/Pods/leveldb-library/db/version_set.cc:88-106 | In a level of disjoint files, the first file whose largest key is at or behind the key |
| VersionFiles.SomeFileOverlapsRange | InstaClone/Pods/leveldb-library/db/version_set.cc:122-157 | True exactly when some file overlaps the range, searched one by one or by bisection |
| VersionFiles.FileFor | InstaClone/Pods/leveldb-library/db/version_set.cc:364-381 | The one file looked at in a level holds the newest visible entry of the key, if the level has any |
| VersionFiles.FindLargestKey | InstaClone/Pods/leveldb-library/db/version_set.cc:1326-1340 | The largest key of the files, none for no files |
| VersionFiles.GetRange | InstaClone/Pods/leveldb-library/db/version_set.cc:1205-1224 | The smallest and the largest key of the files |
| CompactionInputs.FindSmallestBoundaryFile | InstaClone/Pods/leveldb-library/db/version_set.cc:1344-1362 | The smallest of the files that go on with the user key of the given one, or none where there are none |
| CompactionInputs.AddBoundaryInputs | InstaClone/Pods/leveldb-library/db/version_set.cc:1378-1401 | Ends; adds one after the other files that go on with the last key of those before, until no file of the level does, and leaves no gap |
| CompactionInputs.OlderTakenIff | InstaClone/Pods/leveldb-library/db/version_set.cc:1364-1377 | Files without a gap leave nothing older of their keys in the level, if and only if none goes on with the last key |
| CompactionInputs.GetOverlappingInputs | InstaClone/Pods/leveldb-library/db/version_set.cc:519-559 | Ends, with exactly the files that overlap the range; in level 0 it is the least range around the given one that holds all of them |
| CompactionInputs.OverlappingIsPicked | InstaClone/Pods/leveldb-library/db/version_set.cc:1464-1495 | Files that overlap a range have no gap, and in level 0 all that overlap them |
| CompactionInputs.FirstFewArePicked | InstaClone/Pods/leveldb-library/db/version_set.cc:1471-1485 | So have the first few of them, where a manual compaction is cut short |
| CompactionInputs.SetupOtherInputs | InstaClone/Pods/leveldb-library/db/version_set.cc:1403-1462 | The inputs of the level are what was picked with its boundary files, or all files in the range of all inputs with theirs if these take as many files of the next level; those of the next one are exactly the files in their range |
| CompactionInputs.FileToCompact | InstaClone/Pods/leveldb-library/db/version_set.cc:1283-1295 | Returns the first file behind the compaction pointer, or the first of all where there is none |
| CompactionInputs.PickCompaction | InstaClone/Pods/leveldb-library/db/version_set.cc:1270-1322 | The inputs start from the file, in level 0 with all of the least range around it, and grow as SetupOtherInputs says |
| CompactionInputs.SourceInputsSuffice | InstaClone/Pods/leveldb-library/db/version_set.cc:1378-1462 | So of the keys of the inputs from the level nothing older is left there, and nothing at all in the next one: what LsmStore takes a compaction to start with |
| CompactionInputs.BoundaryOfNextIsLeft | InstaClone/Pods/leveldb-library/db/version_set.cc:1403-1462 | Of the keys of the inputs from the next level something older may be left there: a level with such files |
| LevelRanges.FlushKeeps | InstaClone/Pods/leveldb-library/db/version_set.cc:491-516 | A flush to a level where nothing overlaps keeps the files of each level from 1 on disjoint, also for the outputs to come unless it goes between the inputs of a running compaction in the output level |
| LevelRanges.StartKeeps | InstaClone/Pods/leveldb-library/db/version_set.cc:1403-1462 | No other file of the next level reaches into the range of the inputs |
| LevelRanges.FinishIff | InstaClone/Pods/leveldb-library/db/db_impl.cc:860-876 | Installing outputs leaves the level disjoint if and only if none of them overlaps a file that is not an input |
| LevelRanges.FinishKeeps | InstaClone/Pods/leveldb-library/db/db_impl.cc:860-876 | ... which they do not where nothing reaches into the range of the inputs |
| LevelRanges.MoveKeeps | InstaClone/Pods/leveldb-library/db/version_set.cc:1515-1523 | A trivial move keeps the levels disjoint |
| LevelRanges.FinishMoves | InstaClone/Pods/leveldb-library/db/db_impl.cc:860-876 | Installing a compaction takes its inputs out of their levels, puts the outputs into the next one, and leaves all other files where they are |
| LevelRanges.MoveMoves | InstaClone/Pods/leveldb-library/db/version_set.cc:1515-1523 | A trivial move takes the file to the next level and leaves all others where they are |
| LevelRanges.FilesInOneLevel | InstaClone/Pods/leveldb-library/db/version_set.cc:741-754 | In every state of every run each file is in one level |
| LevelRanges.MayStart | InstaClone/Pods/leveldb-library/db/version_set.cc:1270-1322 | Any files of any level but the last may be compacted |
| LevelRanges.MayFlush | InstaClone/Pods/leveldb-library/db/version_set.cc:491-516 | A fresh file may always be flushed into level 0 |
| LevelRanges.FlushInGapIff | InstaClone/Pods/leveldb-library/db/version_set.cc:491-516 | Known before a flush to a level where nothing overlaps: it lets the running compaction leave two files of a level overlapping if and only if it goes into the range of its inputs, in its output level |
| LevelRanges.MayOverlapIff | InstaClone/Pods/leveldb-library/db/db_impl.cc:860-876 | The outputs of a compaction can overlap a file of the level if and only if one that is not an input reaches into the range of the inputs |
| LevelRanges.LevelsStayDisjoint | InstaClone/Pods/leveldb-library/db/version_set.cc:741-754 | Over all runs: in every state the files of each level from 1 on are disjoint, the assert of the code, and stay so whatever the running compaction writes, if and only if no memtable is flushed between the inputs of a running compaction |
| LevelRanges.CoveredHasNoGap | InstaClone/Pods/leveldb-library/db/version_set.cc:491-516 | No flush goes between inputs that leave no gap |
| LevelRanges.MoreAreCovered | InstaClone/Pods/leveldb-library/db/version_set.cc:1403-1462 | Adding the files in the range of inputs without gaps makes no gap; one file has none |
| LevelRanges.CoveredKeepsInv | InstaClone/Pods/leveldb-library/db/version_set.cc:741-754 | Over any run in which inputs leave no gap the levels stay disjoint |
| GaplessInputs.LeastRangeIsCovered | InstaClone/Pods/leveldb-library/db/version_set.cc:518-560 | The files of the least range of level 0 around files without gaps leave no gap |
| GaplessInputs.SetupIsCovered | InstaClone/Pods/leveldb-library/db/version_set.cc:1403-1462 | Boundary files, the next level's files and the files by which inputs grow leave no gap where none was |
| GaplessInputs.AutomaticIsCovered | InstaClone/Pods/leveldb-library/db/version_set.cc:1270-1322 | The inputs of every compaction that nobody asked for leave no gap |
| GaplessInputs.WithoutManualCompactions | InstaClone/Pods/leveldb-library/db/version_set.cc:1270-1322 | Over any run without manual compactions, in which inputs are picked as PickCompaction does, no flush goes between inputs, and in every state the files of each level from 1 on are disjoint and stay so |
| LevelRanges.GapFlushLosesKey | InstaClone/Pods/leveldb-library/db/version_set.cc:1464-1495 | A run in which a memtable is flushed between the inputs of a manual compaction: two files of a level overlap, and a key in one of them is not found any more |
| Durability.StepKeepsInv | InstaClone/Pods/leveldb-library/db/db_impl.cc:1185-1258 | Append, a failed append, a crash within one, acknowledge, sync error, switch, table build, install, failed install, deletion of files, crash and every recovery step keep the durability invariant |
| Durability.TornKeeps | InstaClone/Pods/leveldb-library/db/db_impl.cc:1212-1233 | An append that fails or is cut off by a crash keeps it |
| Durability.FlushedIsDurable | InstaClone/Pods/leveldb-library/db/db_impl.cc:550-566 | Moving the manifest's log number to the current log, with the flushed table, loses nothing |
| Durability.FlushKeeps | InstaClone/Pods/leveldb-library/db/db_impl.cc:535-566 | Installing a flush, and failing to, keeps the durability invariant |
| Durability.CompactedIsDurable | InstaClone/Pods/leveldb-library/db/db_impl.cc:860-876 | Replacing tables by others with the same batches loses nothing |
| Durability.DeleteKeeps | InstaClone/Pods/leveldb-library/db/db_impl.cc:244-247 | Deleting an obsolete log keeps it |
| Durability.DeleteTableKeeps | InstaClone/Pods/leveldb-library/db/db_impl.cc:252-258 | Deleting a table that no version needs and that is not pending keeps it |
| Durability.ReplayKeeps | InstaClone/Pods/leveldb-library/db/db_impl.cc:412-453 | Replaying a record, or passing one that the reader drops, and writing out a memtable that grew too big keeps it |
| Durability.FinishLogKeeps | InstaClone/Pods/leveldb-library/db/db_impl.cc:457-488 | Finishing a log, whole or torn, reused or written out, keeps it |
| Durability.CreateLogKeeps | InstaClone/Pods/leveldb-library/db/db_impl.cc:1484-1497 | Creating a new log when none is reused keeps it |
| Durability.FinishRecoveryKeeps | InstaClone/Pods/leveldb-library/db/db_impl.cc:1484-1506 | Opening the database after recovery keeps it |
| Durability.SafeWritesSurvive | InstaClone/Pods/leveldb-library/db/db_impl.cc:323-362 | In every reachable state a recovery would find every batch acknowledged with a record the reader sees, in the tables or logs it reads, and nothing never written |
| Durability.UnseenIsLost | InstaClone/Pods/leveldb-library/db/db_impl.cc:1212-1233 | A batch acknowledged with a record the reader does not see was appended behind a torn end, and no recovery finds it |
| Durability.AcknowledgedWritesSurviveIff | InstaClone/Pods/leveldb-library/db/db_impl.cc:323-362 | Over all runs: in every state a recovery would find every acknowledged batch, if and only if none was acknowledged with a record dropped behind a torn end |
| Durability.LossIffTorn | InstaClone/Pods/leveldb-library/db/db_impl.cc:1185-1258 | Before a write: it can be acknowledged and then lost if and only if the current log ends torn |
| Durability.FailedAppendLoses | InstaClone/Pods/leveldb-library/db/db_impl.cc:1212-1233 | A run from a new database: an append fails without a background error, the next one is acknowledged, and after a crash it is gone |
| Durability.ReusedTornLogLoses | InstaClone/Pods/leveldb-library/db/db_impl.cc:457-470 | A run from a new database: a crash within an append, the torn log is reused, the next write is acknowledged, and after another crash it is gone |
| Durability.CleanRunsAreDurable | InstaClone/Pods/leveldb-library/db/db_impl.cc:457-470 | Over any run in which no append fails and a log is reused only if it ended whole, crashes within an append included, every acknowledged batch is recoverable in every state |
| Durability.OpenDatabaseHasAllAcknowledged | InstaClone/Pods/leveldb-library/db/db_impl.cc:1474-1515 | Whenever the database is up, after any crashes and recoveries, it reads every acknowledged batch but those behind a torn end, all of them where there are none, and nothing never written |
| Reopening.MayReopen | InstaClone/Pods/leveldb-library/db/db_impl.cc:1474-1515 | From every reachable state in which the database is down, whenever and however often it crashed, recovery can go on until it is open, with every acknowledged batch but those behind a torn end |
| Durability.DeletedLogsAreObsolete | InstaClone/Pods/leveldb-library/db/db_impl.cc:244-247 | No log a recovery would read is ever deleted |
| Durability.NamedTablesExist | InstaClone/Pods/leveldb-library/db/db_impl.cc:223-278 | Every table the manifest names exists; none of them is ever deleted, and none in pending_outputs_ |
| Durability.ReplacedAreObsolete | InstaClone/Pods/leveldb-library/db/db_impl.cc:860-876 | The tables that a compaction has replaced are named no more, and may be deleted |
| Durability.MayCompact | InstaClone/Pods/leveldb-library/db/db_impl.cc:860-876 | In every reachable state between flushes any live tables may be compacted into one new table with their batches; the manifest then names it in their place and nothing stored is lost |
| Durability.NewFilesAreNew | InstaClone/Pods/leveldb-library/db/db_impl.cc:1346-1352 | Creating a log never truncates one that exists, and creating a table none that the manifest names |
| SyncedLogs.MachineReachableInv | InstaClone/Pods/leveldb-library/db/db_impl.cc:1185-1258 | In every reachable state, crashes of the machine that cut logs at unsynced bytes included, the durability invariant holds |
| SyncedLogs.SyncedWritesSurviveIff | InstaClone/Pods/leveldb-library/include/leveldb/options.h:168-182 | Over all runs with such crashes: every state holds every batch acknowledged with WriteOptions::sync for a recovery, if and only if success was never reported for a synced record appended where no recovery sees it |
| SyncedLogs.CutOffIff | InstaClone/Pods/leveldb-library/include/leveldb/options.h:168-182 | Known before it: a crash of the machine can cost exactly the batches that are in no table and in no synced part of a log |
| SyncedLogs.EarlierAreSyncedIff | InstaClone/Pods/leveldb-library/db/db_impl.cc:1345-1366 | A synced write puts every earlier acknowledged one on the disk if and only if those of the memtable being flushed are there already; always if none is being flushed |
| SyncedLogs.EarlierIsLost | InstaClone/Pods/leveldb-library/db/db_impl.cc:1345-1366 | A run in which a write is acknowledged, the memtable is switched, a later write is synced, and a crash of the machine leaves the later write and not the earlier one |
| WriteQueue.DBWriter.constructor | InstaClone/Pods/leveldb-library/db/db_impl.cc:127-151 | An empty queue meets the invariant |
| WriteQueue.DBWriter.Enqueue | InstaClone/Pods/leveldb-library/db/db_impl.cc:1185-1193 | A writer joins the end of the queue; nothing else changes in the order |
| WriteQueue.DBWriter.BuildBatchGroup | InstaClone/Pods/leveldb-library/db/db_impl.cc:1260-1306 | The group is the longest prefix of the queue that takes no sync writer along with a leader that is none, and is no larger than 1 MiB, or than 128 KiB more than a leader of at most 128 KiB; its batches are joined in order, in tmp_batch_ if there is more than one |
| WriteQueue.DBWriter.BeginGroup | InstaClone/Pods/leveldb-library/db/db_impl.cc:1202-1207 | The front writer's group takes the next sequence numbers |
| WriteQueue.DBWriter.FinishAlone | InstaClone/Pods/leveldb-library/db/db_impl.cc:1200-1256 | Without room or a batch, the front writer finishes alone |
| WriteQueue.DBWriter.LogAndInsert | InstaClone/Pods/leveldb-library/db/db_impl.cc:1209-1233 | Outside the mutex nothing at or below LastSequence changes; the group counts as inserted only when log, sync and every insertion succeed |
| WriteQueue.DBWriter.InsertInto | InstaClone/Pods/leveldb-library/db/db_impl.cc:1223-1225 | Operations are inserted at consecutive sequence numbers, and others stay as they were |
| WriteQueue.DBWriter.PublishGroup | InstaClone/Pods/leveldb-library/db/db_impl.cc:1226-1237 | LastSequence moves past the group whatever the outcome, tmp_batch_ is empty again, and a sync error is kept |
| WriteQueue.DBWriter.FinishPrefix | InstaClone/Pods/leveldb-library/db/db_impl.cc:1239-1248 | The group's writers leave in queue order, each told the group's status |
| WriteQueue.DBWriter.EndGroup | InstaClone/Pods/leveldb-library/db/db_impl.cc:1226-1256 | The end of a group: its range is published, its commit recorded, its writers gone from the queue |
| WriteQueue.DBWriter.GetSnapshot | InstaClone/Pods/leveldb-library/db/db_impl.cc:1166-1169 | A reader starts at LastSequence |
| WriteQueue.DBWriter.AllOrNothing | InstaClone/Pods/leveldb-library/db/db_impl.cc:1202-1237 | A reader at a sequence it was handed sees a successful group entirely or not at all |
| WriteQueue.DBWriter.GroupInProgressIsInvisible | InstaClone/Pods/leveldb-library/db/db_impl.cc:1209-1236 | The group being written is beyond every reader |
| WriteQueue.DBWriter.GroupsAreContiguous | InstaClone/Pods/leveldb-library/db/db_impl.cc:1202-1237 | Groups take fresh, contiguous sequence ranges in queue order |
| WriteQueue.DBWriter.WriterRange | InstaClone/Pods/leveldb-library/db/db_impl.cc:1260-1306 | Within a successful group each writer's operations have consecutive numbers, in queue order, and are what the memtable holds there |
| WriteQueue.DBWriter.FinishedOnce | InstaClone/Pods/leveldb-library/db/db_impl.cc:1239-1248 | The i-th writer told anything is the i-th that arrived, and it is no longer queued: each is told once, in order |
| LogFormat.FramesModBlock | InstaClone/Pods/leveldb-library/db/log_writer.cc:27-30 | What a record becomes depends on the file position only modulo the block size: a reopened writer goes on as one never closed |
| LogFormat.HeaderAt | InstaClone/Pods/leveldb-library/db/log_writer.cc:44-55 | Where a header goes: within seven bytes, and never so that it crosses a block |
| LogFormat.FragmentLength | InstaClone/Pods/leveldb-library/db/log_writer.cc:57-61 | A fragment never crosses a block |
| LogFormat.FramesInNumbers | InstaClone/Pods/leveldb-library/db/log_format.h:14-35 | Byte by byte: zeros where less than seven bytes of a block are left; checksum, length and type with the low byte first; type 1 for a whole record, 2 for its first fragment, 4 for the last, 3 between; then the payload, as much as the block takes, and the other fragments |
| LogFormat.HeaderBytes | InstaClone/Pods/leveldb-library/db/log_writer.cc:88-99 | Checksum, length and type are read back from the header's seven bytes |
| PosixFile.WritableFile.WriteUnbuffered | InstaClone/Pods/leveldb-library/util/env_posix.cc:325-338 | Writes all the bytes, or fails with the first few of them in the file |
| PosixFile.WritableFile.FlushBuffer | InstaClone/Pods/leveldb-library/util/env_posix.cc:319-323 | Writes out the buffer, or the first part of it; it is empty in any case |
| PosixFile.WritableFile.Append | InstaClone/Pods/leveldb-library/util/env_posix.cc:258-285 | File and buffer together hold the data behind what they held, or it fails short of its end; never where the buffer has room |
| LogWriter.Writer.constructor | InstaClone/Pods/leveldb-library/db/log_writer.cc:23-30 | A writer opened on a file stands at the file's offset within its block |
| LogWriter.Writer.EmitPhysicalRecord | InstaClone/Pods/leveldb-library/db/log_writer.cc:82-108 | Checksum, length, type and payload are in the file, or the file ends within them; the block offset moves on in any case |
| LogWriter.Writer.FillTrailer | InstaClone/Pods/leveldb-library/db/log_writer.cc:44-55 | A trailer of zeros where no header fits, in the buffer, so that it cannot fail |
| LogWriter.Writer.AddFragment | InstaClone/Pods/leveldb-library/db/log_writer.cc:43-76 | One turn of the loop: the trailer if no header fits, then the next fragment with its type |
| LogWriter.Writer.AddRecord | InstaClone/Pods/leveldb-library/db/log_writer.cc:34-80 | Ends, true exactly when the file has all the frames of the record; else the file ends within them |
| LogReader.Reader.FillBuffer | InstaClone/Pods/leveldb-library/db/log_reader.cc:192-205 | Reads the next block from where the file was left; a short read is the end |
| LogReader.Reader.NeedHeader | InstaClone/Pods/leveldb-library/db/log_reader.cc:190-214 | Skips a block's trailer to where the next header must be, or reports that the file ends before it |
| LogReader.Reader.ParseBuffer | InstaClone/Pods/leveldb-library/db/log_reader.cc:216-270 | The header decides, for any bytes, between a record, a bad one (length, checksum, zero type) that costs the rest of the block, and the end of a torn file |
| LogReader.ZerosAreSkipped | InstaClone/Pods/leveldb-library/db/log_reader.cc:235-241 | A header of zeros, as in a file allocated in advance, ends its block and is no record |
| LogReader.Reader.ReadPhysicalRecord | InstaClone/Pods/leveldb-library/db/log_reader.cc:189-271 | For any bytes, exactly what stands at the position, and where reading goes on |
| LogReader.Reader.ReadRecord | InstaClone/Pods/leveldb-library/db/log_reader.cc:56-174 | For any bytes, exactly the next record that is complete in its fragments, or none |
| LogReader.FramesAreRead | InstaClone/Pods/leveldb-library/db/log_reader.cc:56-174 | The frames of a record are read as the record, or as nothing where the file ends within them |
| LogReader.CutIsRead | InstaClone/Pods/leveldb-library/db/log_reader.cc:207-227 | From any cut of a log exactly the records that are complete come back, in order |
| LogReader.Resync | InstaClone/Pods/leveldb-library/db/log_reader.cc:219-257 | Whatever is in the blocks before, the reader comes to the next block boundary, unless it meets a false end |
| LogReader.WrittenBehindIsRead | InstaClone/Pods/leveldb-library/db/log_reader.cc:56-174 | Whatever a file starts with, torn records or garbage, all that was written behind the next block boundary is read, unless there is a false end before: a checksummed record of type 5 |
| LogReader.FalseEndHides | InstaClone/Pods/leveldb-library/db/log_reader.cc:144-151 | Behind a false end nothing is read, whatever it is |
| TornLogs.LostBehindTorn | InstaClone/Pods/leveldb-library/db/log_reader.cc:219-257 | Behind any whole records and a torn one, whatever follows, the next to be read is what begins in the next block, if the checksum does its work |
| TornLogs.ReusedLogIsRead | InstaClone/Pods/leveldb-library/db/db_impl.cc:457-470 | Of the records written behind the torn end of a reused log exactly those are lost that begin in the block in which it ends |
| TornLogs.SeenAreRead | InstaClone/Pods/leveldb-library/db/log_reader.cc:59-184 | What such a log is read to is the records in front and those later ones that Durability takes as seen |
| LogReader.WriteLog | InstaClone/Pods/leveldb-library/db/log_writer.cc:23-80 | Records written until one fails, with any closing and reopening of the writer, give the bytes of those done, and the first few of the next |
| LogReader.ReadLog | InstaClone/Pods/leveldb-library/db/log_reader.cc:56-174 | Reads any file to its end: exactly its records |
| LogReader.WriteThenRead | InstaClone/Pods/leveldb-library/db/log_writer.cc:34-108 | Every record reported written is read back, in order and before any other, with any reopenings and wherever writing fails |
| Heap.RootIsLeast | InstaClone/Pods/Libuv-gRPC/src/heap-inl.h:67-69 | In a heap ordered by any strict weak order nothing is less than the root |
| Heap.PathTo | InstaClone/Pods/Libuv-gRPC/src/heap-inl.h:122-124 | The bits of the size lead from the root to the last position |
| Heap.Heap.constructor | InstaClone/Pods/Libuv-gRPC/src/heap-inl.h:62-65 | An empty heap has the shape of a complete tree |
| Heap.Heap.HeapMin | InstaClone/Pods/Libuv-gRPC/src/heap-inl.h:67-69 | The minimum is a member with no lesser one, or NULL when there is none |
| Heap.Heap.FindSlot | InstaClone/Pods/Libuv-gRPC/src/heap-inl.h:122-136 | The bit path reaches the link of the given position, and its parent |
| Heap.Heap.NodeSwap | InstaClone/Pods/Libuv-gRPC/src/heap-inl.h:72-104 | Swapping a child with its parent exchanges exactly these two positions; all links, also those of the neighbours, stay consistent |
| Heap.Heap.LinkLast | InstaClone/Pods/Libuv-gRPC/src/heap-inl.h:115-141 | The new node takes the position after the last one |
| Heap.Heap.SiftUp | InstaClone/Pods/Libuv-gRPC/src/heap-inl.h:143-147 | Moving a node up while it is less than its parent restores the order and keeps the members |
| Heap.Heap.HeapInsert | InstaClone/Pods/Libuv-gRPC/src/heap-inl.h:106-148 | Keeps the complete tree, its parent links and the order, and adds exactly the node |
| Heap.Heap.UnlinkLast | InstaClone/Pods/Libuv-gRPC/src/heap-inl.h:163-193 | The last position is unlinked |
| Heap.Heap.ReplaceNode | InstaClone/Pods/Libuv-gRPC/src/heap-inl.h:195-214 | The last node takes the place of the removed one, with its links |
| Heap.Heap.SmallestBelow | InstaClone/Pods/Libuv-gRPC/src/heap-inl.h:221-225 | The least of a node and its children |
| Heap.Heap.SiftDown | InstaClone/Pods/Libuv-gRPC/src/heap-inl.h:216-229 | Moving down while a child is less leaves at most the place reached out of order, and keeps the members |
| Heap.Heap.HeapRemove | InstaClone/Pods/Libuv-gRPC/src/heap-inl.h:150-237 | Removing any member keeps the complete tree, its parent links and the order, and removes exactly the node |
| Heap.Heap.HeapDequeue | InstaClone/Pods/Libuv-gRPC/src/heap-inl.h:239-241 | Removes the minimum: no member left is less than it |
| TimerLoop.RepeatIsLater | InstaClone/Pods/Libuv-gRPC/src/timer.c:78-80 | A repeat lands strictly later than now exactly when loop time is below 2^64 - 1 |
| TimerLoop.Loop.HandleStart | InstaClone/Pods/Libuv-gRPC/src/uv-common.h:241-247 | Sets ACTIVE; active_handles counts the handle if it is referenced |
| TimerLoop.Loop.HandleStop | InstaClone/Pods/Libuv-gRPC/src/uv-common.h:249-255 | Clears ACTIVE; active_handles no longer counts the handle |
| TimerLoop.Loop.HandleRef | InstaClone/Pods/Libuv-gRPC/src/uv-common.h:257-264 | Sets REF and keeps active_handles the number of active referenced handles |
| TimerLoop.Loop.HandleUnref | InstaClone/Pods/Libuv-gRPC/src/uv-common.h:266-273 | Clears REF and keeps active_handles the number of active referenced handles |
| TimerLoop.Loop.Init | InstaClone/Pods/Libuv-gRPC/src/timer.c:58-63 | A new timer is known to the loop, and not active |
| TimerLoop.Loop.Start | InstaClone/Pods/Libuv-gRPC/src/timer.c:66-94 | Fails and changes nothing when closing or without callback; else the timer is in the heap, active, due at the sum capped at 2^64 - 1, with a fresh start id |
| TimerLoop.Loop.Stop | InstaClone/Pods/Libuv-gRPC/src/timer.c:97-107 | The timer leaves the heap and is not active |
| TimerLoop.Loop.Again | InstaClone/Pods/Libuv-gRPC/src/timer.c:110-120 | Fails without callback; restarts a repeating timer after its repeat, and leaves others alone |
| TimerLoop.LeastExists | InstaClone/Pods/Libuv-gRPC/src/heap-inl.h:67-69 | Any nonempty set of timers has one that none is before |
| TimerLoop.Loop.HeapMin | InstaClone/Pods/Libuv-gRPC/src/timer.c:38-55 | The timer with the least timeout, and of those the one started first; NULL exactly if there is none |
| TimerLoop.Loop.NextTimeout | InstaClone/Pods/Libuv-gRPC/src/timer.c:133-151 | -1 without timers; else no timer is due before that much time, and one is due then, unless cut to INT_MAX |
| TimerLoop.Loop.FireNext | InstaClone/Pods/Libuv-gRPC/src/timer.c:159-169 | One turn fires the first timer still due, stops or restarts it, and leaves those to fire as they were |
| TimerLoop.Loop.RunTimers | InstaClone/Pods/Libuv-gRPC/src/timer.c:154-171 | Ends, having fired exactly the timers due on entry, each once, by ascending timeout and, where that is the same, in the order of their starts; repeating ones are due later, others stopped, those not due untouched |
| TimerLoop.Loop.RunTurns | InstaClone/Pods/Libuv-gRPC/src/timer.c:154-171 | At loop time 2^64 - 1 with a repeating timer: after any number of turns a timer is still due, so the loop never ends |
| TimerLoop.Loop.Close | InstaClone/Pods/Libuv-gRPC/src/timer.c:174-176 | A closed timer has left the heap and is not active |
| Queue.Empty | InstaClone/Pods/Libuv-gRPC/src/queue.h:39-40 | Empty exactly when it holds no items |
| Queue.Init | InstaClone/Pods/Libuv-gRPC/src/queue.h:45-50 | The node heads an empty queue |
| Queue.InsertHead | InstaClone/Pods/Libuv-gRPC/src/queue.h:83-90 | The node comes before the items |
| Queue.InsertTail | InstaClone/Pods/Libuv-gRPC/src/queue.h:92-99 | The node comes after the items |
| Queue.Remove | InstaClone/Pods/Libuv-gRPC/src/queue.h:101-106 | Takes the node out from anywhere in the queue; the node keeps its links, so it still does not look empty |
| Queue.Add | InstaClone/Pods/Libuv-gRPC/src/queue.h:52-59 | The items of one queue go behind those of another; either may be empty |
| Queue.Split | InstaClone/Pods/Libuv-gRPC/src/queue.h:61-70 | The items from the given one on move to the new head, in order; the ones before stay |
| Queue.Move | InstaClone/Pods/Libuv-gRPC/src/queue.h:72-81 | All items move to the new head, in order |
| Queue.ForEach | InstaClone/Pods/Libuv-gRPC/src/queue.h:36-37 | Visits exactly the items, in order, and ends |
| Queue.ItemsAreUnique | InstaClone/Pods/Libuv-gRPC/src/queue.h:24-27 | The links determine the items: a head holds one list only |
| Queue.Walk | InstaClone/Pods/Libuv-gRPC/src/uv-common.c:456-472 | Every handle is visited once, in order, and the loop's queue ends as it was |
| ThreadPool.StepConserved | InstaClone/Pods/Libuv-gRPC/src/threadpool.c:80-137 | Every atomic step of submit, worker, cancel and completion keeps each request in exactly one place with a consistent history |
| ThreadPool.StepSync | InstaClone/Pods/Libuv-gRPC/src/threadpool.c:71-117 | Every step keeps the idle and slow counters, the wakeup condition and the sentinel |
| ThreadPool.SignalEffect | InstaClone/Pods/Libuv-gRPC/src/threadpool.c:142-160 | A signal wakes one sleeper if there is one, and after it not all workers sleep |
| ThreadPool.ReachableInv | InstaClone/Pods/Libuv-gRPC/src/threadpool.c:57-140 | All invariants hold in every state of every interleaving |
| ThreadPool.ExactlyOnePlace | InstaClone/Pods/Libuv-gRPC/src/threadpool.c:269-315 | A submitted request is in exactly one place; its work ran at most once, and never if a cancel returned 0 |
| ThreadPool.DoneHistory | InstaClone/Pods/Libuv-gRPC/src/threadpool.c:300-315 | What done was told: UV_ECANCELED exactly when a cancel returned 0, 0 exactly when the work ran; once, and once more for each cancel after that |
| ThreadPool.CancelAfterDone | InstaClone/Pods/Libuv-gRPC/src/threadpool.c:269-297 | After done was called a cancel finds something to cancel if and only if done was told UV_ECANCELED |
| ThreadPool.DoneOnceIff | InstaClone/Pods/Libuv-gRPC/src/threadpool.c:269-315 | Over any interleaving done is called at most once on each request if none is cancelled after its done was called; and where everything is finished, exactly once if and only if none was |
| ThreadPool.DoneTwice | InstaClone/Pods/Libuv-gRPC/src/threadpool.c:269-315 | A run in which a request cancelled again after done was told UV_ECANCELED has its done called twice |
| ThreadPool.NoLostWakeup | InstaClone/Pods/Libuv-gRPC/src/threadpool.c:45-117 | With work that a worker may take, not all are asleep unsignalled; while one is, as many others are awake without work or signalled as there are entries to take; slow work runs on at most (nthreads + 1) / 2; pending slow work has its sentinel queued |
| ThreadPool.NeverRunsCancelled | InstaClone/Pods/Libuv-gRPC/src/threadpool.c:119-124 | A worker never calls uv__cancelled, and each request's function at most once |
| ThreadPoolOrder.FirstSubmittedFirstTaken | InstaClone/Pods/Libuv-gRPC/src/threadpool.c:142-160 | Over all interleavings, of CPU work and of slow work: as long as a request waits no worker takes one that was submitted later |
| ThreadPoolOrder.HandedOverFirstDoneFirst | InstaClone/Pods/Libuv-gRPC/src/threadpool.c:295-315 | As long as a request is in the line of its loop, done is called for none that came into it later |
| ThreadPoolOrder.DoneInOrder | InstaClone/Pods/Libuv-gRPC/src/threadpool.c:123-128 | So of two executed requests of a loop the one published first has its done called first |
| ThreadPoolOrder.WorkersMayMove | InstaClone/Pods/Libuv-gRPC/src/threadpool.c:57-140 | In every reachable state each worker that neither sleeps nor has ended can take its next step |
| ThreadPoolOrder.TakesSlowIff | InstaClone/Pods/Libuv-gRPC/src/threadpool.c:85-115 | A worker at the marker of slow work takes the first slow request exactly when there is one and fewer than half of the workers, rounded up, run slow work |
| ThreadPoolOrder.WorkersEndAtExit | InstaClone/Pods/Libuv-gRPC/src/threadpool.c:79-84 | Over all runs no worker has ended unless the exit message is in the queue |
| Utf8.Decode1 | InstaClone/Pods/Libuv-gRPC/src/idna.c:24-97 | Before the end of the text: returns INVALID or a scalar value, and takes as many bytes as the first one announces, also past the end |
| Utf8.DecodeAtEnd | InstaClone/Pods/Libuv-gRPC/src/idna.c:35-66 | At the end of the text, where the macro of lines 99-100 still decodes: takes at most one byte after the first |
| Utf8.DecodeOfEncode | InstaClone/Pods/Libuv-gRPC/src/idna.c:24-97 | Every scalar value is decoded from its UTF-8 bytes |
| Utf8.AcceptedIsWellFormed | InstaClone/Pods/Libuv-gRPC/src/idna.c:24-97 | What is accepted is the encoding of the result exactly when every later byte is a continuation byte |
| Utf8.MalformedAccepted | InstaClone/Pods/Libuv-gRPC/src/idna.c:68-69 | A byte sequence that is no UTF-8 and yet is accepted: only the exclusive or of the top bits is tested |
| Utf8.EncodeAllDecodes | InstaClone/Pods/Libuv-gRPC/src/idna.c:88-100 | Well-formed text decodes to its code points |
| Utf8.Encoded | InstaClone/Pods/Libuv-gRPC/src/idna.c:24-97 | One code point of each length, byte by byte: 24, C2 A3, E2 82 AC, F0 90 8D 88 |
| Idna.CountCodepoints | InstaClone/Pods/Libuv-gRPC/src/idna.c:120-131 | Fails exactly when the label holds an invalid code point; else counts ASCII and other code points |
| Idna.CopyAscii | InstaClone/Pods/Libuv-gRPC/src/idna.c:140-151 | Copies the ASCII code points in order |
| Idna.NextSmallest | InstaClone/Pods/Libuv-gRPC/src/idna.c:167-172 | The smallest code point not handled yet |
| Idna.WriteInt | InstaClone/Pods/Libuv-gRPC/src/idna.c:192-218 | Writes the generalized variable-length integer that section 6.3 of RFC 3492 gives |
| Idna.AdaptBias | InstaClone/Pods/Libuv-gRPC/src/idna.c:220-236 | The bias that section 6.1 of RFC 3492 gives |
| Idna.AddProduct | InstaClone/Pods/Libuv-gRPC/src/idna.c:174-180 | The overflow test is exact: it fails if and only if the sum would exceed 32 bits |
| PunycodeDeltas.OverflowsLater | InstaClone/Pods/Libuv-gRPC/src/idna.c:182-188 | Once more than 32 bits are counted, the integer of the next code point of the round takes more |
| PunycodeDeltas.AllInserted | InstaClone/Pods/Libuv-gRPC/src/idna.c:161-243 | When the rounds end without overflow, no integer of the text takes more than 32 bits |
| PunycodeDeltas.OverflowsOnlyLong | InstaClone/Pods/Libuv-gRPC/src/idna.c:174-188 | An integer of more than 32 bits needs a label of more than 3855 code points |
| Punycode.ExtendAppend | InstaClone/Pods/Libuv-gRPC/src/idna.c:189-239 | Each integer written with the decoder's bias is one more insertion of the decoder of section 6.2 |
| Punycode.ReadsWhatIsWritten | InstaClone/Pods/Libuv-gRPC/src/idna.c:192-218 | The decoder reads back every integer written |
| Punycode.DecodeParts | InstaClone/Pods/Libuv-gRPC/src/idna.c:140-159 | ASCII part, delimiter and integers are taken apart at the last delimiter |
| Punycode.DigitIsRead | InstaClone/Pods/Libuv-gRPC/src/idna.c:179-195 | A digit is read from the character written for it or its capital, and from no other |
| PunycodeExamples.OnePoint | InstaClone/Pods/Libuv-gRPC/src/idna.c:102-246 | The text bcher-kva is U+0062 U+00FC U+0063 U+0068 U+0065 U+0072 |
| PunycodeExamples.ThreePoints | InstaClone/Pods/Libuv-gRPC/src/idna.c:102-246 | The text tda0872cb2a is U+00FC U+65E5 U+672C, with the biases of section 6.1 of RFC 3492 on the way |
| PunycodeExamples.Parameters | InstaClone/Pods/Libuv-gRPC/src/idna.c:162-236 | Thresholds between 1 and 26 with the bias, the first division by 700, the skew 38 and the bound 455 as numbers |
| Idna.EncodeRounds | InstaClone/Pods/Libuv-gRPC/src/idna.c:161-243 | The rounds end, and the decoder run on their integers rebuilds the code points |
| Idna.ToAsciiLabel | InstaClone/Pods/Libuv-gRPC/src/idna.c:102-246 | A label is written as itself if ASCII, else as xn--, its ASCII code points, a hyphen if there are any, and small letters and numerals that the decoder of section 6.2 of RFC 3492 turns back into the same code points, as far as the buffer goes; UV_EINVAL exactly for an invalid code point, UV_E2BIG exactly when an integer of section 6.3 takes more than 32 bits |
| Idna.HeardAll | InstaClone/Pods/Libuv-gRPC/src/idna.c:255-278 | Of a host name that does not end within a code point exactly its code points are heard |
| Idna.SplitTakesApart | InstaClone/Pods/Libuv-gRPC/src/idna.c:259-283 | The labels contain none of 0x2E, 0x3002, 0xFF0E and 0xFF61, and with one of these between any two they give the code points back |
| Idna.OnlyOneWay | InstaClone/Pods/Libuv-gRPC/src/idna.c:259-283 | There is only one way to take code points apart like this |
| Idna.ToAscii | InstaClone/Pods/Libuv-gRPC/src/idna.c:250-291 | Takes the name apart at the four full stops; writes the forms of the labels, with a full stop between them, and a NUL, as far as the buffer goes, if and only if no code point is invalid and no label has an integer of more than 32 bits; else the first label that fails decides the error. An incomplete code point at the end is dropped, unless memory behind the end makes it a full stop |
| Inet4.Pton4 | InstaClone/Pods/Libuv-gRPC/src/inet.c:179-215 | Accepts exactly the canonical dotted quads, and reads their octets |
| Inet4.Ntop4 | InstaClone/Pods/Libuv-gRPC/src/inet.c:53-64 | Writes the canonical dotted quad, or reports that it does not fit |
| Inet4.RoundTrip4 | InstaClone/Pods/Libuv-gRPC/src/inet.c:53-64 | Every address comes back from its text |
| Inet4.Digits | InstaClone/Pods/Libuv-gRPC/src/inet.c:179-280 | Digits are 0 to 9 and a to f, small letters when written, and capitals too when read |
| InetExamples.Quad | InstaClone/Pods/Libuv-gRPC/src/inet.c:53-64 | The bytes 192, 168, 0, 10 are 192.168.0.10 |
| Inet6Parser.Pton6 | InstaClone/Pods/Libuv-gRPC/src/inet.c:218-302 | Accepts exactly the text forms of section 2.2 of RFC 4291 (groups, one gap, a dotted quad at the end), and reads each as its address |
| Inet6Parser.CloseGap | InstaClone/Pods/Libuv-gRPC/src/inet.c:282-299 | Sixteen bytes without a gap, fewer with one; then zeros fill the gap |
| Inet6Parser.ShiftTail | InstaClone/Pods/Libuv-gRPC/src/inet.c:287-295 | The shift by hand moves what follows the gap to the end, with zeros between |
| Inet6.FindGap | InstaClone/Pods/Libuv-gRPC/src/inet.c:88-111 | The leftmost longest run of at least two zero words, or none |
| Inet6.Format | InstaClone/Pods/Libuv-gRPC/src/inet.c:113-143 | Writes the words as groups around the gap, and the last two as a quad where the code does |
| Inet6.Ntop6 | InstaClone/Pods/Libuv-gRPC/src/inet.c:67-147 | Writes a form of section 2.2 of RFC 4291 with :: for the leftmost longest run (sections 4.2.2 and 4.2.3 of RFC 5952), or reports that it does not fit |
| Inet6.GapIsUnique | InstaClone/Pods/Libuv-gRPC/src/inet.c:88-111 | There is one such gap |
| Inet6.GapIsZero | InstaClone/Pods/Libuv-gRPC/src/inet.c:84-112 | The gap is two or more zero words |
| Inet6.GapIsLongest | InstaClone/Pods/Libuv-gRPC/src/inet.c:84-112 | Where there are two zero words side by side there is a gap, no run of zero words is longer, and none as long is in front of it |
| Inet6.QuadAtEnd | InstaClone/Pods/Libuv-gRPC/src/inet.c:129-138 | An address with five zero words and FFFF, or with six, ends with its last four bytes as a quad |
| Inet6.AddressOf | InstaClone/Pods/Libuv-gRPC/src/inet.c:117-139 | What is written means the address it was written from |
| Inet6.TextFits | InstaClone/Pods/Libuv-gRPC/src/inet.c:67-75 | The text and its terminator always fit UV__INET6_ADDRSTRLEN |
| Inet6.RoundTrip6 | InstaClone/Pods/Libuv-gRPC/src/inet.c:67-302 | Every address comes back from its text, embedded IPv4 forms included |
| InetExamples.WithGap | InstaClone/Pods/Libuv-gRPC/src/inet.c:67-152 | 2001:db8::1 is a valid form and means 2001 0db8 0 0 0 0 0 1 |
| PbStream.OStream.Write | InstaClone/Pods/nanopb/pb_encode.c:103-124 | Succeeds exactly when sizing or with room left, and then appends and counts the bytes |
| PbStream.IStream.Read | InstaClone/Pods/nanopb/pb_decode.c:102-137 | Succeeds exactly when enough bytes are left, and then takes them from the front |
| PbStream.IStream.ReadByte | InstaClone/Pods/nanopb/pb_decode.c:141-157 | Succeeds exactly when a byte is left, and takes it |
| PbVarint.VarintDelimited | InstaClone/Pods/nanopb/pb_encode.c:608-627 | What is encoded is one varint, whatever follows it |
| PbVarint.VarintSum | InstaClone/Pods/nanopb/pb_encode.c:608-627 | The groups of an encoded value add up to it |
| PbVarint.VarintSize64 | InstaClone/Pods/nanopb/pb_encode.c:608-627 | A 64-bit value takes at most ten bytes |
| PbVarint.EncodeVarint | InstaClone/Pods/nanopb/pb_encode.c:608-627 | Writes the base-128 groups of the value, least significant first, if they fit |
| PbVarint.DecodeVarint | InstaClone/Pods/nanopb/pb_decode.c:255-275 | Accepts exactly the varints of at most ten bytes, takes exactly their bytes, and gives 64 bits of what they say |
| PbVarint.DecodeVarint32Eof | InstaClone/Pods/nanopb/pb_decode.c:187-247 | End of file exactly on an empty stream; otherwise accepts exactly the varints its tests allow, takes their bytes, and gives their low 32 bits |
| PbVarint.DecodeVarint32 | InstaClone/Pods/nanopb/pb_decode.c:249-253 | The same without the end-of-file flag |
| PbVarint.DecodeBoth | InstaClone/Pods/nanopb/pb_decode.c:187-275 | Where both decoders accept, the 32-bit result is the 64-bit one modulo 2^32, and the same bytes are read |
| PbVarint.DecodesBack | InstaClone/Pods/nanopb/pb_decode.c:255-275 | Every encoded 64-bit value is decoded to itself, and in 32 bits too if it fits |
| PbVarint.Negative32 | InstaClone/Pods/nanopb/pb_decode.c:200-237 | A negative int32, sign-extended to ten bytes, is accepted by the 32-bit decoder as its two's complement |
| PbVarint.Fits32Iff | InstaClone/Pods/nanopb/pb_decode.c:200-237 | Of at most ten bytes, exactly which varints hold a 32-bit value or a sign-extended one: from the fifth byte on no payload but its low four bits, or the ten bytes of a negative number |
| PbVarint.AcceptsMore | InstaClone/Pods/nanopb/pb_decode.c:200-237 | An input the 32-bit decoder accepts although it is neither a 32-bit value nor a sign-extended one |
| PbVarint.SkipVarint | InstaClone/Pods/nanopb/pb_decode.c:278-287 | Skips exactly one varint of any length |
| PbVarint.EncodeSVarint | InstaClone/Pods/nanopb/pb_encode.c:630-639 | Writes the zigzag of the value as a varint |
| PbExamples.ZigZags | InstaClone/Pods/nanopb/pb_encode.c:630-638 | Zigzag: 0, -1, 1, -2 become 0, 1, 2, 3 |
| PbExamples.Ranges | InstaClone/Pods/nanopb/pb_decode.c:1345-1404 | What number fields of each kind and size hold: the ranges of their C types |
| PbVarint.DecodeSVarint | InstaClone/Pods/nanopb/pb_decode.c:1285-1297 | Gives the signed value whose zigzag was read |
| PbFieldIter.FieldIter.constructor | InstaClone/Pods/nanopb/pb_common.c:8-27 | At the first field, with data pointer and required index of that position |
| PbFieldIter.FieldIter.Begin | InstaClone/Pods/nanopb/pb_common.c:8-27 | Back at the first field; false for an empty message |
| PbFieldIter.FieldIter.Next | InstaClone/Pods/nanopb/pb_common.c:29-85 | The next field, cyclically; all of the state is again that of its position alone |
| PbFieldIter.PointsAtMember | InstaClone/Pods/nanopb/pb_common.c:29-91 | With descriptors as the macros of the generated code make them from the offsets of the members, the data pointer is the address of the member, and the size pointer that of its has, count or which field |
| PbFieldIter.FieldIter.Find | InstaClone/Pods/nanopb/pb_common.c:87-104 | Within one lap, from anywhere: found exactly when a non-extension field has the tag, at the next such one; else back where it was |
| PbFieldIter.FieldIter.FindExtension | InstaClone/Pods/nanopb/pb_decode.c:831-842 | Found exactly when there is an extension field, else back where it was |
| PbFieldIter.MarkSeen | InstaClone/Pods/nanopb/pb_decode.c:1021-1026 | The bitmap records the field if it is required and among the first 64 |
| PbFieldIter.CountRequired | InstaClone/Pods/nanopb/pb_decode.c:1045-1055 | Walks to the last field: the number of required fields |
| PbFieldIter.CheckRequired | InstaClone/Pods/nanopb/pb_decode.c:1039-1079 | Accepts exactly when all of the first 64 required fields were seen |
| PbMeaning.MessageRoundTrip | InstaClone/Pods/nanopb/pb_encode.c:528-550 | For every schema with distinct nonzero tags and every encodable message, decoding its tokens into a struct of defaults gives its present fields back, defaults elsewhere |
| PbSame.MessageIsKept | InstaClone/Pods/nanopb/pb_encode.c:341-426 | Nothing is lost: every required, singular and repeated value comes back as it was, at every nesting depth; an optional field or a union member is set exactly if it was, and then has its value |
| PbSame.LeftOutIff | InstaClone/Pods/nanopb/pb_encode.c:240-336 | A field gives no token exactly if it is an array without entries, an optional field or union member that is not set, or without a flag the number 0, an empty string, or a submessage of which nothing is written; a required one always gives one |
| PbSame.LastStays | InstaClone/Pods/nanopb/pb_decode.c:406-430 | Of several values of a field the last one stays |
| PbSame.SubmessagesMerge | InstaClone/Pods/nanopb/pb_decode.c:1525-1547 | Two occurrences of a submessage are as good as one with the fields of both, one after the other |
| PbSame.EntriesAreAppended | InstaClone/Pods/nanopb/pb_decode.c:432-489 | Entries of an array are appended to those there are, packed or one by one, as long as they fit |
| PbSame.AtMostOneMember | InstaClone/Pods/nanopb/pb_decode.c:1137-1170 | After any fields at most one member of each union is set |
| PbSame.MissingIsDefault | InstaClone/Pods/nanopb/pb_decode.c:845-930 | A field that is not on the wire has its declared default, an array no entries |
| PbSame.UnknownElsewhere | InstaClone/Pods/nanopb/pb_decode.c:321-331 | What one schema writes another that lacks the field skips as a whole |
| PbMeaning.Reencoding | InstaClone/Pods/nanopb/pb_encode.c:341-426 | The decoded message is written as the same tokens: exactly the same fields are present |
| PbMeaning.TokensValid | InstaClone/Pods/nanopb/pb_encode.c:528-550 | The tokens of an encodable message are well-formed |
| PbEncode.EncodeTag | InstaClone/Pods/nanopb/pb_encode.c:669-673 | Writes tag and wire type as one varint |
| PbExamples.Number | InstaClone/Pods/nanopb/pb_encode.c:669-706 | Field 1 with the number 150 is 08 96 01, the encoding document's first example |
| PbExamples.Testing | InstaClone/Pods/nanopb/pb_encode.c:709-724 | Field 2 with the string testing is 12 07 74 65 73 74 69 6E 67 |
| PbExamples.Nested | InstaClone/Pods/nanopb/pb_encode.c:727-777 | Field 3 with the first example as submessage is 1A 03 08 96 01 |
| PbExamples.PackedArray | InstaClone/Pods/nanopb/pb_encode.c:147-203 | Field 4 with 3, 270, 86942 packed is 22 06 03 8E 02 9E A7 05 |
| PbExamples.Fixed32 | InstaClone/Pods/nanopb/pb_encode.c:641-650 | A fixed 32-bit number has wire type 5 and its low byte first |
| PbExamples.Fixed64 | InstaClone/Pods/nanopb/pb_encode.c:653-666 | A fixed 64-bit number has wire type 1 and its low byte first |
| PbExamples.MinusOne | InstaClone/Pods/nanopb/pb_encode.c:608-627 | -1 of a kind that is not zigzag takes ten bytes: nine times FF, and 01 |
| PbEncode.EncodeString | InstaClone/Pods/nanopb/pb_encode.c:709-715 | Writes the length and the bytes, if they fit |
| PbEncode.EncScalar | InstaClone/Pods/nanopb/pb_encode.c:769-910 | Succeeds exactly when the value is within its storage and its bytes fit, and writes them |
| PbEncode.EncValue | InstaClone/Pods/nanopb/pb_encode.c:341-348 | The same for any field type, submessages included |
| PbEncode.EncodeSubmessage | InstaClone/Pods/nanopb/pb_encode.c:717-765 | Succeeds exactly when the message is encodable and its bytes fit, and writes length and bytes: the size counted always agrees with the size written |
| PbEncode.PackedSize | InstaClone/Pods/nanopb/pb_encode.c:169-189 | The size counted for a packed array is the number of bytes its elements take |
| PbEncode.EncodePacked | InstaClone/Pods/nanopb/pb_encode.c:163-204 | Writes tag, length and elements, if they fit |
| PbEncode.EncodeUnpacked | InstaClone/Pods/nanopb/pb_encode.c:206-235 | Writes a tag before each element, as far as all elements are encodable and fit |
| PbEncode.EncodeArray | InstaClone/Pods/nanopb/pb_encode.c:147-236 | Fails over the array size, writes nothing for none, else packed or unpacked |
| PbEncode.EncodeBasicField | InstaClone/Pods/nanopb/pb_encode.c:341-426 | Writes the field's bytes exactly when it is present: required, has-flag or proto3 default, repeated, oneof |
| PbEncode.Encode | InstaClone/Pods/nanopb/pb_encode.c:528-550 | Succeeds exactly when the message is within its storage and there is room, and writes its bytes: no other failure can occur |
| PbCodec.GetEncodedSize | InstaClone/Pods/nanopb/pb_encode.c:567-577 | The count is the number of bytes encoding writes |
| PbCodec.EncodeToBuffer | InstaClone/Pods/nanopb/pb_encode.c:528-550 | A buffer of the counted size suffices, and no smaller one |
| PbDecode.DecodeTag | InstaClone/Pods/nanopb/pb_decode.c:298-319 | A tag written is read back; at the end of the stream, end of file |
| PbDecode.SkipField | InstaClone/Pods/nanopb/pb_decode.c:321-334 | Skips exactly the payload of an unknown field |
| PbDecode.ClampVarint | InstaClone/Pods/nanopb/pb_decode.c:1345-1380 | Accepts an int of its size also where older encoders sent 32 bits; whatever is accepted is in range |
| PbDecode.DecBool | InstaClone/Pods/nanopb/pb_decode.c:1334-1343 | Reads back a bool written |
| PbDecode.DecVarint | InstaClone/Pods/nanopb/pb_decode.c:1345-1380 | Reads back a signed value, also one that older encoders sent as 32 bits |
| PbDecode.DecUVarint | InstaClone/Pods/nanopb/pb_decode.c:1382-1404 | Reads back an unsigned value written |
| PbDecode.DecSVarint | InstaClone/Pods/nanopb/pb_decode.c:1406-1428 | Reads back a zigzag value written |
| PbDecode.DecFixed | InstaClone/Pods/nanopb/pb_decode.c:1430-1440 | Reads back a fixed-size value written |
| PbDecode.DecBlob | InstaClone/Pods/nanopb/pb_decode.c:1447-1523 | Reads back bytes or a string written, within its storage |
| PbDecode.DecFixedLengthBytes | InstaClone/Pods/nanopb/pb_decode.c:1549-1570 | Reads back bytes of the fixed length; an empty string stands for zeros |
| PbDecode.MakeSubstream | InstaClone/Pods/nanopb/pb_decode.c:372-385 | The substream holds exactly the delimited bytes, and the stream what follows |
| PbDecode.CloseSubstream | InstaClone/Pods/nanopb/pb_decode.c:387-404 | The stream goes on behind the substream's end, read or not |
| PbDecode.DecSubmessage | InstaClone/Pods/nanopb/pb_decode.c:1525-1547 | A submessage's tokens have their meaning on the struct that is there already; fails exactly when they do |
| PbDecode.DecPacked | InstaClone/Pods/nanopb/pb_decode.c:436-445 | Appends the packed elements, stopping at the end of the bytes or of the storage |
| PbDecode.DecodeRepeated | InstaClone/Pods/nanopb/pb_decode.c:424-464 | A packed or single element appended has its meaning, or fails when the array is full |
| PbDecode.DecodeStaticField | InstaClone/Pods/nanopb/pb_decode.c:406-483 | A field's payload has the meaning of its token: required, optional, repeated, oneof |
| PbDecode.DecodeTagged | InstaClone/Pods/nanopb/pb_decode.c:966-1029 | The field with the tag is found, marked and decoded; an unknown one is skipped |
| PbDecode.DecodeNoinit | InstaClone/Pods/nanopb/pb_decode.c:934-1082 | On the bytes of any tokens (any order, repeats, unknown fields, packed or not) exactly what they mean, with missing required fields refused; on any input at all the struct keeps its shape |
| PbDecode.Decode | InstaClone/Pods/nanopb/pb_decode.c:1084-1096 | The same on a struct set to defaults |
| PbCodec.DecodeBuffer | InstaClone/Pods/nanopb/pb_decode.c:1084-1096 | Decoding an encoded message succeeds, uses all bytes, and gives every value back that was set |
| PbCodec.RoundTrip | InstaClone/Pods/nanopb/pb_encode.c:528-577 | Size, encode, decode: every encodable message shorter than 4 GiB comes back with every value it had, field by field, at every nesting depth |

## Left out

Deliberately weaker than the code or the promise:

- DbFormat.LookupKeySeesVisible: the varint length in front of a memtable's lookup key.
- Compaction.DoCompactionWork: corrupt keys, I/O errors and shutdown are left out, and where tables are cut is arbitrary; the smallest snapshot is below the greatest sequence number, which a database never reaches.
- LsmStore.Get: a memtable or table is a set of entries, and the search within one a loop over it; the search among the files of a level is `VersionFiles.FileFor`.
- LsmStore.FlushKeeps: levels are sets of entries there; the ranges of their files are in `LevelRanges`.
- CompactionInputs.SetupOtherInputs: the sizes that allow inputs to grow or to be cut short are given; a manual compaction has both ends.
- LevelRanges.LevelsStayDisjoint: which files are compacted, limits on sizes and on overlap with grandparents are arbitrary there.
- GaplessInputs.WithoutManualCompactions: with which file a compaction starts, and when, is arbitrary; so is whether sizes allow inputs to grow.
- PosixFile.WritableFile.WriteUnbuffered: interrupted writes that are tried again, sync and close.
- LogReader.Reader.ReadRecord: the reader starts at offset zero, checks checksums, and reads whole blocks until the file ends; read errors and what is reported of dropped bytes are left out.
- Durability.AcknowledgedWritesSurviveIff: what was appended survives a crash, since crashes are those of the process there; paranoid checks are not modelled. Which records behind a torn end the reader sees is left open there and said in `TornLogs.SeenAreRead`.
- SyncedLogs.SyncedWritesSurviveIff: a crash of the machine cuts files at their end, and a synced file keeps its name, although the directory is synced only with the manifest.
- DbIterator.InternalIterator.Seek: the merging iterator underneath is this contract; its status is always ok and keys parse.
- WriteQueue.DBWriter.BuildBatchGroup: the sizes of batches are given numbers.
- TimerLoop.Loop.RunTimers: callbacks leave timers alone; the heap is the set of its members, whose pointer form is `Heap`; `timer_counter` does not wrap.
- Queue.Walk: callbacks leave the queue alone; that internal handles are passed over without a callback is not modelled.
- ThreadPool.ExactlyOnePlace: requests left when the exit message is taken first stay where they are; draining at exit is not promised.
- ThreadPool.DoneTwice: a cancel after `done` finds the queue neighbours of the request as they were when it was taken out, as they are in that `done`; what a later one does to memory is not modelled.
- Idna.ToAscii: the bytes behind the end of the name that the decoder reads, up to three, are there, as the code takes for granted; names of 4 GiB and more are left out.
- Inet6Parser.Pton6: strings end at their last character instead of a NUL, and the scope after a percent sign is cut off by the caller.
- PbEncode.Encode: messages are values, so the memory layout of structs and aliasing are not captured; sizes are below 2^64.
- PbDecode.DecodeNoinit: what is decoded is stated for the bytes of well-formed fields in their shortest varints; for other input only that the struct keeps its shape.
- PbCodec.RoundTrip: messages of 4 GiB and more are left out, because lengths are read as 32-bit varints; sizes are below 2^64.

Not modelled:

- File and network I/O, threads, locks and clocks themselves: they are atomic steps or parameters.
- CRC values (a parameter of the log), compression, tables as files, caches, filters, statistics, logging and read sampling.
- LevelDB's edits of the manifest, beyond an atomic install, the older log number kept for databases of earlier versions, sequence numbers recomputed in recovery, repair.
- nanopb callbacks, extensions' contents, pointer fields, fixed-count arrays, builds without 64-bit integers, delimited and null-terminated framing.
- libuv's polling of file status, handles other than timers, and the functions that only set or get a field.
- The Swift applications and the second, near-identical copy of nanopb.
