# VecScaleDB storage and read path, verified

VecScaleDB keeps a mapping from 64-bit ids to vectors. One logical map is spread
over a memtable with delete markers, a list of immutable segments with overlapping
versions, a tombstone set and a write-ahead log; flush, merge, truncation and replay
rewrite it all the time. Readers answer queries from cached segments with their own
visibility index, a coordinator gathers their answers, and a writer shards batches
over several engines and keeps a segment registry. This project models those parts
and proves that they keep, lose or return exactly what a plain map would.

`dafny verify dfyconfig.toml` checks everything.

## How the proof is organised

- **Byte level.** `ByteCodec`, `Framing`, `WalCodec` and `WalRecovery` treat the log
  file as bytes: little-endian headers, ids through unsigned 64-bit words, any checksum
  function. `WriteAheadLog.Wal` is the object that reads and writes the file.
- **Objects.** `MemTables.MemTable`, `Snapshots.SnapshotManager`, `LsmEngine.Engine`,
  `SegmentCaches.SegmentCache`, `HashRing.ConsistentHashRing`, `Registry.Coordinator`,
  `Registry.Registrar` and `Pipeline.WriterPipeline` have the fields and methods of the
  Python classes. Each method is proved to compute a specification function of the old
  state (`LsmModel` for the engine, `Merged` for result lists, `Newest` for the cache).
- **Meaning.** `LsmMaps` restates the engine's steps on finite maps, `LsmInvariants`
  relates the two, `LsmRuns` and `LsmThreshold` compare whole runs with a plain map,
  `LsmHistory` traces LSNs and vectors through every run, `LsmSearch`, `SearchOrder` and
  `LsmSnapshots` say what a search returns, in which order, now and at an old snapshot; `Replies`
  says what inserts and deletes answer. `ReaderAgreement`, `ReaderSnapshots`,
  `Sharding` and `DistributedSearch` compose the pieces up to the coordinator's answer.
- **Inputs that fail.** `LsmReplays`, `LsmThreshold`, `LostSnapshots`, `MissedNeighbours`,
  `NegativeIds`, `StaleReaders` and `ShardedDeletes` hold the concrete runs on which a promise
  breaks; the exact condition for each stands in the module it is about.

The central notions: `LsmInvariants.View(st)` is the logical map (the memtable entry, else a
tombstone, else the newest segment row); `Layered` orders log, memtable and segment LSNs;
`Good` adds what log, memtable, segments and tombstones have in common after every run,
crashes included, and `LsmMaps.Clean` what they have in common as long as every step met its
guard. `LsmRuns.Guard` is the exact condition of each operation, stated on the state before it.

## What the proofs found

- **Merge threshold one.** A merge drops the tombstones of ids found in the segments it
  merges, even if a segment it leaves out, or the memtable, still holds the id.
  `LsmRuns.MergePreservesIff` gives the exact condition for one merge. Over crash-free runs
  the engine refines a plain map if and only if the merge threshold is not one
  (`LsmThreshold.RefinesIffThreshold`); with one, `MergeResurrects` is a run of inserts, a
  delete and flushes in which a deleted vector comes back.
- **Replay of delete then insert.** A live insert clears the tombstone of its ids, a replayed
  insert does not. A crash therefore hides an acknowledged insert when a replayed delete of
  the same id precedes it (`LsmReplays.ReinsertIsLost`). The tombstone then lives in memory
  only: the next flush does not write it and cuts the log, so the row shows again after the
  next restart, graceful or not (`LsmReplays.HiddenInsertReturns`). `LsmRuns.RecoveryIff` is the
  exact condition after every run; while every step meets its guard it says that no replayed
  id was deleted and inserted again (`GuardedRecoveryIff`), and a crash once the segment is
  written, or a graceful stop whose flush is safe, loses nothing (`GuardedStopsRecover`).
  `LsmRuns.StopGuard` says of any state whether stopping and starting from it loses nothing.
- **Torn tails.** `open` appends after unread bytes without cutting them. All batches that may
  come next are recoverable under the next LSN exactly when the file has no unread bytes
  (`WriteAheadLog.FirstAppendIffIntact`): on a torn file the bytes force the op of a record
  that could be recovered, so an insert and a delete under that LSN never both can be.
  Truncation repairs the file.
- **One tombstone file for all shards.** Every shard overwrites tombstones.json with its own
  set, so the file holds one shard's tombstones (`Sharding.FileHasOneWriter`) and a delete over
  two shards shows the first shard's ids again to every refreshed reader
  (`ShardedDeletes.ShardedDeleteReturns`). Where filtering loses no hit, the coordinator's answer
  is the exact top-k of what the readers see (`DistributedSearch.DistributedSearchIsExact`), and
  they see the plain map exactly when nothing new is buffered and no shard but the one in the
  file has a tombstone over a stored row (`DistributedSearch.ReadersSeeOneShardsDeletes`).
- **Filtering after top-k.** Hidden ids are removed from each segment's k hits, so a deleted
  nearest row can leave a live one unseen (`MissedNeighbours.NearestDeletedIsMissed`). A search
  is exact where each source has at most k rows or none that is hidden
  (`LsmSearch.UnobstructedSearchIsExact`, for the coordinator
  `DistributedSearch.ClearReadersServePlainMap`).
- **Old snapshots** are not frozen views, although `snapshot.py` calls searches at them stable:
  tombstones carry no LSN, the memtable keeps one version per id, and a flush or a merge stamps
  all rows with one snapshot. `LsmSnapshots` gives the exact condition under which each
  part of an operation leaves a snapshot alone, and, for states with fewer segments than the
  merge threshold, as between the operations of every crash-free run with a threshold of two
  or more, under which a whole operation does, with the flush and the merge it sets off (`OperationKeepsSnapshotIff`): a
  merging insert, for one, only if the snapshot shows nothing at all. `LostSnapshots` has a run
  that breaks each. What always holds is that no later vector leaks (`LsmSearch.NoFutureLeak`).
- **Readers at old snapshots.** A reader hides a row if any loaded segment rewrites its id, also
  one above the snapshot. It shows the ids whose newest loaded row is in sight
  (`ReaderSnapshots.ReplyAtIsSound`), so an id that was rewritten since disappears
  (`RewrittenIdDisappears`), and it shows what the engine's snapshot does exactly when no shown
  id was (`ReaderSeesSnapshotIff`). A cache too small for its shard shows the same exactly when
  no shown id is stored in evicted segments only (`EvictionShowsIff`).
- **A refresh that cannot load a segment** leaves the reader's visibility index as it was
  before with some segments loaded and others dropped. With room for every wanted segment, the
  loop stops at the first one that is neither cached nor on disk (`SegmentCaches.FirstMissing`)
  and leaves the kept segments and those before it (`Partial`). The old index then still hides
  what a rebuilt one would exactly if no row of these has gained or lost a newer holder since
  it was built (`SameHolders`); every search then answers as after a rebuild. Otherwise a
  reader may answer with an overwritten vector (`StaleReaders.FailedRefreshServesOldVector`)
  until the next refresh that succeeds.
- **A lost registration** is never made again: a segment that the writer's bookkeeping lists
  and the registry has lost is skipped by every reconciliation (`Registry.LostStaysLost`).
  `Registry.ReconciledIff` says when reconciling works.
- **Negative ids.** They are stored, counted and deleted like others, but the mask meant for
  unfilled result slots removes them from every search: after inserting one, no search at any
  k returns it (`NegativeIds.NegativeIsLost`). Where filtering loses no other hit and no negative
  id ties with another, a search is the exact top-k of the whole map exactly when no negative
  id is among the k nearest (`LsmSearch.SearchOfAllIff`; with ties, `UnobstructedOfAllIff` and, for
  the coordinator, `DistributedSearch.ReadersServeWholeMapIff`), and one for as many hits as
  there are ids finds them all exactly when none is negative (`LsmSearch.FindsAllIff`).
- **A rejected batch** (too many ids for the record header) still consumes an LSN.

Where the wording of docstrings and the code differ, the model follows the code.

## Model

| member | source | states |
|---|---|---|
| WalRecovery.RecoverInvertsSerialize | vecscaledb/storage/wal.py:66-107 | recovering the concatenation of serialised records returns exactly those records, for every list of records the format can hold and every checksum function |
| WalRecovery.ReserializeIsPrefix | vecscaledb/storage/wal.py:66-107 | for every byte string, logging again what was recovered from it writes a byte prefix of it |
| WalRecovery.TornTail | vecscaledb/storage/wal.py:72-88 | after a cut at any byte, recovery returns exactly the records lying wholly before the cut |
| WalRecovery.BadChecksumStops | vecscaledb/storage/wal.py:90-93 | a complete record with a wrong checksum ends recovery just before it, whatever follows |
| WalRecovery.AppendRecoverableIffIntact | vecscaledb/storage/wal.py:40-59 | for every file and every LSN: each insert or delete record of at least one id under that LSN is recovered after what is already there if and only if the file has no unread bytes |
| WalRecovery.NotBothRecovered | vecscaledb/storage/wal.py:72-93 | on a file with unread bytes, of an insert and a delete record under the same LSN at most one is recovered, whatever their batches |
| WriteAheadLog.FirstAppendIffIntact | vecscaledb/storage/wal.py:40-59 | all non-empty batches the first append after opening may write, under the LSN it will use, are recoverable if and only if the file has no unread bytes |
| WalRecovery.IntactAppend | vecscaledb/storage/wal.py:49-59 | appending to a file without unread bytes adds exactly the new record to what recovery returns, and leaves no unread bytes |
| WalRecovery.TruncationRecovers | vecscaledb/storage/wal.py:109-130 | the truncated file recovers to exactly the kept records and has no unread bytes, even if the old file was damaged |
| WalCodec.FieldsOfSerialized | vecscaledb/storage/wal.py:171-178 | the header, ids and vectors read back from a serialised record are the record's own, negative ids included |
| WalCodec.DecodeEncodeIds | vecscaledb/storage/wal.py:97 | int64 ids survive the round trip through uint64 words |
| ByteCodec.EncodeDigit | vecscaledb/storage/wal.py:17-18 | byte i of an encoded number is its i-th base-256 digit, the lowest first |
| WalCodec.SerializedSize | vecscaledb/storage/wal.py:171-178 | a record takes 13 bytes, eight an id, four a component, and four of checksum |
| WalCodec.HeaderDigits | vecscaledb/storage/wal.py:171-178 | the first 13 bytes of a record: the digits of the LSN, the op, the digits of the count |
| WalCodec.OpByte | vecscaledb/storage/wal.py:14-15 | byte 8 is 0 in an insert and 1 in a delete |
| WalCodec.IdDigits | vecscaledb/storage/wal.py:171-178 | the eight bytes of each id are the digits of the id modulo 2^64 |
| WalCodec.ComponentDigits | vecscaledb/storage/wal.py:171-178 | the four bytes of each vector component are the digits of its pattern, vector by vector |
| WalCodec.ChecksumDigits | vecscaledb/storage/wal.py:171-178 | the last four bytes are the digits of the checksum of everything before them |
| WalCodec.FirstHeader | vecscaledb/storage/wal.py:171-178 | the header of a first one-row insert, byte by byte |
| WriteAheadLog.Wal.Open | vecscaledb/storage/wal.py:40-47 | the LSN counter is at least the meta file's and the last recovered record's and is one of the two, and the file is untouched |
| WriteAheadLog.Wal.Append | vecscaledb/storage/wal.py:49-59 | the file grows by the record under the next LSN, whose bytes the WalCodec rows fix, or the batch is refused; each error case leaves the file alone |
| WriteAheadLog.Wal.Recover | vecscaledb/storage/wal.py:66-107 | the read loop returns the parse of the whole file |
| WriteAheadLog.Wal.TruncateBefore | vecscaledb/storage/wal.py:109-130 | the file becomes the serialisation of the recovered records from the given LSN on |
| MergeResults.Merge | vecscaledb/storage/lsm.py:27-47 | the loops compute the specified top-k of all hits of all lists |
| MergeResults.MergedIsWellFormed | vecscaledb/storage/lsm.py:27-47 | the result has distinct undeleted ids, ascending distances, at most top_k entries, and each id's smallest distance |
| MergeResults.MergedIsTopK | vecscaledb/storage/lsm.py:43 | within every distance the result holds as many ids as there are candidates, up to top_k |
| MergeResults.TiesKeepFirstSeenOrder | vecscaledb/storage/lsm.py:43 | ids at equal distance come in the order they were first seen |
| MergeResults.FirstSeenWins | vecscaledb/storage/lsm.py:27-47 | of two ids the one with the earlier first hit comes first if it is no farther, and is not cut off before the other |
| Dicts.PutInPlace | vecscaledb/storage/lsm.py:39-41 | assigning to a present key changes that entry's value and leaves every entry where it was |
| ScatterGather.Gather | vecscaledb/coordinator/app.py:110-128 | the coordinator's loop merges the replies received and reports a missing one |
| ScatterGather.EarlierReplyWins | vecscaledb/coordinator/app.py:110-128 | of two ids the one that an earlier reply mentions comes first if it is no farther, and is not cut off before the other |
| ScatterGather.ScatterGatherLaw | vecscaledb/coordinator/app.py:110-128 | merging per-reader top-k lists and taking top-k again gives the distances of one merge over all raw hits, for every k and every grouping, ids overlapping or not |
| ScatterGather.ScatterGatherIds | vecscaledb/coordinator/app.py:110-128 | when no two candidates are equally near, the ids agree too |
| MemTables.MemTable.Insert | vecscaledb/storage/lsm.py:70-77 | a well-shaped batch overwrites its ids in order, keeping dictionary positions; another is refused |
| MemTables.MemTable.Delete | vecscaledb/storage/lsm.py:79-85 | every given id becomes a delete marker with the given LSN |
| MemTables.PutAllIs | vecscaledb/storage/lsm.py:70-77 | as a map, an inserted batch overrides with the last duplicate of each id |
| MemTables.LastDuplicateWins | vecscaledb/storage/lsm.py:70-77 | of several vectors for one id in a batch the last is kept |
| MemTables.LiveRowsAre | vecscaledb/storage/lsm.py:108-129 | the arrays hold each live id visible at the snapshot once, with its vector |
| MemTables.LiveRowsOrder | vecscaledb/storage/lsm.py:108-129 | the arrays keep the order of the dictionary |
| MemTables.MemTable.ShouldFlush | vecscaledb/storage/lsm.py:105-106 | a flush is due when the live entries reach the threshold; delete markers do not count |
| MemTables.MemTable.Search | vecscaledb/storage/lsm.py:87-103 | the memtable's hits are those of the flat index over its visible rows |
| Snapshots.ReleaseUndoesAcquire | vecscaledb/storage/snapshot.py:16-25 | releasing a snapshot undoes its creation, whatever was created in between |
| Snapshots.CountsReaders | vecscaledb/storage/snapshot.py:16-34 | the active count goes up by one with each snapshot created and down by one with each active one released |
| Segments.FilterResultIds | vecscaledb/storage/lsm.py:50-59 | exactly the hits whose ids are not hidden, in order |
| LsmEngine.Engine.Start | vecscaledb/storage/lsm.py:195-210 | a started engine is the replay of the log above its newest segment over what is on disk, in any directory order |
| LsmEngine.Engine.Insert | vecscaledb/storage/lsm.py:217-240 | the new state and the reply of an insert, with every error case; on a log file with unread bytes the recovered log is that of the appended bytes |
| Replies.InsertFlushesIff | vecscaledb/storage/lsm.py:217-240 | an insert is refused for its size alone; it replies with the LSN the counter has then, and with a flush if and only if the live rows then buffered are not none and reach the threshold; the memtable is empty afterwards exactly when they reach it or nothing was in it |
| LsmEngine.Engine.Delete | vecscaledb/storage/lsm.py:242-251 | the new state, the log file and the reply of a delete, with every error case |
| LsmEngine.Engine.Flush | vecscaledb/storage/lsm.py:253-286 | the new state of a flush and the segment it returns |
| LsmInvariants.FlushWritesTombstones | vecscaledb/storage/lsm.py:255-260 | a flush rewrites the tombstone file if and only if a delete marker is buffered, with the markers added |
| Replies.FlushSavesCounter | vecscaledb/storage/wal.py:109-130 | after a flush that writes a segment a new process continues from the same LSN, rejected batches included |
| LsmEngine.Engine.Merge | vecscaledb/storage/lsm.py:288-352 | the new state of a merge and the segment it returns |
| LsmEngine.Engine.Stop | vecscaledb/storage/lsm.py:212-215 | a stop flushes, and fails on an engine that is not started |
| LsmEngine.Engine.Search | vecscaledb/storage/lsm.py:354-397 | the answer of a search, at the given snapshot or the current LSN; the snapshot counts end as they began |
| SearchOrder.EarlierSourceWins | vecscaledb/storage/lsm.py:366-393 | of two ids that their sources return and may show at the same distance, the one from the older segment, or stored rather than buffered, or listed first by one source, comes first in the answer and is not cut off before the other; so too if it is nearer |
| LsmEngine.Engine.Ntotal | vecscaledb/storage/lsm.py:413-421 | the set arithmetic of the count |
| LsmModel.MergedRowsAre | vecscaledb/storage/lsm.py:298-317 | the merged rows are each id's newest row, without the tombstoned ids |
| LsmModel.MergedRowsAscend | vecscaledb/storage/lsm.py:312 | they are listed by ascending id |
| LsmInvariants.MergeWritesTombstones | vecscaledb/storage/lsm.py:311-348 | a merge takes the tombstones of all ids in the merged segments out of memory and file |
| LsmInvariants.StartIsRestart | vecscaledb/storage/lsm.py:433-444 | loading the directories, in any order and among other shards', restores the segment list |
| LsmInvariants.TruncationKeepsNewer | vecscaledb/storage/lsm.py:278-281 | truncation in a flush keeps exactly the records above the newest flushed snapshot |
| LsmRuns.StepRefinesIff | vecscaledb/storage/lsm.py:195-352 | from every state that any run reaches, each operation, crash or restart acts on the logical map as on a plain map if and only if the state before it meets its guard |
| LsmRuns.EveryRunIsGood | vecscaledb/storage/lsm.py:195-352 | the invariant those results need holds after every run, crashes included and guards met or not |
| LsmRuns.GuardedRunsRefine | vecscaledb/storage/lsm.py:195-352 | over every run from empty storage whose steps meet their guards, crashes included, the logical map is the plain map |
| LsmRuns.FirstUnguardedStepShows | vecscaledb/storage/lsm.py:195-352 | the first step that misses its guard makes the logical map differ from the plain map |
| LsmRuns.ModelIsPlain | vecscaledb/storage/wal.py:49-59 | over fewer than 2^64 operations, batches are rejected for their size alone, so the plain map depends only on the operations |
| LsmRuns.CrashFreeRunsRefine | vecscaledb/storage/lsm.py:217-352 | every run of inserts, deletes, flushes, merges and graceful restarts refines the plain map for every merge threshold but one, with fewer segments than the threshold between operations |
| LsmThreshold.RefinesIffThreshold | vecscaledb/storage/lsm.py:282-315 | all crash-free runs refine the plain map if and only if the merge threshold is not one |
| LsmThreshold.MergeResurrects | vecscaledb/storage/lsm.py:311-348 | with merge threshold one, writing an id into two segments, deleting it, inserting another id and flushing makes it visible again although the plain map does not hold it |
| LsmRuns.MergePreservesIff | vecscaledb/storage/lsm.py:288-352 | from every layered state, a merge leaves every id's visible value alone if and only if no tombstone it drops still hides a row of a segment it leaves out or a live memtable entry |
| LsmRuns.RecoveryIff | vecscaledb/storage/lsm.py:195-210 | after every run a new process sees the old one's map if and only if, for each id only a tombstone could hide, the tombstones on disk and the replayed deletes name it exactly if the old process's did; the counter restarts from the value on disk |
| LsmRuns.GuardedRecoveryIff | vecscaledb/storage/lsm.py:195-210 | after every run whose steps met their guards, that is if and only if no id's last replayed record is an insert with a replayed delete before it |
| LsmReplays.ReinsertIsLost | vecscaledb/storage/lsm.py:205-209 | from every state, deleting an id, inserting it again without a flush and crashing hides the acknowledged insert |
| LsmReplays.HiddenInsertReturns | vecscaledb/storage/lsm.py:205-281 | delete, insert, crash, flush: the id the crash hid is visible again after the next restart, after a crash or a graceful stop |
| LsmRuns.CrashAfterSegmentIff | vecscaledb/storage/lsm.py:268-281 | after every run, a crash between creating the segment and truncating the log loses nothing if and only if, before the flush, every tombstone over a stored or live buffered row is in the file, or a delete marker is buffered, which makes the flush write all tombstones |
| LsmRuns.GracefulStopIff | vecscaledb/storage/lsm.py:212-215 | after every run, a stop and a start lose nothing if and only if the state before the stop meets its condition: if the flush will merge, no tombstone or marker the merge drops hides anything it leaves; if it will only write a segment, as for a crash after the segment; if it has no row to write, the file it leaves and the replayed deletes name exactly the stored ids that are tombstoned or marked |
| LsmRuns.GuardedStopsRecover | vecscaledb/storage/lsm.py:212-281 | after every run whose steps met their guards, a stop whose flush is safe and a crash once the segment is written lose nothing |
| LsmHistory.EveryRunIsTraced | vecscaledb/storage/lsm.py:253-281 | over every run, crashes included, appended LSNs strictly ascend, log, memtable and segment LSNs are layered, and every stored vector comes from an insert no newer than its segment's snapshot |
| LsmHistory.RunsAreContiguous | vecscaledb/storage/wal.py:40-59 | while no batch is rejected, the log is one run of consecutive LSNs ending at the counter, and the counter is the number of records ever appended |
| LsmSearch.SearchIsSound | vecscaledb/storage/lsm.py:354-393 | at the current snapshot each result is live, at the distance of its current vector, once, nearest first, at most top_k |
| LsmSearch.SearchIsExact | vecscaledb/storage/lsm.py:380-393 | with exact segment searches from which filtering removed nothing, or which cover their segment, the search is the exact top-k of the searchable part of the map |
| LsmSearch.UnobstructedSearchIsExact | vecscaledb/storage/lsm.py:380-393 | the same where each source has at most top_k rows, or no row that is negative or hidden |
| LsmSearch.NegativeIsNeverFound | vecscaledb/storage/lsm.py:101-103 | no search returns a negative id |
| LsmSearch.UnshadowedIsUnfiltered | vecscaledb/storage/lsm.py:380-393 | where each source has at most top_k rows or none that is hidden, hidden ids take nothing from a list that does not cover its source |
| LsmSearch.SearchOfAll | vecscaledb/storage/lsm.py:354-397 | with exact segment searches from whose lists hidden ids take nothing, or which cover their segment: the search is the exact top-k of the whole map, negative ids included, only if each negative id has top_k searchable ids that are at least as near, and always if each has top_k that are nearer |
| LsmSearch.SearchOfAllIff | vecscaledb/storage/lsm.py:354-397 | if no negative id is exactly as near as a searchable one, it is the exact top-k of the whole map if and only if each negative id has top_k searchable ids that are at least as near |
| LsmSearch.UnobstructedOfAllIff | vecscaledb/storage/lsm.py:354-397 | ties or not, where each source has at most top_k rows, or none that is negative or hidden: if and only if each negative id has top_k searchable ids that are at least as near |
| LsmSearch.FindsAllIff | vecscaledb/storage/lsm.py:354-397 | with lists as for LsmSearch.SearchOfAll, and asked for as many hits as there are ids, it returns all of them if and only if none is negative |
| NegativeIds.NegativeIsLost | vecscaledb/storage/lsm.py:217-240 | insert one negative id: it is in the map and counted, and every search at every top_k returns nothing |
| LsmSearch.DeletedNearestHidesLiveOne | vecscaledb/storage/lsm.py:380-393 | with two stored rows, the nearer one deleted, a search for one hit returns nothing although the other is live |
| MissedNeighbours.NearestDeletedIsMissed | vecscaledb/storage/lsm.py:354-393 | insert two ids, flush, delete the nearer one: the run after which that search misses |
| LsmSearch.NoFutureLeak | vecscaledb/storage/lsm.py:366-393 | in every traced state, a search at any snapshot returns only vectors written at or before it, at their true distance |
| LsmSnapshots.SearchAtIsSound | vecscaledb/storage/lsm.py:354-393 | a search at any snapshot returns ids of that snapshot's view, at the distances of its vectors, once, nearest first |
| LsmSnapshots.SearchAtIsExact | vecscaledb/storage/lsm.py:354-393 | where no source lost a hit to filtering, it is the exact top-k of that view |
| LsmSnapshots.CurrentView | vecscaledb/storage/lsm.py:366-371 | a snapshot taken now shows the logical map |
| LsmSnapshots.DeleteKeepsSnapshotIff | vecscaledb/storage/lsm.py:242-251 | a delete leaves an older snapshot's view alone if and only if the view shows none of its ids |
| LsmSnapshots.InsertKeepsSnapshotIff | vecscaledb/storage/lsm.py:226-234 | the rows of an insert leave it alone if and only if, for each id, it shows the stored row or nothing is stored and nothing shown |
| LsmSnapshots.FlushKeepsSnapshotIff | vecscaledb/storage/lsm.py:253-281 | a flush leaves it alone if and only if the new segment is visible at it, or it shows no row that only the memtable holds and loses none to a newer marker |
| LsmSnapshots.MergeKeepsSnapshotIff | vecscaledb/storage/lsm.py:288-352 | a merge leaves it alone if and only if the merged segment is visible at it and no dropped tombstone hid anything else, or it is not and no stored row is shown |
| LsmSnapshots.OperationKeepsSnapshotIff | vecscaledb/storage/lsm.py:217-352 | with fewer segments than the merge threshold, as between the operations of every crash-free run with a threshold of two or more: a whole insert, delete, flush or merge, with the flush and the merge it sets off, leaves an older snapshot's view alone if and only if the state before it meets an explicit condition |
| LsmSnapshots.SnapshotIsStable | vecscaledb/storage/snapshot.py:1-31 | over every run in which each part of each operation meets its condition, a snapshot's view stays what it was when it was taken |
| LostSnapshots.DeleteTakesFromSnapshot | vecscaledb/storage/lsm.py:242-251 | insert, then delete: the id is gone from the snapshot taken in between |
| LostSnapshots.InsertTakesFromSnapshot | vecscaledb/storage/lsm.py:226-234 | insert, then insert again: the id is gone from the snapshot taken in between |
| LostSnapshots.FlushTakesFromSnapshot | vecscaledb/storage/lsm.py:253-281 | two inserts, then a flush: the first id is gone from the snapshot taken before the second |
| LostSnapshots.MergeTakesFromSnapshot | vecscaledb/storage/lsm.py:282-345 | insert, flush, insert, flush with merge threshold two: the merge takes the first id from the snapshot taken after the first flush |
| LsmSearch.NtotalIsSize | vecscaledb/storage/lsm.py:413-421 | the count is the size of the logical map |
| SegmentNames.SegmentIdsStayDistinct | vecscaledb/storage/lsm.py:268-345 | over every run, crashes included, no two live segments share a directory if no drawn name repeats |
| SegmentCaches.SegmentCache.Refresh | vecscaledb/reader/search.py:38-61 | whatever the cache held before, a refresh leaves exactly the newest wanted segments up to the bound, oldest first, and a coherent index, or it fails; with room it fails if and only if a wanted segment is neither cached nor on disk, and then leaves what is kept and what comes before the first such segment; the old index still hides what a rebuild would if and only if no cached row has gained or lost a newer holder since it was built |
| SegmentCaches.FitsIff | vecscaledb/reader/search.py:50-60 | with room for every wanted segment, loading fails if and only if one is neither cached nor on disk, with the exact names it leaves |
| SegmentCaches.VisibleAre | vecscaledb/reader/search.py:40-44 | the wanted entries are those of the reader's shard, or all for a reader of all shards, the last listed of each id |
| SegmentCaches.WantedIsOrdered | vecscaledb/reader/search.py:50-52 | they are taken by snapshot, and by name within one snapshot |
| SegmentCaches.HidesLikeIff | vecscaledb/reader/search.py:78-80 | the index built from one set of segments hides what a rebuild from another would, for each of its segments, if and only if no row of it has gained or lost a newer holder |
| StaleReaders.RefreshStops | vecscaledb/reader/search.py:50-60 | a cached segment, one that rewrites its row and one that was just merged away: the refresh fails with the first two cached |
| StaleReaders.ServesUnlessOverwritten | vecscaledb/reader/search.py:78-80 | after loading a segment with one row on top of one with one row, the old index serves if and only if their ids differ |
| StaleReaders.FailedRefreshServesOldVector | vecscaledb/reader/search.py:63-84 | in that cache, with the old index, a query nearer to the overwritten vector gets it; with a rebuilt index it does not |
| SegmentCaches.SegmentCache.RefreshVisibilityIndexIfNeeded | vecscaledb/reader/search.py:101-111 | the index equals a rebuild from the loaded segments although rebuilding is skipped for an unchanged signature |
| SegmentCaches.SegmentCache.SearchAll | vecscaledb/reader/search.py:63-84 | the specified answer; with a coherent index the one a rebuilt index would give; the visible segments go to the end in their order, the others stay in theirs, and the index's coherence does not change |
| SegmentCaches.BuildSegmentHiddenIds | vecscaledb/reader/search.py:113-134 | the loops hide from each segment exactly the ids that a newer loaded segment holds |
| ReaderAgreement.ReaderIsEngineAsRead | vecscaledb/reader/search.py:63-84 | a reader holding a shard's segments returns, entry for entry, ties included, what an engine would that has those segments, an empty memtable and the file's tombstones |
| ReaderAgreement.ReaderSeesIff | vecscaledb/reader/search.py:63-84 | with no live row buffered, a reader sees the engine's logical map if and only if the file names the same stored ids as the engine's tombstones and markers |
| ReaderAgreement.ReaderAgreesWithEngine | vecscaledb/reader/search.py:63-84 | with nothing buffered and the same tombstones over stored rows, reader and engine return the same hits |
| ReaderAgreement.ReaderAgreesAfterFlush | vecscaledb/reader/search.py:38-84 | after any guarded run, a flush, a reconciled registry and a refresh with room for every segment, reader and engine answer every query alike |
| ReaderSnapshots.ReaderAtIsEngine | vecscaledb/reader/search.py:63-84 | at any snapshot and with any cache of ascending segments, a reader returns, entry for entry, what an engine would that has the visible segments and takes the ids rewritten above the snapshot for deleted |
| ReaderSnapshots.ReplyAtIsSound | vecscaledb/reader/search.py:38-84 | a refreshed reader, with room for its shard or not, returns at any snapshot ids whose newest loaded row is in sight, at that row's distance, once, nearest first |
| ReaderSnapshots.ReplyAtIsExact | vecscaledb/reader/search.py:38-84 | where no source lost a hit to filtering, it is the exact top-k of those |
| ReaderSnapshots.ReaderSeesSnapshotIff | vecscaledb/reader/search.py:113-134 | with nothing buffered in sight and the engine's tombstones, the reader sees what the engine's snapshot shows if and only if no id it shows has a newer loaded row above the snapshot |
| ReaderSnapshots.RewrittenIdDisappears | vecscaledb/reader/search.py:113-134 | two segments hold an id, only the older is in sight: the snapshot shows the older row, the reader nothing |
| ReaderSnapshots.EvictionShowsIff | vecscaledb/reader/search.py:59-60 | a cache of the newest segments shows the same if and only if no shown id is stored in evicted segments only |
| HashRing.ConsistentHashRing.AddNode | vecscaledb/coordinator/ring.py:19-25 | the ring stays the sorted list of exactly its nodes' virtual entries, with the node added |
| HashRing.ConsistentHashRing.RemoveNode | vecscaledb/coordinator/ring.py:27-31 | the same with the node taken out |
| HashRing.ConsistentHashRing.GetNode | vecscaledb/coordinator/ring.py:33-40 | binary search with wrap-around finds the first entry at or after the key's token; an empty ring is an error |
| HashRing.ConsistentHashRing.Rebuild | vecscaledb/coordinator/app.py:225-228 | rebuilding from the reader list gives the ring of exactly those readers |
| HashRing.RingIsCanonical | vecscaledb/coordinator/ring.py:19-31 | the list depends only on the node set, so the order of additions and removals does not matter and removing and re-adding a node restores it entry for entry |
| HashRing.EntriesPerNode | vecscaledb/coordinator/ring.py:19-25 | every node has exactly virtual_nodes entries |
| HashRing.OwnerIsCyclicSuccessor | vecscaledb/coordinator/ring.py:33-40 | no entry is met before the owner's when walking clockwise from the key |
| HashRing.AddingMovesKeysOnlyToNewNode | vecscaledb/coordinator/ring.py:19-40 | adding a node moves keys only to it, for every hash function, colliding tokens included |
| HashRing.RemovingMovesOnlyOwnedKeys | vecscaledb/coordinator/ring.py:27-40 | removing a node changes the owner only of keys it owned |
| Registry.Coordinator.RegisterSegment | vecscaledb/coordinator/app.py:149-158 | the entry is stored and the current snapshot becomes the larger of itself and the segment's |
| Registry.Coordinator.CurrentSnapshotId | vecscaledb/coordinator/app.py:319-328 | the current snapshot is the largest one ever registered, deleted segments included |
| Registry.Registrar.Reconcile | vecscaledb/writer/pipeline.py:170-186 | for any registry and any bookkeeping: stale entries of the writer's shards go, local segments not believed registered are added, the rest stays; the bookkeeping loses the stale ids and gains the local ones, the current snapshot does not decrease |
| Registry.ReconciledIff | vecscaledb/writer/pipeline.py:170-186 | the registry's part for the writer's shards then is its local segments if and only if every local segment believed registered was listed under its own entry |
| Registry.StillTrackedIff | vecscaledb/writer/pipeline.py:179-186 | a local segment that the bookkeeping lists and the registry has lost stays lost through a reconciliation, and one that is listed rightly stays so |
| Registry.LostStaysLost | vecscaledb/writer/pipeline.py:179-186 | an empty registry and bookkeeping that lists the one local segment: a reconciliation changes neither |
| Registry.LoadedIsTrackedIff | vecscaledb/writer/pipeline.py:188-193 | after a start the bookkeeping is right if and only if the entries listed under local names are the local segments' |
| Registry.Registrar.LoadRegistered | vecscaledb/writer/pipeline.py:188-193 | the bookkeeping becomes the registered ids, or nothing if the registry cannot be reached |
| Sharding.ShardsHoldParts | vecscaledb/writer/pipeline.py:82-138 | for any number of shards and any batches, duplicate and negative ids included, each shard holds exactly the plain map's ids with its remainder |
| Sharding.FileHasOneWriter | vecscaledb/storage/lsm.py:456-460 | after every run the shared tombstone file holds exactly one shard's tombstones |
| ShardedDeletes.DeleteLeavesLastShards | vecscaledb/writer/pipeline.py:130-138 | after a delete over several shards, that is the last shard the delete visited |
| Sharding.GroupsInOrder | vecscaledb/writer/pipeline.py:92-98 | the shards are visited in the order in which the batch first mentions them |
| Sharding.ShardsRefineMap | vecscaledb/writer/pipeline.py:82-157 | the shards' maps are disjoint, their union is the plain map, and the summed counts are its size |
| Sharding.ShardsRefineOneEngine | vecscaledb/writer/pipeline.py:85-138 | any number of shards together hold and count what a single engine would |
| Pipeline.WriterPipeline.constructor | vecscaledb/writer/pipeline.py:36-60 | at least one engine, each over its own log directory, torn logs included, and under its own shard number, all over one tombstone file |
| Pipeline.WriterPipeline.Start | vecscaledb/writer/pipeline.py:68-74 | every engine is started on what is on disk, torn logs included, the bookkeeping is loaded, and the registry's part for these shards becomes their segments if and only if it listed no foreign entry under a local name |
| Pipeline.StartedAreRestarts | vecscaledb/writer/pipeline.py:68-74 | on what an earlier writer left, in any directory order, every shard is that shard restarted |
| Pipeline.WriterPipeline.Insert | vecscaledb/writer/pipeline.py:82-122 | every engine takes its share's step, the reply is the one Replies.InsertReplyIs fixes, and afterwards the registry's part for these shards is all their segments; a refused batch leaves the registry alone |
| Pipeline.WriterPipeline.Delete | vecscaledb/writer/pipeline.py:124-146 | every engine takes its share's step, the others seeing only the tombstone file it leaves, and the reply is the one Replies.DeleteReplyIsLargest fixes |
| Replies.InsertReplyIs | vecscaledb/writer/pipeline.py:82-122 | a well-shaped insert succeeds if and only if no shard refuses its part; its LSN is the largest that a shard taking part has then reached, it reports a flush if and only if on some of them the live rows reach the threshold, and wal_lsn is the largest of all engines |
| Replies.DeleteReplyIsLargest | vecscaledb/writer/pipeline.py:124-146 | the same for a delete: the LSN is the largest that a shard some id falls on has then reached, zero if none |
| Replies.RefusalStops | vecscaledb/writer/pipeline.py:99-111 | an insert stops at the first shard that refuses: the shards before it keep their parts, its own counter moves on, those after it are not asked |
| Replies.DeleteRefusalStops | vecscaledb/writer/pipeline.py:134-138 | the same for a delete |
| Pipeline.WriterPipeline.GetHealth | vecscaledb/writer/pipeline.py:148-157 | the engines' counts and active snapshots summed, and the largest LSN |
| Replies.HealthIs | vecscaledb/storage/lsm.py:399-408 | an engine reports the size of the logical map and the number of live buffered rows |
| Pipeline.InsertTidies | vecscaledb/writer/pipeline.py:82-113 | an insert, refused half way or not, keeps every shard layered, every segment name unique across shards, and the registered segments registered |
| DistributedSearch.DistributedSearchIsExact | vecscaledb/coordinator/app.py:99-128 | for any number of shards, any batches and refreshed readers, the gathered answer is the exact top-k of the union of what the readers see, where no reader's source lost a hit to filtering |
| DistributedSearch.ReadersSeePlainMapIff | vecscaledb/reader/search.py:38-84 | that union is the plain map if and only if on every shard nothing new is buffered and the shared file has every tombstone over a stored row |
| DistributedSearch.ReadersSeeOneShardsDeletes | vecscaledb/storage/lsm.py:242-251 | equivalently, if and only if nothing new is buffered and no shard but the one whose tombstones the file holds has a tombstone over a stored row |
| DistributedSearch.ReadersServePlainMap | vecscaledb/coordinator/app.py:99-128 | under that condition the gathered answer is the exact top-k of the plain map |
| DistributedSearch.ClearReadersServePlainMap | vecscaledb/coordinator/app.py:99-128 | the same under a condition that can be checked beforehand: each segment has at most top_k rows, or none that is negative, in the file or in a newer segment of its shard |
| DistributedSearch.ReadersServeWholeMapIff | vecscaledb/coordinator/app.py:99-128 | it is the exact top-k of the whole plain map if and only if each negative id has top_k searchable ids that are at least as near |
| ShardedDeletes.ShardedDeleteReturns | vecscaledb/writer/pipeline.py:124-138 | insert two ids on two shards, delete both: the readers see the first again |
| ShardedDeletes.DeletedIdIsServed | vecscaledb/coordinator/app.py:99-128 | and a coordinator asked for as many hits as the readers see ids answers with the deleted one |
| DistributedSearch.ShardCountDoesNotShow | vecscaledb/coordinator/app.py:110-128 | under that condition two shard counts return the same distances for the same batches and query |

## Left out

- The vector library: an index is any function whose hits are stored rows at their true distance (`Segments.Sound`), the flat one the k nearest (`Segments.NearestHits`). Training, nprobe and recall are not modelled, nor NaN distances: distances are real numbers.
- The filesystem: segment directories, the meta file and tombstones.json are values that change atomically; JSON, .npy files and fsync are not modelled. A log file is a byte string. Segment directory names are parameters, and uniqueness of drawn names is a stated hypothesis where it matters.
- Overlapping coroutines: operations of one engine do not interleave. Crash points are between operations and inside `flush`, before the segment exists and before truncation; crashes inside a merge or in the middle of an insert or a delete are not modelled.
- LsmSearch.SearchIsExact: needs that filtering removed no hit from a list that does not cover its segment, because hidden ids are removed after each list's top-k is taken; LsmSearch.UnobstructedSearchIsExact has a condition a caller can check.
- LsmSnapshots.OperationKeepsSnapshotIff: for states with fewer segments than the merge threshold; with more, which a crash inside a flush or a threshold of one can leave, a flush that merges is covered part by part, and composed in LsmSnapshots.SnapshotIsStable in one direction.
- Sharding.ShardsHoldParts: runs without restart and with batches the record format can hold, because a batch rejected by one shard may already be in another, and a restarted shard reads the tombstone file of another.
- DistributedSearch.DistributedSearchIsExact: one reader per shard, all refreshed from one listing and one state of the tombstone file, and every reply arrived; a missing reply is ScatterGather.Gather's `incomplete`.
- Pipeline.WriterPipeline.Start: on storage where a shard is not layered, or a log ends in unread bytes, it promises the engines' states and the registry, not the invariant later calls need.
- Pipeline.WriterPipeline.Insert: for writers whose logs have no unread bytes; LsmEngine.Engine.Insert says what one engine does on a torn log.
- Pipeline.WriterPipeline.Delete: likewise, with LsmEngine.Engine.Delete for a torn log. Stopping the pipeline is not modelled.
- ReaderAgreement.ReaderAgreesAfterFlush: one shard, at a snapshot no older than any registered segment; older snapshots and smaller caches are in ReaderSnapshots. Snapshots of different shards are not comparable.
- SegmentCaches.SegmentCache.Refresh: the content of a segment directory is a function of its name (segments are immutable); a failed load returns a flag in place of an exception.
- Wire formats, HTTP clients, leader election, the metadata store's own behaviour, node registration, fan-out modes, `get_nodes_for_range`, `get_shard_id` and metrics are not modelled.
- Hash functions and checksums are arbitrary functions; nothing is claimed about their values.
- Negative merge thresholds and array shapes that only the numeric library can produce (an empty batch with a different column count) are not modelled.
