// The engine object. Every method is proved to take the corresponding step of
// LsmModel; what those steps preserve is proved there.
module LsmEngine {
  import opened Wrappers
  import opened ByteCodec
  import opened WalCodec
  import opened WalRecovery
  import opened WriteAheadLog
  import opened Dicts
  import opened Sorting
  import MergeResults
  import opened Segments
  import opened MemTables
  import opened Snapshots
  import LsmModel
  import LsmInvariants

  type Config = LsmModel.Config
  type Lsm = LsmModel.Lsm
  type Hit = MergeResults.Hit

  datatype EngineError = NotStarted | BadArgument | Rejected

  datatype InsertReply = InsertReply(lsn: nat, flushed: bool)

  datatype Health = Health(ntotal: nat, segments: nat, memtableSize: nat, walLsn: nat, activeSnapshots: nat)

  // tombstones.json: one file that all shards over the same storage write.
  class TombstoneFile {
    var ids: set<Id>

    constructor (ids: set<Id>)
      ensures this.ids == ids
    {
      this.ids := ids;
    }
  }

  class Engine {
    const config: Config
    const format: Format
    const wal: Wal
    const memtable: MemTable
    const snapshots: SnapshotManager
    const tombFile: TombstoneFile
    var segments: seq<Segment>
    var tombstones: set<Id>
    var started: bool

    ghost predicate Wired()
      reads this, wal
    {
      && wal.format == format && format.dim == config.dim
      && memtable.dim == config.dim && memtable.flushThreshold == config.flushThreshold
      && (started ==> wal.isOpen)
    }

    // No unread bytes at the end of the log file.
    ghost predicate LogIntact()
      reads this, wal
    {
      Intact(format, wal.file)
    }

    ghost function State(): Lsm
      reads this, wal, memtable, tombFile
    {
      LsmModel.Lsm(memtable.entries, segments, tombstones, tombFile.ids,
                   Parse(format, wal.file), wal.meta, wal.lastLsn)
    }

    // A stopped engine over what is on disk.
    constructor (config: Config, format: Format, file: seq<byte>, meta: nat, tombFile: TombstoneFile)
      requires format.dim == config.dim
      ensures Wired() && !started && this.config == config && this.format == format
      ensures wal.file == file && wal.meta == meta && this.tombFile == tombFile
      ensures fresh(wal) && fresh(memtable) && fresh(snapshots) && snapshots.active == map[]
    {
      this.config, this.format, this.tombFile := config, format, tombFile;
      wal := new Wal(format, file, meta);
      memtable := new MemTable(config.dim, config.flushThreshold);
      snapshots := new SnapshotManager();
      segments, tombstones, started := [], {}, false;
    }

    method Start(listing: seq<Segment>)
      requires Wired()
      modifies this, wal, memtable
      ensures Wired() && started && wal.file == old(wal.file)
      ensures State() == LsmModel.Start(config, listing, old(tombFile.ids), Parse(format, old(wal.file)), old(wal.meta))
    {
      wal.Open();
      var records := wal.Recover();
      RecoveredShapes(format, wal.file);
      Rebuild(listing, records);
      started := true;
    }

    // Loads segments and tombstones and replays the records above the newest segment.
    method Rebuild(listing: seq<Segment>, records: seq<Record>)
      requires memtable.dim == config.dim
      requires forall i :: 0 <= i < |records| ==> ShapeOk(config.dim, records[i].ids, records[i].vectors)
      modifies `segments, `tombstones, memtable
      ensures segments == SortSegs(LsmModel.Own(config.shard, listing))
      ensures memtable.entries == LsmModel.Replay(LsmModel.Replayed(segments, records))
      ensures tombstones == tombFile.ids + LsmModel.DeletedBy(LsmModel.Replayed(segments, records))
    {
      segments := LoadExistingSegments(config.shard, listing);
      memtable.Clear();
      var deleted := ReplayInto(memtable, records, MaxSnap(segments));
      tombstones := tombFile.ids + deleted;
    }

    method Stop(segId: string, mergedId: string) returns (r: Result<(), EngineError>)
      requires Wired()
      modifies this, wal, memtable, tombFile
      ensures Wired()
      ensures r.Failure? <==> !old(started)
      ensures r.Failure? ==> State() == old(State()) && !started
      ensures r.Success? ==> !started && !wal.isOpen && State() == LsmModel.Flush(config, old(State()), segId, mergedId)
      ensures old(LogIntact()) ==> LogIntact()
    {
      if !started {
        return Failure(NotStarted);
      }
      var segment := Flush(segId, mergedId);
      wal.Close();
      started := false;
      return Success(());
    }

    // On a log with unread bytes what recovery returns is that of the bytes as appended.
    method Insert(ids: seq<Id>, vectors: seq<Vec>, segId: string, mergedId: string)
      returns (r: Result<InsertReply, EngineError>)
      requires Wired()
      modifies this, wal, memtable, tombFile
      ensures Wired() && started == old(started)
      ensures !old(started) ==> r == Failure(NotStarted) && State() == old(State())
      ensures old(started) && !ShapeOk(config.dim, ids, vectors) ==>
                r == Failure(BadArgument) && State() == old(State())
      ensures old(started) && ShapeOk(config.dim, ids, vectors) ==>
                && r == InsertResult(config, old(State()), ids, vectors)
                && LsmModel.SameButLog(State(), LsmModel.Insert(config, old(State()), ids, vectors, segId, mergedId))
                && State().log == LogAfterInsert(config, old(State()), ids, vectors, Parse(format,
                     FileWith(format, old(wal.file), Record(old(wal.lastLsn) + 1, OP_INSERT, ids, vectors))))
      ensures old(started) && ShapeOk(config.dim, ids, vectors) && old(LogIntact()) ==>
                LogIntact() && State() == LsmModel.Insert(config, old(State()), ids, vectors, segId, mergedId)
    {
      if !started {
        return Failure(NotStarted);
      }
      if !ShapeOk(config.dim, ids, vectors) {
        return Failure(BadArgument);
      }
      r := InsertStarted(ids, vectors, segId, mergedId);
    }

    method InsertStarted(ids: seq<Id>, vectors: seq<Vec>, segId: string, mergedId: string)
      returns (r: Result<InsertReply, EngineError>)
      requires Wired() && started && ShapeOk(config.dim, ids, vectors)
      modifies this, wal, memtable, tombFile
      ensures Wired() && started && (old(LogIntact()) ==> LogIntact())
      ensures r == InsertResult(config, old(State()), ids, vectors)
      ensures LsmModel.SameButLog(State(), LsmModel.Insert(config, old(State()), ids, vectors, segId, mergedId))
      ensures State().log == LogAfterInsert(config, old(State()), ids, vectors,
                Parse(format, FileWith(format, old(wal.file), Record(old(wal.lastLsn) + 1, OP_INSERT, ids, vectors))))
      ensures old(LogIntact()) ==> State() == LsmModel.Insert(config, old(State()), ids, vectors, segId, mergedId)
    {
      ghost var before := State();
      var lsn := InsertLocked(ids, vectors);
      if lsn.None? {
        RejectedResultIs(config, before, ids, vectors, segId, mergedId);
        return Failure(Rejected);
      }
      r := AfterInsert(before, lsn.value, ids, vectors, segId, mergedId);
    }

    // The answer, after a flush if one is due.
    method AfterInsert(ghost before: Lsm, lsn: nat, ghost ids: seq<Id>, ghost vectors: seq<Vec>, segId: string,
        mergedId: string)
      returns (r: Result<InsertReply, EngineError>)
      requires Wired() && started
      requires Packable(before.lastLsn + 1, |ids|) && lsn == before.lastLsn + 1
      requires LsmModel.SameButLog(State(), LsmModel.InsertRows(config, before, ids, vectors))
      modifies this, wal, memtable, tombFile
      ensures Wired() && started && (old(LogIntact()) ==> LogIntact())
      ensures r == InsertResult(config, before, ids, vectors)
      ensures LsmModel.SameButLog(State(), LsmModel.Insert(config, before, ids, vectors, segId, mergedId))
      ensures State().log == LogAfterInsert(config, before, ids, vectors, old(State()).log)
      ensures old(State()) == LsmModel.InsertRows(config, before, ids, vectors) ==>
                State() == LsmModel.Insert(config, before, ids, vectors, segId, mergedId)
    {
      ghost var inserted := State();
      var flushed := FlushIfFull(segId, mergedId);
      r := Success(InsertReply(lsn, flushed));
      LogAfterIs(config, before, ids, vectors, segId, mergedId, inserted);
      InsertResultIs(config, before, ids, vectors, segId, mergedId, inserted, State(), flushed);
    }

    // What `insert` does after the lock is released.
    method FlushIfFull(segId: string, mergedId: string) returns (flushed: bool)
      requires Wired() && started
      modifies this, wal, memtable, tombFile
      ensures Wired() && started && (old(LogIntact()) ==> LogIntact())
      ensures State() == if LsmModel.ShouldFlush(config, old(State())) then
                           LsmModel.Flush(config, old(State()), segId, mergedId) else old(State())
      ensures flushed == (LsmModel.ShouldFlush(config, old(State())) && LsmModel.Flushable(old(State())))
    {
      flushed := false;
      if memtable.ShouldFlush() {
        var segment := Flush(segId, mergedId);
        flushed := segment.Some?;
      }
    }

    // The part of `insert` under the lock.
    method InsertLocked(ids: seq<Id>, vectors: seq<Vec>) returns (lsn: Option<nat>)
      requires Wired() && started && ShapeOk(config.dim, ids, vectors)
      modifies this, wal, memtable, tombFile
      ensures Wired() && started && unchanged(`segments)
      ensures lsn == if Packable(old(wal.lastLsn) + 1, |ids|) then Some(old(wal.lastLsn) + 1) else None
      ensures LsmModel.SameButLog(State(), LsmModel.InsertRows(config, old(State()), ids, vectors))
      ensures wal.file == FileWith(format, old(wal.file), Record(old(wal.lastLsn) + 1, OP_INSERT, ids, vectors))
      ensures old(LogIntact()) ==> LogIntact() && State() == LsmModel.InsertRows(config, old(State()), ids, vectors)
    {
      ghost var before := State();
      lsn := AppendRecord(OP_INSERT, ids, vectors);
      if lsn.None? {
        return None;
      }
      ghost var appended := State();
      var ok := memtable.Insert(ids, vectors, lsn.value);
      var removed := tombstones * IdSet(ids);
      if removed != {} {
        tombstones := tombstones - removed;
        tombFile.ids := tombstones;
      } else {
        assert tombstones - removed == tombstones;
      }
      LsmModel.InsertRowsIs(config, before, ids, vectors, lsn.value, appended, State());
    }

    // One record appended and its LSN, or a rejected batch.
    method AppendRecord(op: byte, ids: seq<Id>, vectors: seq<Vec>) returns (lsn: Option<nat>)
      requires Wired() && started && ShapeOk(config.dim, ids, vectors)
      modifies wal
      ensures Wired() && (old(LogIntact()) ==> LogIntact())
      ensures lsn == if Packable(old(wal.lastLsn) + 1, |ids|) then Some(old(wal.lastLsn) + 1) else None
      ensures LsmModel.SameButLog(State(), LsmModel.Append(old(State()), op, ids, vectors))
      ensures wal.file == FileWith(format, old(wal.file), Record(old(wal.lastLsn) + 1, op, ids, vectors))
      ensures old(LogIntact()) ==> State().log == LsmModel.Append(old(State()), op, ids, vectors).log
    {
      ghost var before := State();
      lsn := WriteRecord(op, ids, vectors);
      LsmModel.AppendIs(before, op, ids, vectors, State());
    }

    // `wal.append`, and what it means for recovery.
    method WriteRecord(op: byte, ids: seq<Id>, vectors: seq<Vec>) returns (lsn: Option<nat>)
      requires Wired() && started && ShapeOk(config.dim, ids, vectors)
      modifies wal
      ensures Wired() && (old(LogIntact()) ==> LogIntact()) && wal.lastLsn == old(wal.lastLsn) + 1
      ensures lsn == if Packable(wal.lastLsn, |ids|) then Some(wal.lastLsn) else None
      ensures wal.file == FileWith(format, old(wal.file), Record(wal.lastLsn, op, ids, vectors))
      ensures lsn.None? ==> wal.meta == old(wal.meta) && wal.file == old(wal.file)
      ensures lsn.Some? ==>
                && wal.meta == wal.lastLsn
                && (old(LogIntact()) ==>
                      Parse(format, wal.file) == Parse(format, old(wal.file)) + [Record(wal.lastLsn, op, ids, vectors)])
    {
      var appended := wal.Append(op, ids, vectors);
      if appended.Failure? {
        return None;
      }
      AppendedLog(format, old(wal.file), Record(appended.value, op, ids, vectors));
      return Some(appended.value);
    }

    method Delete(ids: seq<Id>) returns (r: Result<nat, EngineError>)
      requires Wired()
      modifies this, wal, memtable, tombFile
      ensures Wired() && started == old(started)
      ensures !old(started) ==> r == Failure(NotStarted) && State() == old(State())
      ensures old(started) ==> r == DeleteResult(old(State()), ids)
      ensures old(started) ==> LsmModel.SameButLog(State(), LsmModel.Delete(config, old(State()), ids))
      ensures old(started) ==> wal.file == FileWith(format, old(wal.file),
                                Record(old(wal.lastLsn) + 1, OP_DELETE, ids, LsmModel.Zeros(config.dim, |ids|)))
      ensures old(started) && old(LogIntact()) ==> LogIntact() && State() == LsmModel.Delete(config, old(State()), ids)
    {
      if !started {
        return Failure(NotStarted);
      }
      var lsn := DeleteLocked(ids, LsmModel.Zeros(config.dim, |ids|));
      return if lsn.Some? then Success(lsn.value) else Failure(Rejected);
    }

    method DeleteLocked(ids: seq<Id>, vectors: seq<Vec>) returns (lsn: Option<nat>)
      requires Wired() && started && vectors == LsmModel.Zeros(config.dim, |ids|)
      modifies this, wal, memtable, tombFile
      ensures Wired() && started
      ensures lsn == if Packable(old(wal.lastLsn) + 1, |ids|) then Some(old(wal.lastLsn) + 1) else None
      ensures LsmModel.SameButLog(State(), LsmModel.Delete(config, old(State()), ids))
      ensures wal.file == FileWith(format, old(wal.file), Record(old(wal.lastLsn) + 1, OP_DELETE, ids, vectors))
      ensures old(LogIntact()) ==> LogIntact() && State() == LsmModel.Delete(config, old(State()), ids)
    {
      ghost var before := State();
      lsn := AppendRecord(OP_DELETE, ids, vectors);
      if lsn.None? {
        return None;
      }
      ghost var appended := State();
      memtable.Delete(ids, lsn.value);
      tombstones := tombstones + IdSet(ids);
      tombFile.ids := tombstones;
      assert State() == appended.(mem := DeleteAll(appended.mem, ids, lsn.value),
                                  tombs := appended.tombs + IdSet(ids), diskTombs := appended.tombs + IdSet(ids));
      LsmModel.DeleteIs(config, before, ids, lsn.value, appended, State());
    }

    method Flush(segId: string, mergedId: string) returns (segment: Option<Segment>)
      requires Wired() && started
      modifies this, wal, memtable, tombFile
      ensures Wired() && started
      ensures State() == LsmModel.Flush(config, old(State()), segId, mergedId)
      ensures old(LogIntact()) ==> LogIntact()
      ensures segment == if LsmModel.Flushable(old(State())) then
                           Some(LsmModel.FlushedSegment(config, old(State()), segId)) else None
    {
      segment := FlushMemtable(segId);
      if segment.Some? && |segments| >= config.mergeThreshold {
        var merged := Merge(mergedId);
      }
    }

    method FlushMemtable(segId: string) returns (segment: Option<Segment>)
      requires Wired() && started
      modifies this, wal, memtable, tombFile
      ensures Wired() && started
      ensures State() == LsmModel.FlushMem(config, old(State()), segId)
      ensures old(LogIntact()) ==> LogIntact()
      ensures segment == if LsmModel.Flushable(old(State())) then
                           Some(LsmModel.FlushedSegment(config, old(State()), segId)) else None
    {
      ghost var before := State();
      CaptureMemDeletes();
      var rows := memtable.ToArrays(None);
      var snapshotId := MaxLsn(memtable.entries);
      memtable.Clear();
      assert State() == LsmModel.CaptureDeletes(before).(mem := []);
      if |rows| == 0 || snapshotId == 0 {
        return None;
      }
      var created := Segment(segId, config.shard, snapshotId, rows);
      assert created == LsmModel.FlushedSegment(config, before, segId);
      ghost var cleared := State();
      ListSegment(created);
      LsmModel.FlushMemIs(config, before, segId, cleared, State());
      return Some(created);
    }

    method CaptureMemDeletes()
      requires Wired() && started
      modifies this, tombFile
      ensures Wired() && started && State() == LsmModel.CaptureDeletes(old(State()))
    {
      var deletes := memtable.VisibleDeletedIds(None);
      if deletes != {} {
        tombstones := tombstones + deletes;
        tombFile.ids := tombstones;
      }
    }

    // The second locked part of `flush`: list the segment, then cut the log.
    method ListSegment(created: Segment)
      requires Wired() && started
      modifies this, wal
      ensures Wired() && started && LogIntact()
      ensures State() == LsmModel.ListAndTruncate(old(State()), created)
    {
      ghost var before := State();
      segments := SortSegs(segments + [created]);
      ghost var listed := State();
      CutLog(created.snap + 1);
      LsmModel.ListAndTruncateIs(before, created, listed, State());
    }

    method CutLog(lsn: nat)
      requires Wired()
      modifies wal
      ensures Wired() && LogIntact()
      ensures State() == old(State()).(log := From(old(State()).log, lsn), meta := old(wal.lastLsn))
    {
      TruncationRecovers(format, wal.file, lsn);
      wal.TruncateBefore(lsn);
    }

    method Merge(mergedId: string) returns (merged: Option<Segment>)
      requires Wired() && started
      modifies this, tombFile
      ensures Wired() && started && (old(LogIntact()) ==> LogIntact())
      ensures State() == LsmModel.Merge(config, old(State()), mergedId)
      ensures merged == LsmModel.MergedSegment(config, old(State()), mergedId)
    {
      if |segments| < config.mergeThreshold {
        return None;
      }
      var toMerge := segments[..config.mergeThreshold];
      var remaining := segments[config.mergeThreshold..];
      var latest := LatestRows(toMerge);
      var rows, cleaned := Surviving(toMerge, latest, tombstones);
      if |rows| == 0 {
        segments := remaining;
        tombstones := tombstones - cleaned;
        tombFile.ids := tombstones;
        return None;
      }
      var created := Segment(mergedId, config.shard, MaxSnap(toMerge), rows);
      segments := SortSegs([created] + remaining);
      tombstones := tombstones - cleaned;
      tombFile.ids := tombstones;
      return Some(created);
    }

    method Search(f: Faiss, q: Vec, topK: nat, nprobe: nat, snapshot: Option<nat>)
      returns (r: Result<seq<Hit>, EngineError>)
      requires Wired() && Positive(snapshots.active)
      modifies snapshots
      ensures snapshots.active == old(snapshots.active)
      ensures !started ==> r == Failure(NotStarted)
      ensures started && |q| != config.dim ==> r == Failure(BadArgument)
      ensures started && |q| == config.dim ==>
                var at := if snapshot.Some? then snapshot.value else wal.lastLsn;
                r == Success(LsmModel.Search(f, State(), q, topK, nprobe, at))
    {
      if !started {
        return Failure(NotStarted);
      }
      if |q| != config.dim {
        return Failure(BadArgument);
      }
      var at := if snapshot.Some? then snapshot.value else wal.lastLsn;
      if snapshot.None? {
        at := snapshots.CreateSnapshot(wal.lastLsn);
      }
      var top := SearchAt(f, q, topK, nprobe, at);
      if snapshot.None? {
        ReleaseUndoesAcquire(old(snapshots.active), at, at);
        snapshots.ReleaseSnapshot(at);
      }
      return Success(top);
    }

    method SearchAt(f: Faiss, q: Vec, topK: nat, nprobe: nat, at: nat) returns (top: seq<Hit>)
      ensures top == LsmModel.Search(f, State(), q, topK, nprobe, at)
    {
      var visible := LsmModel.VisibleSegments(at, segments);
      var memRows := memtable.ToArrays(Some(at));
      var memHits := memtable.Search(f, q, topK, Some(at));
      var memDeleted := memtable.VisibleDeletedIds(Some(at));
      var deleted := memDeleted + tombstones;
      var hidden := deleted + LsmModel.RowIds(memRows);
      var latest := LatestSnapshots(visible);
      var results := SearchSegments(f, visible, q, topK, nprobe, hidden, latest);
      if |memHits| > 0 {
        results := results + [memHits];
      } else {
        assert results + [] == results;
      }
      top := MergeResults.Merge(results, topK, deleted);
    }

    method GetHealth() returns (h: Health)
      ensures h == HealthOf(State(), Total(snapshots.active))
    {
      var n := Ntotal();
      var readers := snapshots.ActiveCount();
      h := Health(n, |segments|, memtable.Ntotal(), wal.lastLsn, readers);
    }

    method Ntotal() returns (n: nat)
      ensures n == LsmModel.Ntotal(State())
    {
      var segmentIds: set<Id> := {};
      for i := 0 to |segments|
        invariant segmentIds == LsmModel.SegmentIds(segments[..i])
      {
        assert segments[..i + 1][..i] == segments[..i];
        segmentIds := segmentIds + LsmModel.RowIds(segments[i].rows);
      }
      assert segments[..|segments|] == segments;
      var rows := memtable.ToArrays(None);
      var deleted := memtable.VisibleDeletedIds(None);
      n := |(segmentIds + LsmModel.RowIds(rows)) - (deleted + tombstones)|;
    }
  }

  ghost function HealthOf(st: Lsm, readers: nat): Health {
    Health(LsmModel.Ntotal(st), |st.segs|, |LiveRows(st.mem, None)|, st.lastLsn, readers)
  }

  // What `insert` answers to a well-shaped batch.
  ghost function InsertResult(c: Config, st: Lsm, ids: seq<Id>, vectors: seq<Vec>): Result<InsertReply, EngineError> {
    if !Packable(st.lastLsn + 1, |ids|) then Failure(Rejected)
    else
      var a := LsmModel.InsertRows(c, st, ids, vectors);
      Success(InsertReply(st.lastLsn + 1, LsmModel.ShouldFlush(c, a) && LsmModel.Flushable(a)))
  }

  // What `delete` answers.
  ghost function DeleteResult(st: Lsm, ids: seq<Id>): Result<nat, EngineError> {
    if Packable(st.lastLsn + 1, |ids|) then Success(st.lastLsn + 1) else Failure(Rejected)
  }

  // The log file after an append; a record the format cannot hold is not written.
  function FileWith(f: Format, file: seq<byte>, r: Record): seq<byte> {
    if Packable(r.lsn, |r.ids|) then file + Serialize(f, r) else file
  }

  // What recovery returns after an insert, given what it returns once the record is written.
  ghost function LogAfterInsert(c: Config, st: Lsm, ids: seq<Id>, vectors: seq<Vec>, log: seq<Record>): seq<Record> {
    var a := LsmModel.InsertRows(c, st, ids, vectors);
    if Packable(st.lastLsn + 1, |ids|) && LsmModel.ShouldFlush(c, a) && LsmModel.Flushable(a) then
      From(log, MaxLsn(a.mem) + 1)
    else log
  }

  lemma LogAfterIs(c: Config, st: Lsm, ids: seq<Id>, vectors: seq<Vec>, segId: string, mergedId: string, inserted: Lsm)
    requires Packable(st.lastLsn + 1, |ids|) && LsmModel.SameButLog(inserted, LsmModel.InsertRows(c, st, ids, vectors))
    ensures LogAfterInsert(c, st, ids, vectors, inserted.log) ==
            (if LsmModel.ShouldFlush(c, inserted) then LsmModel.Flush(c, inserted, segId, mergedId) else inserted).log
  {
    FlushLog(c, inserted, segId, mergedId);
  }

  lemma FlushLog(c: Config, st: Lsm, segId: string, mergedId: string)
    ensures LsmModel.Flush(c, st, segId, mergedId).log ==
            if LsmModel.Flushable(st) then From(st.log, MaxLsn(st.mem) + 1) else st.log
  {
    var a := LsmModel.FlushMem(c, st, segId);
    assert LsmModel.Merge(c, a, mergedId).log == a.log;
  }

  lemma RejectedResultIs(c: Config, st: Lsm, ids: seq<Id>, vectors: seq<Vec>, segId: string, mergedId: string)
    requires !Packable(st.lastLsn + 1, |ids|)
    ensures InsertResult(c, st, ids, vectors) == Failure(Rejected)
    ensures LsmModel.Insert(c, st, ids, vectors, segId, mergedId) == LsmModel.InsertRows(c, st, ids, vectors)
  {
  }

  lemma InsertResultIs(c: Config, st: Lsm, ids: seq<Id>, vectors: seq<Vec>, segId: string, mergedId: string,
      inserted: Lsm, after: Lsm, flushed: bool)
    requires Packable(st.lastLsn + 1, |ids|) && LsmModel.SameButLog(inserted, LsmModel.InsertRows(c, st, ids, vectors))
    requires after ==
             if LsmModel.ShouldFlush(c, inserted) then LsmModel.Flush(c, inserted, segId, mergedId) else inserted
    requires flushed == (LsmModel.ShouldFlush(c, inserted) && LsmModel.Flushable(inserted))
    ensures LsmModel.SameButLog(after, LsmModel.Insert(c, st, ids, vectors, segId, mergedId))
    ensures inserted == LsmModel.InsertRows(c, st, ids, vectors) ==>
              after == LsmModel.Insert(c, st, ids, vectors, segId, mergedId)
    ensures InsertResult(c, st, ids, vectors) == Success(InsertReply(st.lastLsn + 1, flushed))
  {
    var promised := LsmModel.InsertRows(c, st, ids, vectors);
    FlushIgnoresLog(c, inserted, promised, segId, mergedId);
    LsmModel.InsertIs(
      c, st, ids, vectors, segId, mergedId, promised,
      if LsmModel.ShouldFlush(c, promised) then LsmModel.Flush(c, promised, segId, mergedId) else promised);
  }

  // What a flush does to everything else does not depend on the log.
  lemma FlushIgnoresLog(c: Config, a: Lsm, b: Lsm, segId: string, mergedId: string)
    requires LsmModel.SameButLog(a, b)
    ensures LsmModel.SameButLog(LsmModel.Flush(c, a, segId, mergedId), LsmModel.Flush(c, b, segId, mergedId))
    ensures LsmModel.ShouldFlush(c, a) == LsmModel.ShouldFlush(c, b) && LsmModel.Flushable(a) == LsmModel.Flushable(b)
  {
    FlushMemIgnoresLog(c, a, b, segId);
    MergeIgnoresLog(c, LsmModel.FlushMem(c, a, segId), LsmModel.FlushMem(c, b, segId), mergedId);
  }

  lemma FlushMemIgnoresLog(c: Config, a: Lsm, b: Lsm, segId: string)
    requires LsmModel.SameButLog(a, b)
    ensures LsmModel.SameButLog(LsmModel.FlushMem(c, a, segId), LsmModel.FlushMem(c, b, segId))
  {
    CaptureIgnoresLog(a, b);
    if LsmModel.Flushable(a) {
      WriteIgnoresLog(c, a, b, segId);
    }
  }

  lemma CaptureIgnoresLog(a: Lsm, b: Lsm)
    requires LsmModel.SameButLog(a, b)
    ensures LsmModel.SameButLog(LsmModel.CaptureDeletes(a), LsmModel.CaptureDeletes(b))
  {
  }

  lemma WriteIgnoresLog(c: Config, a: Lsm, b: Lsm, segId: string)
    requires LsmModel.SameButLog(a, b) && LsmModel.Flushable(a) && LsmModel.Flushable(b)
    ensures LsmModel.SameButLog(LsmModel.WriteSegment(c, a, segId), LsmModel.WriteSegment(c, b, segId))
  {
    CaptureIgnoresLog(a, b);
  }

  lemma MergeIgnoresLog(c: Config, a: Lsm, b: Lsm, mergedId: string)
    requires LsmModel.SameButLog(a, b)
    ensures LsmModel.SameButLog(LsmModel.Merge(c, a, mergedId), LsmModel.Merge(c, b, mergedId))
  {
  }

  // ---- loops of the methods above ---------------------------------------------------------

  // Replays the records above maxLsn; returns the ids they delete.
  method ReplayInto(memtable: MemTable, records: seq<Record>, maxLsn: nat) returns (deleted: set<Id>)
    requires memtable.entries == []
    requires forall i :: 0 <= i < |records| ==> ShapeOk(memtable.dim, records[i].ids, records[i].vectors)
    modifies memtable
    ensures memtable.entries == LsmModel.Replay(From(records, maxLsn + 1))
    ensures deleted == LsmModel.DeletedBy(From(records, maxLsn + 1))
  {
    deleted := {};
    for i := 0 to |records|
      invariant memtable.entries == LsmModel.Replay(From(records[..i], maxLsn + 1))
      invariant deleted == LsmModel.DeletedBy(From(records[..i], maxLsn + 1))
    {
      var record := records[i];
      ReplayStep(records, i, maxLsn + 1);
      if record.lsn <= maxLsn {
        continue;
      }
      if record.op == OP_INSERT {
        var ok := memtable.Insert(record.ids, record.vectors, record.lsn);
      } else if record.op == OP_DELETE {
        memtable.Delete(record.ids, record.lsn);
        deleted := deleted + IdSet(record.ids);
      }
    }
    assert records[..|records|] == records;
  }

  method SearchSegments(f: Faiss, segs: seq<Segment>, q: Vec, topK: nat, nprobe: nat, hidden: set<Id>,
      latest: map<Id, nat>)
    returns (results: seq<seq<Hit>>)
    ensures results == LsmModel.SegmentResults(f, segs, q, topK, nprobe, hidden, latest)
  {
    results := [];
    for i := 0 to |segs|
      invariant results == LsmModel.SegmentResults(f, segs[..i], q, topK, nprobe, hidden, latest)
    {
      assert segs[..i + 1][..i] == segs[..i];
      var hits := SegmentHits(f, segs[i].rows, q, topK, nprobe);
      var shown := FilterResultIds(hits, hidden + LsmModel.Newer(latest, segs[i].snap));
      results := results + [shown];
    }
    assert segs[..|segs|] == segs;
  }

  method LoadExistingSegments(shard: nat, listing: seq<Segment>) returns (segs: seq<Segment>)
    ensures segs == SortSegs(LsmModel.Own(shard, listing))
  {
    var own: seq<Segment> := [];
    for i := 0 to |listing|
      invariant own + LsmModel.Own(shard, listing[i..]) == LsmModel.Own(shard, listing)
    {
      OwnStep(shard, own, listing, i);
      if listing[i].shard == shard {
        own := own + [listing[i]];
      }
    }
    OwnEnd(shard, own, listing);
    segs := SortSegs(own);
  }

  lemma OwnStep(shard: nat, own: seq<Segment>, listing: seq<Segment>, i: nat)
    requires i < |listing|
    ensures own + LsmModel.Own(shard, listing[i..]) ==
            (if listing[i].shard == shard then own + [listing[i]] else own) + LsmModel.Own(shard, listing[i + 1..])
  {
    assert listing[i..][1..] == listing[i + 1..];
  }

  lemma OwnEnd(shard: nat, own: seq<Segment>, listing: seq<Segment>)
    ensures own + LsmModel.Own(shard, listing[|listing|..]) == own
  {
    assert listing[|listing|..] == [];
  }

  method LatestRows(segs: seq<Segment>) returns (latest: Rows)
    ensures latest == LsmModel.Latest(segs)
  {
    latest := [];
    for i := 0 to |segs|
      invariant latest == LsmModel.Latest(segs[..i])
    {
      var rows: seq<(Id, Vec)> := segs[i].rows;
      ghost var before := latest;
      for j := 0 to |rows|
        invariant latest == LsmModel.PutRows(before, rows[..j])
      {
        assert rows[..j + 1][..j] == rows[..j];
        latest := Put(latest, rows[j].0, rows[j].1);
      }
      assert rows[..|rows|] == rows;
      assert segs[..i + 1][..i] == segs[..i];
    }
    assert segs[..|segs|] == segs;
  }

  method Surviving(segs: seq<Segment>, latest: Rows, tombs: set<Id>) returns (rows: Rows, cleaned: set<Id>)
    requires latest == LsmModel.Latest(segs)
    ensures rows == LsmModel.MergedRows(segs, tombs)
    ensures cleaned == LsmModel.Cleaned(segs, tombs)
  {
    var ordered := Sort(LsmModel.IdLe, latest);
    var kept;
    kept, cleaned := DropTombstoned(ordered, tombs);
    SameMembers(ordered, latest);
    SameTombstoned(ordered, latest, tombs);
    LsmModel.MergedRowsAre(segs, tombs);
    rows := kept;
  }

  method DropTombstoned(ordered: seq<(Id, Vec)>, tombs: set<Id>) returns (kept: seq<(Id, Vec)>, cleaned: set<Id>)
    ensures kept == LsmModel.DropRows(ordered, tombs)
    ensures cleaned == TombstonedIn(ordered, tombs)
  {
    kept, cleaned := [], {};
    for i := 0 to |ordered|
      invariant kept + LsmModel.DropRows(ordered[i..], tombs) == LsmModel.DropRows(ordered, tombs)
      invariant cleaned == TombstonedIn(ordered[..i], tombs)
    {
      KeptStep(kept, ordered, i, tombs);
      TombstonedStep(ordered, i, tombs);
      if ordered[i].0 in tombs {
        cleaned := cleaned + {ordered[i].0};
        continue;
      }
      kept := kept + [ordered[i]];
    }
    DropEnd(kept, ordered, tombs);
  }

  lemma KeptStep(kept: seq<(Id, Vec)>, rows: seq<(Id, Vec)>, i: nat, tombs: set<Id>)
    requires i < |rows|
    ensures kept + LsmModel.DropRows(rows[i..], tombs) ==
            (if rows[i].0 in tombs then kept else kept + [rows[i]]) + LsmModel.DropRows(rows[i + 1..], tombs)
  {
    assert rows[i..][1..] == rows[i + 1..];
  }

  lemma TombstonedStep(rows: seq<(Id, Vec)>, i: nat, tombs: set<Id>)
    requires i < |rows|
    ensures TombstonedIn(rows[..i + 1], tombs) ==
            if rows[i].0 in tombs then TombstonedIn(rows[..i], tombs) + {rows[i].0} else TombstonedIn(rows[..i], tombs)
  {
    assert rows[..i + 1] == rows[..i] + [rows[i]];
  }

  lemma DropEnd(kept: seq<(Id, Vec)>, rows: seq<(Id, Vec)>, tombs: set<Id>)
    ensures kept + LsmModel.DropRows(rows[|rows|..], tombs) == kept
    ensures TombstonedIn(rows[..|rows|], tombs) == TombstonedIn(rows, tombs)
  {
    assert rows[|rows|..] == [] && rows[..|rows|] == rows;
  }

  ghost function TombstonedIn(rows: seq<(Id, Vec)>, tombs: set<Id>): set<Id> {
    set e | e in rows && e.0 in tombs :: e.0
  }

  lemma SameTombstoned(a: seq<(Id, Vec)>, b: seq<(Id, Vec)>, tombs: set<Id>)
    requires forall e :: e in a <==> e in b
    ensures TombstonedIn(a, tombs) == TombstonedIn(b, tombs)
  {
  }

  method LatestSnapshots(segs: seq<Segment>) returns (latest: map<Id, nat>)
    ensures latest == LsmModel.LatestSnap(segs)
  {
    latest := map[];
    for i := 0 to |segs|
      invariant latest == LsmModel.LatestSnap(segs[..i])
    {
      var rows: seq<(Id, Vec)> := segs[i].rows;
      ghost var before := latest;
      for j := 0 to |rows|
        invariant latest == LsmModel.RaiseSnap(before, rows[..j], segs[i].snap)
      {
        assert rows[..j + 1][..j] == rows[..j];
        var x := rows[j].0;
        latest := latest[x := if x in latest && latest[x] > segs[i].snap then latest[x] else segs[i].snap];
      }
      assert rows[..|rows|] == rows;
      assert segs[..i + 1][..i] == segs[..i];
    }
    assert segs[..|segs|] == segs;
  }

  lemma ReplayStep(rs: seq<Record>, i: nat, lsn: nat)
    requires i < |rs|
    ensures var a, b := From(rs[..i], lsn), From(rs[..i + 1], lsn);
            if rs[i].lsn >= lsn then
              && LsmModel.Replay(b) == LsmModel.ReplayOne(LsmModel.Replay(a), rs[i])
              && LsmModel.DeletedBy(b) == LsmModel.DeletedBy(a) + if rs[i].op == OP_DELETE then IdSet(rs[i].ids) else {}
            else a == b
  {
    assert rs[..i + 1][..i] == rs[..i];
    if rs[i].lsn >= lsn {
      LsmInvariants.ReplaySnoc(From(rs[..i], lsn), rs[i]);
      assert (From(rs[..i], lsn) + [rs[i]])[..|From(rs[..i], lsn)|] == From(rs[..i], lsn);
    }
  }

  lemma RecoveredShapes(f: Format, file: seq<byte>)
    ensures var rs := Parse(f, file);
            forall i :: 0 <= i < |rs| ==> ShapeOk(f.dim, rs[i].ids, rs[i].vectors)
  {
    ParsedAreOk(f, file);
    var rs := Parse(f, file);
    forall i | 0 <= i < |rs| ensures ShapeOk(f.dim, rs[i].ids, rs[i].vectors) {
      assert Valid(f)(rs[i]);
    }
  }

  lemma AppendedLog(f: Format, file: seq<byte>, r: Record)
    requires RecordOk(f, r)
    ensures Intact(f, file) ==>
              Parse(f, file + Serialize(f, r)) == Parse(f, file) + [r] && Intact(f, file + Serialize(f, r))
  {
    if Intact(f, file) {
      IntactAppend(f, file, r);
    }
  }
}
