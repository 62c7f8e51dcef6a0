// Whole runs of the engine against a plain map: inserts overwrite, deletes
// remove, everything else leaves the map alone.
module LsmRuns {
  import opened Wrappers
  import opened ByteCodec
  import opened WalCodec
  import opened Dicts
  import opened Segments
  import opened MemTables
  import opened LsmModel
  import opened LsmMaps
  import opened LsmInvariants

  datatype Op =
    | DoInsert(ids: seq<Id>, vectors: seq<Vec>, segId: string, mergedId: string)
    | DoDelete(ids: seq<Id>)
    | DoFlush(segId: string, mergedId: string)
    | DoMerge(mergedId: string)
    | DoReopen(segId: string, mergedId: string)   // graceful stop, then start
    | DoCrash                                     // killed between operations, then start
    | DoCrashBeforeSegment                        // killed in flush, no segment yet
    | DoCrashAfterSegment(segId: string)          // killed in flush, segment written, log not truncated

  // `insert` rejects a batch of the wrong shape.
  predicate Accepted(c: Config, op: Op) {
    op.DoInsert? ==> ShapeOk(c.dim, op.ids, op.vectors)
  }

  function Step(c: Config, st: Lsm, op: Op): Lsm {
    match op
    case DoInsert(ids, vectors, segId, mergedId) =>
      if Accepted(c, op) then Insert(c, st, ids, vectors, segId, mergedId) else st
    case DoDelete(ids) => Delete(c, st, ids)
    case DoFlush(segId, mergedId) => Flush(c, st, segId, mergedId)
    case DoMerge(mergedId) => Merge(c, st, mergedId)
    case DoReopen(segId, mergedId) => Restart(c, Flush(c, st, segId, mergedId))
    case DoCrash => Restart(c, st)
    case DoCrashBeforeSegment => Restart(c, CaptureDeletes(st))
    case DoCrashAfterSegment(segId) =>
      if Flushable(st) then Restart(c, WriteSegment(c, st, segId)) else Restart(c, CaptureDeletes(st))
  }

  // The logical map. A batch the log cannot hold is rejected and changes nothing.
  ghost function Expected(c: Config, st: Lsm, m: map<Id, Vec>, op: Op): map<Id, Vec> {
    match op
    case DoInsert(ids, vectors, _, _) =>
      if Accepted(c, op) && Packable(st.lastLsn + 1, |ids|) then m + Written(Zip(ids, vectors)) else m
    case DoDelete(ids) =>
      if Packable(st.lastLsn + 1, |ids|) then m - IdSet(ids) else m
    case _ => m
  }

  function Run(c: Config, ops: seq<Op>): Lsm {
    if ops == [] then EMPTY else Step(c, Run(c, ops[..|ops| - 1]), ops[|ops| - 1])
  }

  ghost function Model(c: Config, ops: seq<Op>): map<Id, Vec> {
    if ops == [] then map[]
    else
      var front := ops[..|ops| - 1];
      Expected(c, Run(c, front), Model(c, front), ops[|ops| - 1])
  }

  // The same without looking at the engine: a batch is rejected for its size alone.
  ghost function Plain(c: Config, ops: seq<Op>): map<Id, Vec> {
    if ops == [] then map[]
    else
      var m, op := Plain(c, ops[..|ops| - 1]), ops[|ops| - 1];
      match op
      case DoInsert(ids, vectors, _, _) =>
        if Accepted(c, op) && |ids| < TWO_32 then m + Written(Zip(ids, vectors)) else m
      case DoDelete(ids) => if |ids| < TWO_32 then m - IdSet(ids) else m
      case _ => m
  }

  // ---- where each step is safe -----------------------------------------------------------

  // The merge drops no tombstone that still hides something it leaves alone.
  ghost predicate MergeGuard(c: Config, st: Lsm) {
    |st.segs| >= c.mergeThreshold ==> MergeSafe(MapsOf(st), Oldest(c, st), Rest(c, st))
  }

  // A flush that will merge drops no tombstone or marker that still hides something.
  ghost predicate FlushGuard(c: Config, st: Lsm) {
    Flushable(st) && |st.segs| >= c.mergeThreshold ==> FlushSafe(MapsOf(st), Oldest(c, st), Rest(c, st))
  }

  // The ids whose deletes a new process would replay.
  function Redeleted(st: Lsm): set<Id> {
    DeletedBy(Replayed(st.segs, st.log))
  }

  // Each id that only a tombstone could hide is in the tombstones that a new process
  // collects, from the file and from replayed deletes, exactly if it is in the current ones.
  ghost predicate RestartGuard(st: Lsm) {
    TombsReturn(MapsOf(st), Redeleted(st))
  }

  // The same once a flush has captured the delete markers.
  ghost predicate CaptureGuard(st: Lsm) {
    forall x :: x in Untombed(MapsOf(st)) ==> (x in st.tombs <==> x in Persisted(MapsOf(st)) + Redeleted(st))
  }

  // The file will name every tombstoned id that is stored or live in the memtable.
  ghost predicate SegmentGuard(st: Lsm) {
    (Stored(st.segs) + LiveOf(ToMap(st.mem), None)).Keys * st.tombs <= Persisted(MapsOf(st))
  }

  // A stored id is tombstoned or marked exactly if the file will name it or its delete
  // is replayed.
  ghost predicate ClearGuard(st: Lsm) {
    var a := MapsOf(st);
    forall x :: x in a.rows ==> ((x in a.tombs || x in Deletions(a.entries)) <==> x in Persisted(a) + Redeleted(st))
  }

  // When stopping and starting loses nothing: a flush that merges must be safe, one that
  // only writes a segment or only drops markers must leave the right tombstones on disk.
  ghost predicate StopGuard(c: Config, st: Lsm) {
    if !Flushable(st) then ClearGuard(st)
    else if |st.segs| + 1 >= c.mergeThreshold then FlushGuard(c, st)
    else SegmentGuard(st)
  }

  ghost predicate Guard(c: Config, st: Lsm, op: Op) {
    match op
    case DoInsert(ids, vectors, _, _) =>
      var a := InsertRows(c, st, ids, vectors);
      Accepted(c, op) && Packable(st.lastLsn + 1, |ids|) && ShouldFlush(c, a) ==> FlushGuard(c, a)
    case DoDelete(_) => true
    case DoFlush(_, _) => FlushGuard(c, st)
    case DoMerge(_) => MergeGuard(c, st)
    case DoReopen(_, _) => StopGuard(c, st)
    case DoCrash => RestartGuard(st)
    case DoCrashBeforeSegment => CaptureGuard(st)
    case DoCrashAfterSegment(_) => if Flushable(st) then SegmentGuard(st) else CaptureGuard(st)
  }

  // ---- the guards against the states the steps pass through ----------------------------------

  lemma FlushedSegs(c: Config, st: Lsm, segId: string)
    requires Layered(c, st) && Flushable(st)
    ensures var a, b, g := MapsOf(st), FlushMem(c, st, segId), FlushedSegment(c, st, segId);
            && b.segs == st.segs + [g] && ToMap(g.rows) == LiveOf(a.entries, None)
            && b.mem == [] && b.tombs == st.tombs + Deletions(a.entries)
  {
    Listed(c, st, segId);
    FlushedFields(c, st, segId);
    WriteSegmentMaps(c, st, segId);
    CaptureShows(MapsOf(st));
  }

  lemma FlushGuardIs(c: Config, st: Lsm, segId: string)
    requires Layered(c, st) && Flushable(st)
    ensures FlushGuard(c, st) <==> MergeGuard(c, FlushMem(c, st, segId))
  {
    var t, b := c.mergeThreshold, FlushMem(c, st, segId);
    FlushedSegs(c, st, segId);
    if |st.segs| >= t {
      FlushedOldest(c, st, b, FlushedSegment(c, st, segId));
      FlushedMergeIff(MapsOf(st), MapsOf(b), Oldest(c, st), Rest(c, st));
    } else if |b.segs| >= t {
      assert b.segs[t..] == [];
    }
  }

  lemma FlushedOldest(c: Config, st: Lsm, b: Lsm, g: Segment)
    requires |st.segs| >= c.mergeThreshold && b.segs == st.segs + [g]
    ensures Oldest(c, b) == Oldest(c, st) && Rest(c, b) == Rest(c, st) + ToMap(g.rows)
  {
    var t := c.mergeThreshold;
    assert b.segs[..t] == st.segs[..t] && b.segs[t..] == st.segs[t..] + [g];
    StoredConcat(st.segs[t..], [g]);
    StoredOne(g);
  }

  lemma CaptureGuardIs(st: Lsm)
    ensures CaptureGuard(st) <==> RestartGuard(CaptureDeletes(st))
  {
    CaptureMaps(st);
    CapturedReturnIff(MapsOf(st), Redeleted(st));
  }

  lemma SegmentGuardIs(c: Config, st: Lsm, segId: string)
    requires Good(c, st) && Flushable(st)
    ensures SegmentGuard(st) <==> RestartGuard(WriteSegment(c, st, segId))
  {
    var w := WriteSegment(c, st, segId);
    WriteSegmentMaps(c, st, segId);
    WriteSegmentLayered(c, st, segId);
    FlushableTops(c, st);
    SegmentOutdates(MapsOf(st), MaxLsn(st.mem));
    RestartMaps(c, w);
    assert Redeleted(w) == {};
    SegmentReturnIff(MapsOf(st), MaxLsn(st.mem));
  }

  lemma FlushedReturnIff(c: Config, st: Lsm, segId: string)
    requires Good(c, st) && Flushable(st)
    ensures SegmentGuard(st) <==> RestartGuard(FlushMem(c, st, segId))
  {
    var b := FlushMem(c, st, segId);
    FlushMemMaps(c, st, segId);
    FlushMemLayered(c, st, segId);
    RestartMaps(c, b);
    assert Redeleted(b) == {};
    SegmentReturnIff(MapsOf(st), MaxLsn(st.mem));
  }

  lemma ClearGuardIs(c: Config, st: Lsm, segId: string)
    requires !Flushable(st)
    ensures ClearGuard(st) <==> RestartGuard(FlushMem(c, st, segId))
  {
    ClearMaps(st);
    ClearReturnIff(MapsOf(st), Redeleted(st));
  }

  // ---- insert and delete -------------------------------------------------------------------

  lemma InsertByMaps(st: Lsm, b: Lsm, w: map<Id, Vec>, lsn: nat)
    requires MapsOf(b) == InsertStep(MapsOf(st), w, lsn)
    ensures View(b) == View(st) + w
    ensures Sane(MapsOf(st)) && AllBefore(MapsOf(st), lsn) ==> Sane(MapsOf(b))
    ensures Clean(MapsOf(st)) ==> Clean(MapsOf(b))
  {
    var a := MapsOf(st);
    ViewIsVisible(st);
    ViewIsVisible(b);
    InsertShows(a, w, lsn);
    if Sane(a) && AllBefore(a, lsn) {
      InsertSane(a, w, lsn);
    }
    if Clean(a) {
      InsertClean(a, w, lsn);
    }
  }

  lemma RejectedKeepsMaps(c: Config, st: Lsm, op: byte, ids: seq<Id>, vectors: seq<Vec>)
    requires !Packable(st.lastLsn + 1, |ids|)
    ensures MapsOf(Append(st, op, ids, vectors)) == MapsOf(st) && View(Append(st, op, ids, vectors)) == View(st)
  {
  }

  lemma InsertRowsRefines(c: Config, st: Lsm, ids: seq<Id>, vectors: seq<Vec>)
    requires Layered(c, st) && ShapeOk(c.dim, ids, vectors)
    ensures var b := InsertRows(c, st, ids, vectors);
            && Layered(c, b)
            && View(b) == (if Packable(st.lastLsn + 1, |ids|) then View(st) + Written(Zip(ids, vectors)) else View(st))
            && (Good(c, st) ==> Good(c, b)) && (Clean(MapsOf(st)) ==> Clean(MapsOf(b)))
  {
    InsertRowsLayered(c, st, ids, vectors);
    NextIsNewest(c, st);
    if Packable(st.lastLsn + 1, |ids|) {
      InsertRowsMaps(c, st, ids, vectors);
      InsertByMaps(st, InsertRows(c, st, ids, vectors), Written(Zip(ids, vectors)), st.lastLsn + 1);
    } else {
      RejectedKeepsMaps(c, st, OP_INSERT, ids, vectors);
    }
  }

  lemma DeleteByMaps(st: Lsm, b: Lsm, ids: set<Id>, lsn: nat)
    requires MapsOf(b) == DeleteStep(MapsOf(st), ids, lsn)
    ensures View(b) == View(st) - ids
    ensures Sane(MapsOf(st)) && AllBefore(MapsOf(st), lsn) ==> Sane(MapsOf(b))
    ensures Clean(MapsOf(st)) ==> Clean(MapsOf(b))
  {
    var a := MapsOf(st);
    ViewIsVisible(st);
    ViewIsVisible(b);
    DeleteHides(a, ids, lsn);
    if Sane(a) && AllBefore(a, lsn) {
      DeleteSane(a, ids, lsn);
    }
    if Clean(a) {
      DeleteClean(a, ids, lsn);
    }
  }

  lemma DeleteRefines(c: Config, st: Lsm, ids: seq<Id>)
    requires Layered(c, st)
    ensures var b := Delete(c, st, ids);
            && Layered(c, b)
            && View(b) == (if Packable(st.lastLsn + 1, |ids|) then View(st) - IdSet(ids) else View(st))
            && (Good(c, st) ==> Good(c, b)) && (Clean(MapsOf(st)) ==> Clean(MapsOf(b)))
  {
    DeleteLayered(c, st, ids);
    NextIsNewest(c, st);
    if Packable(st.lastLsn + 1, |ids|) {
      DeleteMaps(c, st, ids);
      DeleteByMaps(st, Delete(c, st, ids), IdSet(ids), st.lastLsn + 1);
    } else {
      RejectedKeepsMaps(c, st, OP_DELETE, ids, Zeros(c.dim, |ids|));
    }
  }

  // ---- flush -------------------------------------------------------------------------------

  lemma CaptureRefines(c: Config, st: Lsm)
    requires Layered(c, st)
    ensures var b := CaptureDeletes(st);
            && Layered(c, b) && View(b) == View(st)
            && (Good(c, st) ==> Good(c, b)) && (Good(c, st) && Clean(MapsOf(st)) ==> Clean(MapsOf(b)))
  {
    var a := MapsOf(st);
    CaptureMaps(st);
    CaptureShows(a);
    ViewIsVisible(st);
    ViewIsVisible(CaptureDeletes(st));
    if Sane(a) {
      CaptureSane(a);
      if Clean(a) {
        CaptureClean(a);
      }
    }
  }

  lemma WriteSegmentRefines(c: Config, st: Lsm, segId: string)
    requires Layered(c, st) && Flushable(st)
    ensures var b := WriteSegment(c, st, segId);
            && Layered(c, b) && View(b) == View(st)
            && (Good(c, st) ==> Good(c, b)) && (Good(c, st) && Clean(MapsOf(st)) ==> Clean(MapsOf(b)))
  {
    var a, top := MapsOf(st), MaxLsn(st.mem);
    WriteSegmentLayered(c, st, segId);
    WriteSegmentMaps(c, st, segId);
    FlushableTops(c, st);
    SegmentShows(a, top);
    ViewIsVisible(st);
    ViewIsVisible(WriteSegment(c, st, segId));
    if Sane(a) {
      SegmentSane(a, top);
      if Clean(a) {
        SegmentClean(a, top);
      }
    }
  }

  // A flush that writes nothing had only delete markers to drop.
  lemma NothingLive(c: Config, st: Lsm)
    requires Layered(c, st) && !Flushable(st)
    ensures forall x :: x in ToMap(st.mem) ==> ToMap(st.mem)[x].Deleted?
  {
    MaxLsnIs(st.mem);
    LiveRowsAre(st.mem, None);
    var m := ToMap(st.mem);
    assert forall x :: x in m && m[x].Live? ==> x in LiveOf(m, None);
    if LiveRows(st.mem, None) == [] {
      assert LiveOf(m, None) == map[];
    }
  }

  lemma ClearedRefines(c: Config, st: Lsm)
    requires Layered(c, st) && !Flushable(st)
    ensures var b := CaptureDeletes(st).(mem := []);
            && View(b) == View(st) && (Sane(MapsOf(st)) ==> Sane(MapsOf(b)))
            && (Good(c, st) && Clean(MapsOf(st)) ==> Clean(MapsOf(b)))
  {
    var a, b := MapsOf(st), CaptureDeletes(st).(mem := []);
    ClearMaps(st);
    NothingLive(c, st);
    ClearShows(a);
    ViewIsVisible(st);
    ViewIsVisible(b);
    if Sane(a) {
      ClearSane(a);
      if Clean(a) {
        ClearClean(a);
      }
    }
  }

  lemma SameVisible(a: Lsm, b: Lsm)
    requires a.mem == b.mem && a.segs == b.segs && a.tombs == b.tombs
    ensures View(a) == View(b)
  {
  }

  lemma TruncatedRefines(c: Config, st: Lsm, segId: string)
    requires Layered(c, st) && Flushable(st)
    ensures var b := FlushMem(c, st, segId);
            && View(b) == View(st) && (Good(c, st) ==> Sane(MapsOf(b)) && MapsOf(b).dels == {})
            && (Good(c, st) && Clean(MapsOf(st)) ==> Clean(MapsOf(b)))
  {
    var a, top := MapsOf(st), MaxLsn(st.mem);
    WriteSegmentRefines(c, st, segId);
    SameVisible(WriteSegment(c, st, segId), FlushMem(c, st, segId));
    if Sane(a) {
      FlushMemMaps(c, st, segId);
      FlushableTops(c, st);
      FlushSane(a, top);
      if Clean(a) {
        SegmentClean(a, top);
      }
    }
  }

  // Moving the memtable into a segment never changes what is visible.
  lemma FlushMemRefines(c: Config, st: Lsm, segId: string)
    requires Layered(c, st)
    ensures var b := FlushMem(c, st, segId);
            && Layered(c, b) && b.mem == [] && View(b) == View(st)
            && (Good(c, st) ==> Good(c, b)) && (Good(c, st) && Clean(MapsOf(st)) ==> Clean(MapsOf(b)))
  {
    FlushMemLayered(c, st, segId);
    if Flushable(st) {
      TruncatedRefines(c, st, segId);
    } else {
      ClearedRefines(c, st);
    }
  }

  // ---- merge -------------------------------------------------------------------------------

  lemma MergeByMaps(c: Config, st: Lsm, b: Lsm, oldest: map<Id, Vec>, rest: map<Id, Vec>)
    requires MapsOf(st).rows == oldest + rest && MapsOf(b) == MergeStep(MapsOf(st), oldest, rest, MapsOf(b).snap)
    requires MapsOf(b).snap == MapsOf(st).snap || (MapsOf(b).snap == 0 && MapsOf(b).rows == map[])
    ensures View(b) == View(st) <==> MergeSafe(MapsOf(st), oldest, rest)
    ensures Sane(MapsOf(st)) ==> Sane(MapsOf(b))
    ensures Clean(MapsOf(st)) && MergeSafe(MapsOf(st), oldest, rest) ==> Clean(MapsOf(b))
  {
    var a, snap := MapsOf(st), MapsOf(b).snap;
    ViewIsVisible(st);
    ViewIsVisible(b);
    MergeKeepsVisibleIff(a, oldest, rest, snap);
    if Sane(a) {
      MergeSane(a, oldest, rest, snap);
    }
    if Clean(a) && MergeSafe(a, oldest, rest) {
      MergeClean(a, oldest, rest, snap);
    }
  }

  // From every layered state, a merge leaves every id's visible value alone exactly
  // when it is safe.
  lemma MergePreservesIff(c: Config, st: Lsm, mergedId: string)
    requires Layered(c, st)
    ensures var b := Merge(c, st, mergedId);
            && Layered(c, b) && (View(b) == View(st) <==> MergeGuard(c, st))
            && (Good(c, st) ==> Good(c, b)) && (Clean(MapsOf(st)) && MergeGuard(c, st) ==> Clean(MapsOf(b)))
  {
    MergeLayered(c, st, mergedId);
    if |st.segs| >= c.mergeThreshold {
      MergeMaps(c, st, mergedId);
      MergeByMaps(c, st, MergeOldest(c, st, mergedId), Oldest(c, st), Rest(c, st));
    }
  }

  lemma FlushRefinesIff(c: Config, st: Lsm, segId: string, mergedId: string)
    requires Layered(c, st)
    ensures var b := Flush(c, st, segId, mergedId);
            && Layered(c, b) && b.mem == [] && (View(b) == View(st) <==> FlushGuard(c, st))
            && (Good(c, st) ==> Good(c, b))
            && (Good(c, st) && Clean(MapsOf(st)) && FlushGuard(c, st) ==> Clean(MapsOf(b)))
  {
    FlushMemRefines(c, st, segId);
    if Flushable(st) {
      FlushGuardIs(c, st, segId);
      MergePreservesIff(c, FlushMem(c, st, segId), mergedId);
    }
  }

  // ---- restart -----------------------------------------------------------------------------

  // A new process sees what the old one did exactly when the tombstones return.
  lemma RestartKeepsIff(c: Config, st: Lsm)
    requires Good(c, st)
    ensures var b := Restart(c, st);
            && Good(c, b) && b.lastLsn == st.meta && (View(b) == View(st) <==> RestartGuard(st))
            && (Clean(MapsOf(st)) && RestartGuard(st) ==> Clean(MapsOf(b)))
  {
    var a, d := MapsOf(st), Redeleted(st);
    RestartMaps(c, st);
    RestartLayered(c, st);
    RestartFields(c, st);
    ViewIsVisible(st);
    ViewIsVisible(Restart(c, st));
    StartKeepsVisibleIff(a, d);
    StartSane(a, d);
    if Clean(a) && RestartGuard(st) {
      StartClean(a, d);
    }
  }

  // A merge in a flush leaves tombstones and log so that a restart changes nothing.
  lemma MergedReturns(c: Config, st: Lsm, segId: string, mergedId: string)
    requires Good(c, st) && Flushable(st) && |FlushMem(c, st, segId).segs| >= c.mergeThreshold
    ensures RestartGuard(Flush(c, st, segId, mergedId))
  {
    var a := FlushMem(c, st, segId);
    TruncatedRefines(c, st, segId);
    FlushMemLayered(c, st, segId);
    MergeMaps(c, a, mergedId);
    MergeLayered(c, a, mergedId);
    RestartMaps(c, Merge(c, a, mergedId));
  }

  lemma StopGuardIs(c: Config, st: Lsm, segId: string, mergedId: string)
    requires Good(c, st)
    ensures StopGuard(c, st) <==> FlushGuard(c, st) && RestartGuard(Flush(c, st, segId, mergedId))
    ensures !FlushGuard(c, st) ==> RestartGuard(Flush(c, st, segId, mergedId))
  {
    if !Flushable(st) {
      ClearGuardIs(c, st, segId);
    } else {
      FlushedSegs(c, st, segId);
      if |st.segs| + 1 >= c.mergeThreshold {
        MergedReturns(c, st, segId, mergedId);
      } else {
        FlushedReturnIff(c, st, segId);
      }
    }
  }

  lemma ReopenRefinesIff(c: Config, st: Lsm, segId: string, mergedId: string)
    requires Good(c, st)
    ensures var b := Restart(c, Flush(c, st, segId, mergedId));
            && Good(c, b) && (View(b) == View(st) <==> StopGuard(c, st))
            && (Clean(MapsOf(st)) && StopGuard(c, st) ==> Clean(MapsOf(b)))
  {
    FlushRefinesIff(c, st, segId, mergedId);
    StopGuardIs(c, st, segId, mergedId);
    ReopenByViews(c, st, Flush(c, st, segId, mergedId), FlushGuard(c, st));
  }

  lemma ReopenByViews(c: Config, st: Lsm, a: Lsm, safe: bool)
    requires Good(c, a) && (View(a) == View(st) <==> safe) && (!safe ==> RestartGuard(a))
    ensures var b := Restart(c, a);
            && Good(c, b) && (View(b) == View(st) <==> safe && RestartGuard(a))
            && (Clean(MapsOf(a)) && RestartGuard(a) ==> Clean(MapsOf(b)))
  {
    RestartKeepsIff(c, a);
  }

  // ---- one step ------------------------------------------------------------------------------

  lemma InsertRefinesIff(c: Config, st: Lsm, op: Op)
    requires Good(c, st) && op.DoInsert?
    ensures var b := Step(c, st, op);
            && Good(c, b) && (View(b) == Expected(c, st, View(st), op) <==> Guard(c, st, op))
            && (Clean(MapsOf(st)) && Guard(c, st, op) ==> Clean(MapsOf(b)))
  {
    if Accepted(c, op) {
      InsertRowsRefines(c, st, op.ids, op.vectors);
      FlushRefinesIff(c, InsertRows(c, st, op.ids, op.vectors), op.segId, op.mergedId);
    }
  }

  lemma CrashInFlushIff(c: Config, st: Lsm, segId: string)
    requires Good(c, st) && Flushable(st)
    ensures var b := Restart(c, WriteSegment(c, st, segId));
            && Good(c, b) && (View(b) == View(st) <==> SegmentGuard(st))
            && (Clean(MapsOf(st)) && SegmentGuard(st) ==> Clean(MapsOf(b)))
  {
    WriteSegmentRefines(c, st, segId);
    SegmentGuardIs(c, st, segId);
    ReopenByViews(c, st, WriteSegment(c, st, segId), true);
  }

  lemma CrashBeforeSegmentIff(c: Config, st: Lsm)
    requires Good(c, st)
    ensures var b := Restart(c, CaptureDeletes(st));
            && Good(c, b) && (View(b) == View(st) <==> CaptureGuard(st))
            && (Clean(MapsOf(st)) && CaptureGuard(st) ==> Clean(MapsOf(b)))
  {
    CaptureRefines(c, st);
    CaptureGuardIs(st);
    ReopenByViews(c, st, CaptureDeletes(st), true);
  }

  predicate Restarting(op: Op) {
    op.DoReopen? || op.DoCrash? || op.DoCrashBeforeSegment? || op.DoCrashAfterSegment?
  }

  lemma RestartRefinesIff(c: Config, st: Lsm, op: Op)
    requires Good(c, st) && Restarting(op)
    ensures var b := Step(c, st, op);
            && Good(c, b) && (View(b) == View(st) <==> Guard(c, st, op))
            && (Clean(MapsOf(st)) && Guard(c, st, op) ==> Clean(MapsOf(b)))
  {
    match op
    case DoReopen(segId, mergedId) => ReopenRefinesIff(c, st, segId, mergedId);
    case DoCrash => RestartKeepsIff(c, st);
    case DoCrashBeforeSegment => CrashBeforeSegmentIff(c, st);
    case DoCrashAfterSegment(segId) =>
      if Flushable(st) {
        CrashInFlushIff(c, st, segId);
      } else {
        CrashBeforeSegmentIff(c, st);
      }
  }

  // From every state that any run reaches, each operation, crash or restart acts on
  // the logical map as on a plain map exactly when it meets its guard.
  lemma StepRefinesIff(c: Config, st: Lsm, op: Op)
    requires Good(c, st)
    ensures var b := Step(c, st, op);
            && Good(c, b) && (View(b) == Expected(c, st, View(st), op) <==> Guard(c, st, op))
            && (Clean(MapsOf(st)) && Guard(c, st, op) ==> Clean(MapsOf(b)))
  {
    if Restarting(op) {
      RestartRefinesIff(c, st, op);
    } else {
      match op
      case DoInsert(_, _, _, _) => InsertRefinesIff(c, st, op);
      case DoDelete(ids) => DeleteRefines(c, st, ids);
      case DoFlush(segId, mergedId) => FlushRefinesIff(c, st, segId, mergedId);
      case DoMerge(mergedId) => MergePreservesIff(c, st, mergedId);
    }
  }

  // ---- whole runs ------------------------------------------------------------------------------

  // Every run, crashes included and no guard met, stays among those states.
  lemma {:induction false} EveryRunIsGood(c: Config, ops: seq<Op>)
    ensures Good(c, Run(c, ops))
  {
    EmptyIsGood(c);
    if ops != [] {
      var front := ops[..|ops| - 1];
      EveryRunIsGood(c, front);
      StepRefinesIff(c, Run(c, front), ops[|ops| - 1]);
    }
  }

  ghost predicate Guarded(c: Config, ops: seq<Op>) {
    ops == [] || (Guarded(c, ops[..|ops| - 1]) && Guard(c, Run(c, ops[..|ops| - 1]), ops[|ops| - 1]))
  }

  // Refinement over every run, restarts and crashes included, in which every
  // step meets its guard.
  lemma {:induction false} GuardedRunsRefine(c: Config, ops: seq<Op>)
    requires Guarded(c, ops)
    ensures Good(c, Run(c, ops)) && Clean(MapsOf(Run(c, ops)))
    ensures View(Run(c, ops)) == Model(c, ops)
  {
    EmptyIsGood(c);
    if ops != [] {
      var front := ops[..|ops| - 1];
      GuardedRunsRefine(c, front);
      StepRefinesIff(c, Run(c, front), ops[|ops| - 1]);
    }
  }

  // The first step off its guard shows at once.
  lemma FirstUnguardedStepShows(c: Config, ops: seq<Op>, op: Op)
    requires Guarded(c, ops) && !Guard(c, Run(c, ops), op)
    ensures View(Run(c, ops + [op])) != Model(c, ops + [op])
  {
    assert (ops + [op])[..|ops|] == ops;
    GuardedRunsRefine(c, ops);
    StepRefinesIff(c, Run(c, ops), op);
  }

  // ---- the counter -------------------------------------------------------------------------------

  lemma FlushCounter(c: Config, st: Lsm, segId: string, mergedId: string)
    ensures Flush(c, st, segId, mergedId).lastLsn == st.lastLsn
  {
    var a := FlushMem(c, st, segId);
    assert Merge(c, a, mergedId).lastLsn == a.lastLsn;
  }

  lemma StepCounter(c: Config, st: Lsm, op: Op)
    requires Layered(c, st)
    ensures Step(c, st, op).lastLsn <= st.lastLsn + if op.DoInsert? || op.DoDelete? then 1 else 0
  {
    match op
    case DoInsert(ids, vectors, segId, mergedId) => FlushCounter(c, InsertRows(c, st, ids, vectors), segId, mergedId);
    case DoDelete(_) =>
    case DoFlush(segId, mergedId) => FlushCounter(c, st, segId, mergedId);
    case DoMerge(_) =>
    case DoReopen(segId, mergedId) =>
      FlushCounter(c, st, segId, mergedId);
      FlushLayered(c, st, segId, mergedId);
      RestartFields(c, Flush(c, st, segId, mergedId));
    case _ => CrashCounter(c, st, op);
  }

  lemma CrashCounter(c: Config, st: Lsm, op: Op)
    requires Layered(c, st) && (op.DoCrash? || op.DoCrashBeforeSegment? || op.DoCrashAfterSegment?)
    ensures Step(c, st, op).lastLsn <= st.lastLsn
  {
    if op.DoCrash? {
      RestartCounter(c, st, st);
    } else if op.DoCrashAfterSegment? && Flushable(st) {
      WriteSegmentLayered(c, st, op.segId);
      RestartCounter(c, st, WriteSegment(c, st, op.segId));
    } else {
      RestartCounter(c, st, CaptureDeletes(st));
    }
  }

  lemma RestartCounter(c: Config, st: Lsm, a: Lsm)
    requires Layered(c, a) && a.meta <= st.lastLsn
    ensures Restart(c, a).lastLsn <= st.lastLsn
  {
    RestartFields(c, a);
  }

  // Up to 2^64 operations the engine rejects batches for their size alone, so the
  // logical map it is measured against does not depend on it.
  lemma {:induction false} ModelIsPlain(c: Config, ops: seq<Op>)
    requires |ops| < TWO_64
    ensures Model(c, ops) == Plain(c, ops) && Run(c, ops).lastLsn <= |ops|
  {
    if ops != [] {
      var front := ops[..|ops| - 1];
      ModelIsPlain(c, front);
      EveryRunIsGood(c, front);
      StepCounter(c, Run(c, front), ops[|ops| - 1]);
    }
  }

  // ---- runs without crashes ------------------------------------------------------------------------

  // Runs of inserts, deletes, flushes, merges and graceful restarts.
  predicate CrashFree(op: Op) {
    op.DoInsert? || op.DoDelete? || op.DoFlush? || op.DoMerge? || op.DoReopen?
  }

  // Between such operations there are fewer segments than the merge threshold, so
  // a merge has nothing left over.
  ghost predicate Few(c: Config, st: Lsm) {
    c.mergeThreshold >= 2 ==> |st.segs| < c.mergeThreshold
  }

  // No tombstone hides a live memtable entry.
  ghost predicate Untouched(st: Lsm) {
    forall x :: x in ToMap(st.mem) && ToMap(st.mem)[x].Live? ==> x !in st.tombs
  }

  lemma CleanIsUntouched(c: Config, st: Lsm)
    requires Good(c, st) && Clean(MapsOf(st))
    ensures Untouched(st)
  {
  }

  lemma NothingLeftOver(c: Config, st: Lsm)
    requires (c.mergeThreshold == 0 || |st.segs| <= c.mergeThreshold) && Untouched(st)
    ensures MergeGuard(c, st)
  {
    if |st.segs| >= c.mergeThreshold {
      if c.mergeThreshold == 0 {
        assert st.segs[..0] == [];
      } else {
        assert st.segs[c.mergeThreshold..] == [];
      }
    }
  }

  lemma FlushMemCount(c: Config, st: Lsm, segId: string)
    ensures |FlushMem(c, st, segId).segs| <= |st.segs| + 1 && FlushMem(c, st, segId).mem == []
    ensures !Flushable(st) ==> FlushMem(c, st, segId).segs == st.segs
  {
  }

  lemma FlushIsFew(c: Config, st: Lsm, segId: string, mergedId: string)
    requires Layered(c, st) && Few(c, st) && c.mergeThreshold != 1
    ensures FlushGuard(c, st) && Few(c, Flush(c, st, segId, mergedId))
  {
    var a := FlushMem(c, st, segId);
    FlushMemCount(c, st, segId);
    NothingLeftOver(c, a);
    if Flushable(st) {
      FlushGuardIs(c, st, segId);
    }
    FlushMemLayered(c, st, segId);
    if Flushable(st) && |a.segs| >= c.mergeThreshold {
      MergedSegs(c, a, mergedId);
    }
  }

  lemma MergeIsFew(c: Config, st: Lsm, mergedId: string)
    requires Layered(c, st) && Few(c, st) && c.mergeThreshold != 1
    ensures Few(c, Merge(c, st, mergedId))
  {
    if |st.segs| >= c.mergeThreshold {
      MergedSegs(c, st, mergedId);
    }
  }

  // What a flush leaves, a restart finds.
  lemma FlushedReturns(c: Config, st: Lsm)
    requires Good(c, st) && Clean(MapsOf(st)) && st.mem == []
    ensures RestartGuard(st)
  {
    RestartMaps(c, st);
    EmptyMemReturns(MapsOf(st), Redeleted(st));
  }

  lemma ReopenIsFew(c: Config, st: Lsm, segId: string, mergedId: string)
    requires Good(c, st) && Clean(MapsOf(st)) && Few(c, st) && c.mergeThreshold != 1
    ensures Guard(c, st, DoReopen(segId, mergedId)) && Few(c, Step(c, st, DoReopen(segId, mergedId)))
  {
    var b := Flush(c, st, segId, mergedId);
    FlushIsFew(c, st, segId, mergedId);
    FlushRefinesIff(c, st, segId, mergedId);
    FlushedReturns(c, b);
    StopGuardIs(c, st, segId, mergedId);
    RestartFields(c, b);
  }

  lemma CrashFreeStep(c: Config, st: Lsm, op: Op)
    requires Good(c, st) && Clean(MapsOf(st)) && Few(c, st) && c.mergeThreshold != 1 && CrashFree(op)
    ensures Guard(c, st, op)
    ensures Few(c, Step(c, st, op))
  {
    match op
    case DoInsert(ids, vectors, segId, mergedId) =>
      if Accepted(c, op) {
        InsertRowsRefines(c, st, ids, vectors);
        FlushIsFew(c, InsertRows(c, st, ids, vectors), segId, mergedId);
      }
    case DoDelete(ids) =>
    case DoFlush(segId, mergedId) => FlushIsFew(c, st, segId, mergedId);
    case DoMerge(mergedId) =>
      CleanIsUntouched(c, st);
      NothingLeftOver(c, st);
      MergeIsFew(c, st, mergedId);
    case DoReopen(segId, mergedId) => ReopenIsFew(c, st, segId, mergedId);
  }

  // Every crash-free run meets its guards and refines the plain map, at any flush threshold.
  lemma {:induction false} CrashFreeRunsRefine(c: Config, ops: seq<Op>)
    requires c.mergeThreshold != 1
    requires forall i :: 0 <= i < |ops| ==> CrashFree(ops[i])
    ensures Guarded(c, ops) && Few(c, Run(c, ops))
    ensures View(Run(c, ops)) == Model(c, ops)
  {
    GuardedRunsRefine(c, []);
    if ops != [] {
      var front, op := ops[..|ops| - 1], ops[|ops| - 1];
      CrashFreeRunsRefine(c, front);
      GuardedRunsRefine(c, front);
      CrashFreeStep(c, Run(c, front), op);
      GuardedRunsRefine(c, ops);
    }
  }

  // ---- recovery after any run ------------------------------------------------------------------------

  // Crash recovery. After every run, whatever happened in it: a new process sees what
  // the killed one did exactly when the tombstones return, and starts from the LSN on disk.
  lemma RecoveryIff(c: Config, ops: seq<Op>)
    ensures var st := Run(c, ops);
            (View(Restart(c, st)) == View(st) <==> RestartGuard(st)) && Restart(c, st).lastLsn == st.meta
  {
    EveryRunIsGood(c, ops);
    RestartKeepsIff(c, Run(c, ops));
  }

  // After every run that met its guards so far, that is exactly when no id's last
  // replayed record is an insert with a replayed delete before it.
  lemma GuardedRecoveryIff(c: Config, ops: seq<Op>)
    requires Guarded(c, ops)
    ensures var st := Run(c, ops);
            var deleted := Redeleted(st);
            View(Restart(c, st)) == View(st) <==> forall x :: !Reinserted(MapsOf(st), deleted, x)
  {
    var st := Run(c, ops);
    GuardedRunsRefine(c, ops);
    RestartMaps(c, st);
    RestartKeepsIff(c, st);
    ReturnIffNoneReinserted(MapsOf(st), Redeleted(st));
  }

  // A crash in `flush` once the segment is on disk: after every run, nothing is lost
  // exactly when the file names every tombstoned id that is stored or about to be.
  lemma CrashAfterSegmentIff(c: Config, ops: seq<Op>, segId: string)
    requires Flushable(Run(c, ops))
    ensures var st := Run(c, ops);
            View(Restart(c, WriteSegment(c, st, segId))) == View(st) <==> SegmentGuard(st)
  {
    EveryRunIsGood(c, ops);
    CrashInFlushIff(c, Run(c, ops), segId);
  }

  // A graceful stop and start: after every run, nothing is lost exactly when the state
  // before the stop meets the stop's guard.
  lemma GracefulStopIff(c: Config, ops: seq<Op>, segId: string, mergedId: string)
    ensures var st := Run(c, ops);
            View(Restart(c, Flush(c, st, segId, mergedId))) == View(st) <==> StopGuard(c, st)
  {
    EveryRunIsGood(c, ops);
    ReopenRefinesIff(c, Run(c, ops), segId, mergedId);
  }

  // After every run that met its guards, a crash once the segment is on disk and a
  // graceful stop whose flush is safe lose nothing.
  lemma GuardedStopsRecover(c: Config, ops: seq<Op>, segId: string, mergedId: string)
    requires Guarded(c, ops)
    ensures var st := Run(c, ops);
            && (FlushGuard(c, st) ==> View(Restart(c, Flush(c, st, segId, mergedId))) == View(st))
            && (Flushable(st) ==> View(Restart(c, WriteSegment(c, st, segId))) == View(st))
  {
    var st := Run(c, ops);
    GuardedRunsRefine(c, ops);
    FlushRefinesIff(c, st, segId, mergedId);
    if FlushGuard(c, st) {
      FlushedIsFound(c, st, Flush(c, st, segId, mergedId));
    }
    if Flushable(st) {
      WriteSegmentRefines(c, st, segId);
      FlushedIsFound(c, st, WriteSegment(c, st, segId));
    }
  }

  lemma FlushedIsFound(c: Config, st: Lsm, a: Lsm)
    requires Good(c, a) && Clean(MapsOf(a)) && a.mem == [] && View(a) == View(st)
    ensures View(Restart(c, a)) == View(st)
  {
    FlushedReturns(c, a);
    RestartKeepsIff(c, a);
  }
}
