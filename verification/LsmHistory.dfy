// Every record ever appended, and where each stored vector came from. Holds over
// all runs, whatever the thresholds and however often the process is killed.
module LsmHistory {
  import opened Wrappers
  import opened ByteCodec
  import opened WalCodec
  import opened WalRecovery
  import opened Dicts
  import opened Segments
  import opened MemTables
  import opened LsmModel
  import opened LsmInvariants
  import opened LsmRuns

  // What one operation adds to the log.
  function Appended(c: Config, st: Lsm, op: Op): seq<Record> {
    match op
    case DoInsert(ids, vectors, _, _) => if Accepted(c, op) then NewRecord(st, OP_INSERT, ids, vectors) else []
    case DoDelete(ids) => NewRecord(st, OP_DELETE, ids, Zeros(c.dim, |ids|))
    case _ => []
  }

  function NewRecord(st: Lsm, op: byte, ids: seq<Id>, vectors: seq<Vec>): seq<Record> {
    if Packable(st.lastLsn + 1, |ids|) then [Record(st.lastLsn + 1, op, ids, vectors)] else []
  }

  function History(c: Config, ops: seq<Op>): seq<Record> {
    if ops == [] then []
    else
      var front := ops[..|ops| - 1];
      History(c, front) + Appended(c, Run(c, front), ops[|ops| - 1])
  }

  // Some insert with this LSN gave id x the vector v.
  ghost predicate Wrote(history: seq<Record>, x: Id, v: Vec, lsn: nat) {
    exists i :: 0 <= i < |history| && Writes(history[i], x, v) && history[i].lsn == lsn
  }

  ghost predicate Writes(r: Record, x: Id, v: Vec) {
    var w := Written(Zip(r.ids, r.vectors));
    r.op == OP_INSERT && x in w && w[x] == v
  }

  // v was written to x no later than the snapshot.
  ghost predicate WrittenBy(history: seq<Record>, x: Id, v: Vec, snapshot: nat) {
    exists lsn: nat :: lsn <= snapshot && Wrote(history, x, v, lsn)
  }

  ghost predicate RowsTraced(history: seq<Record>, rows: map<Id, Vec>, snap: nat) {
    forall x :: x in rows ==> WrittenBy(history, x, rows[x], snap)
  }

  ghost predicate EntriesTraced(history: seq<Record>, m: map<Id, Entry>) {
    forall x :: x in m && m[x].Live? ==> Wrote(history, x, m[x].vec, m[x].lsn)
  }

  ghost predicate SegsTraced(history: seq<Record>, segs: seq<Segment>) {
    forall i :: 0 <= i < |segs| ==> RowsTraced(history, ToMap(segs[i].rows), segs[i].snap)
  }

  ghost predicate LogTraced(history: seq<Record>, log: seq<Record>) {
    forall i :: 0 <= i < |log| ==> log[i] in history
  }

  ghost predicate Traced(c: Config, st: Lsm, history: seq<Record>) {
    && Layered(c, st)
    && LogOk(history, st.meta)
    && SegsTraced(history, st.segs)
    && EntriesTraced(history, ToMap(st.mem))
    && LogTraced(history, st.log)
  }

  // ---- growing the history ------------------------------------------------------------------

  lemma WroteLater(history: seq<Record>, more: seq<Record>, x: Id, v: Vec, lsn: nat)
    requires Wrote(history, x, v, lsn)
    ensures Wrote(history + more, x, v, lsn)
  {
    var i :| 0 <= i < |history| && Writes(history[i], x, v) && history[i].lsn == lsn;
    assert (history + more)[i] == history[i];
  }

  lemma RowsTracedLater(history: seq<Record>, more: seq<Record>, rows: map<Id, Vec>, snap: nat)
    requires RowsTraced(history, rows, snap)
    ensures RowsTraced(history + more, rows, snap)
  {
    forall x | x in rows ensures WrittenBy(history + more, x, rows[x], snap) {
      var lsn: nat :| lsn <= snap && Wrote(history, x, rows[x], lsn);
      WroteLater(history, more, x, rows[x], lsn);
    }
  }

  lemma SegsTracedLater(history: seq<Record>, more: seq<Record>, segs: seq<Segment>)
    requires SegsTraced(history, segs)
    ensures SegsTraced(history + more, segs)
  {
    forall i | 0 <= i < |segs| ensures RowsTraced(history + more, ToMap(segs[i].rows), segs[i].snap) {
      RowsTracedLater(history, more, ToMap(segs[i].rows), segs[i].snap);
    }
  }

  lemma EntriesTracedLater(history: seq<Record>, more: seq<Record>, m: map<Id, Entry>)
    requires EntriesTraced(history, m)
    ensures EntriesTraced(history + more, m)
  {
    forall x | x in m && m[x].Live? ensures Wrote(history + more, x, m[x].vec, m[x].lsn) {
      WroteLater(history, more, x, m[x].vec, m[x].lsn);
    }
  }

  // Replaying a record of the history keeps entries traced.
  lemma EffectTraced(history: seq<Record>, m: map<Id, Entry>, r: Record)
    requires EntriesTraced(history, m) && r in history
    ensures EntriesTraced(history, m + Effect(r))
  {
    var n := m + Effect(r);
    var i :| 0 <= i < |history| && history[i] == r;
    forall x | x in n && n[x].Live? ensures Wrote(history, x, n[x].vec, n[x].lsn) {
      if x in Effect(r) {
        assert Writes(history[i], x, n[x].vec);
      }
    }
  }

  lemma {:induction false} ReplayTraced(history: seq<Record>, rs: seq<Record>)
    requires forall r :: r in rs ==> r in history
    ensures EntriesTraced(history, ToMap(Replay(rs)))
  {
    if rs != [] {
      var front, last := rs[..|rs| - 1], rs[|rs| - 1];
      assert forall r :: r in front ==> r in rs;
      ReplayTraced(history, front);
      ReplayOneIs(Replay(front), last);
      EffectTraced(history, ToMap(Replay(front)), last);
    }
  }

  lemma LogTracedSnoc(history: seq<Record>, log: seq<Record>, r: Record)
    requires LogTraced(history, log)
    ensures LogTraced(history + [r], log + [r])
  {
    assert r in [r];
  }

  // ---- steps ----------------------------------------------------------------------------------

  lemma AppendTraced(c: Config, st: Lsm, history: seq<Record>, r: Record)
    requires Traced(c, st, history) && r.lsn == st.lastLsn + 1
    ensures LogOk(history + [r], r.lsn) && SegsTraced(history + [r], st.segs)
    ensures EntriesTraced(history + [r], ToMap(st.mem) + Effect(r))
    ensures LogTraced(history + [r], st.log + [r])
  {
    LogSnoc(history, st.meta, r);
    SegsTracedLater(history, [r], st.segs);
    EntriesTracedLater(history, [r], ToMap(st.mem));
    assert (history + [r])[|history|] == r;
    EffectTraced(history + [r], ToMap(st.mem), r);
    LogTracedSnoc(history, st.log, r);
  }

  lemma InsertRowsTraced(c: Config, st: Lsm, history: seq<Record>, ids: seq<Id>, vectors: seq<Vec>)
    requires Traced(c, st, history)
    ensures Traced(c, InsertRows(c, st, ids, vectors), history + NewRecord(st, OP_INSERT, ids, vectors))
  {
    var r := Record(st.lastLsn + 1, OP_INSERT, ids, vectors);
    InsertRowsLayered(c, st, ids, vectors);
    if Packable(st.lastLsn + 1, |ids|) {
      InsertRowsFields(c, st, ids, vectors);
      InsertedEntries(st, ids, vectors);
      AppendTraced(c, st, history, r);
    } else {
      assert history + [] == history;
    }
  }

  lemma DeleteTraced(c: Config, st: Lsm, history: seq<Record>, ids: seq<Id>)
    requires Traced(c, st, history)
    ensures Traced(c, Delete(c, st, ids), history + NewRecord(st, OP_DELETE, ids, Zeros(c.dim, |ids|)))
  {
    var r := Record(st.lastLsn + 1, OP_DELETE, ids, Zeros(c.dim, |ids|));
    DeleteLayered(c, st, ids);
    if Packable(st.lastLsn + 1, |ids|) {
      DeleteFields(c, st, ids);
      DeletedEntries(c, st, ids);
      AppendTraced(c, st, history, r);
    } else {
      assert history + [] == history;
    }
  }

  lemma LiveRowsTraced(history: seq<Record>, m: map<Id, Entry>, snap: nat)
    requires EntriesTraced(history, m) && forall x :: x in m ==> m[x].lsn <= snap
    ensures RowsTraced(history, LiveOf(m, None), snap)
  {
    var rows := LiveOf(m, None);
    forall x | x in rows ensures WrittenBy(history, x, rows[x], snap) {
      assert Wrote(history, x, rows[x], m[x].lsn);
    }
  }

  lemma WriteSegmentTraced(c: Config, st: Lsm, history: seq<Record>, segId: string)
    requires Traced(c, st, history) && Flushable(st)
    ensures Traced(c, WriteSegment(c, st, segId), history)
  {
    WriteSegmentLayered(c, st, segId);
    Listed(c, st, segId);
    FlushableTop(c, st);
    LiveRowsTraced(history, ToMap(st.mem), MaxLsn(st.mem));
  }

  lemma FromTraced(history: seq<Record>, log: seq<Record>, lsn: nat)
    requires LogTraced(history, log)
    ensures LogTraced(history, From(log, lsn))
  {
    FromMembers(log, lsn);
    forall i | 0 <= i < |From(log, lsn)| ensures From(log, lsn)[i] in history {
      assert From(log, lsn)[i] in From(log, lsn);
    }
  }

  lemma LogOkLater(log: seq<Record>, meta: nat, later: nat)
    requires LogOk(log, meta) && meta <= later
    ensures LogOk(log, later)
  {
  }

  // A shorter log and a later counter do not matter.
  lemma ShorterLogTraced(c: Config, a: Lsm, b: Lsm, history: seq<Record>)
    requires Traced(c, a, history) && Layered(c, b) && LogTraced(history, b.log)
    requires b.segs == a.segs && b.mem == a.mem && a.meta <= b.meta
    ensures Traced(c, b, history)
  {
    LogOkLater(history, a.meta, b.meta);
  }

  lemma FlushMemFields(c: Config, st: Lsm, segId: string)
    requires Layered(c, st) && Flushable(st)
    ensures var w, b := WriteSegment(c, st, segId), FlushMem(c, st, segId);
            b.segs == w.segs && b.mem == w.mem && w.meta <= b.meta && b.log == From(st.log, MaxLsn(st.mem) + 1)
  {
  }

  lemma ClearedTraced(c: Config, st: Lsm, history: seq<Record>)
    requires Traced(c, st, history)
    ensures Traced(c, CaptureDeletes(st).(mem := []), history)
  {
  }

  lemma FlushMemTraced(c: Config, st: Lsm, history: seq<Record>, segId: string)
    requires Traced(c, st, history)
    ensures Traced(c, FlushMem(c, st, segId), history)
  {
    if Flushable(st) {
      FlushMemLayered(c, st, segId);
      WriteSegmentTraced(c, st, history, segId);
      FlushMemFields(c, st, segId);
      FromTraced(history, st.log, MaxLsn(st.mem) + 1);
      ShorterLogTraced(c, WriteSegment(c, st, segId), FlushMem(c, st, segId), history);
    } else {
      ClearedTraced(c, st, history);
    }
  }

  lemma {:induction false} StoredTraced(history: seq<Record>, segs: seq<Segment>, snap: nat)
    requires SegsTraced(history, segs) && forall i :: 0 <= i < |segs| ==> segs[i].snap <= snap
    ensures RowsTraced(history, Stored(segs), snap)
  {
    if segs != [] {
      var n := |segs| - 1;
      StoredTraced(history, segs[..n], snap);
      var rows := Stored(segs);
      forall x | x in rows ensures WrittenBy(history, x, rows[x], snap) {
        if x in ToMap(segs[n].rows) {
          var lsn: nat :| lsn <= segs[n].snap && Wrote(history, x, rows[x], lsn);
        }
      }
    }
  }

  lemma MergeKeepsLog(c: Config, st: Lsm, mergedId: string)
    ensures var b := LsmModel.Merge(c, st, mergedId);
            b.log == st.log && b.meta == st.meta && b.lastLsn == st.lastLsn && b.mem == st.mem
  {
  }

  lemma MergedRowsTraced(history: seq<Record>, segs: seq<Segment>, t: nat, tombs: set<Id>)
    requires SegsTraced(history, segs) && t <= |segs|
    ensures RowsTraced(history, Stored(segs[..t]) - tombs, MaxSnap(segs[..t]))
  {
    forall i | 0 <= i < t ensures segs[..t][i].snap <= MaxSnap(segs[..t]) {
      MaxSnapBounds(segs[..t], i);
    }
    StoredTraced(history, segs[..t], MaxSnap(segs[..t]));
  }

  lemma ReplacedTraced(history: seq<Record>, segs: seq<Segment>, t: nat, m: Segment)
    requires SegsTraced(history, segs) && t <= |segs|
    ensures SegsTraced(history, segs[t..])
    ensures RowsTraced(history, ToMap(m.rows), m.snap) ==> SegsTraced(history, [m] + segs[t..])
  {
  }

  lemma MergedSegsTraced(c: Config, st: Lsm, history: seq<Record>, mergedId: string)
    requires Layered(c, st) && SegsTraced(history, st.segs) && |st.segs| >= c.mergeThreshold
    ensures SegsTraced(history, MergeOldest(c, st, mergedId).segs)
  {
    var t := c.mergeThreshold;
    var rows := MergedRows(st.segs[..t], st.tombs);
    RowsAndTombs(c, st);
    MergedRowsTraced(history, st.segs, t, st.tombs);
    var m := Segment(mergedId, c.shard, MaxSnap(st.segs[..t]), rows);
    ReplacedTraced(history, st.segs, t, m);
    if rows != [] {
      MergedFirst(c.shard, st.segs, t, m, st.meta);
    }
  }

  lemma MergeTraced(c: Config, st: Lsm, history: seq<Record>, mergedId: string)
    requires Traced(c, st, history)
    ensures Traced(c, LsmModel.Merge(c, st, mergedId), history)
  {
    MergeLayered(c, st, mergedId);
    MergeKeepsLog(c, st, mergedId);
    if |st.segs| >= c.mergeThreshold {
      MergedSegsTraced(c, st, history, mergedId);
    }
  }

  lemma FlushTraced(c: Config, st: Lsm, history: seq<Record>, segId: string, mergedId: string)
    requires Traced(c, st, history)
    ensures Traced(c, Flush(c, st, segId, mergedId), history)
  {
    FlushMemTraced(c, st, history, segId);
    MergeTraced(c, FlushMem(c, st, segId), history, mergedId);
  }

  lemma RestartTraced(c: Config, st: Lsm, history: seq<Record>)
    requires Traced(c, st, history)
    ensures Traced(c, Restart(c, st), history)
  {
    RestartLayered(c, st);
    RestartFields(c, st);
    ReplayedTraced(history, st.segs, st.log);
    SameFilesTraced(c, st, Restart(c, st), history);
  }

  lemma ReplayedTraced(history: seq<Record>, segs: seq<Segment>, log: seq<Record>)
    requires LogTraced(history, log)
    ensures EntriesTraced(history, ToMap(Replay(Replayed(segs, log))))
  {
    FromMembers(log, MaxSnap(segs) + 1);
    assert forall r :: r in log ==> r in history;
    ReplayTraced(history, Replayed(segs, log));
  }

  lemma SameFilesTraced(c: Config, a: Lsm, b: Lsm, history: seq<Record>)
    requires Traced(c, a, history) && Layered(c, b) && EntriesTraced(history, ToMap(b.mem))
    requires b.segs == a.segs && b.log == a.log && b.meta == a.meta
    ensures Traced(c, b, history)
  {
  }

  lemma InsertTraced(c: Config, st: Lsm, history: seq<Record>, ids: seq<Id>, vectors: seq<Vec>, segId: string,
      mergedId: string)
    requires Traced(c, st, history)
    ensures Traced(c, Insert(c, st, ids, vectors, segId, mergedId), history + NewRecord(st, OP_INSERT, ids, vectors))
  {
    var later := history + NewRecord(st, OP_INSERT, ids, vectors);
    InsertRowsTraced(c, st, history, ids, vectors);
    FlushTraced(c, InsertRows(c, st, ids, vectors), later, segId, mergedId);
  }

  lemma CrashInFlushTraced(c: Config, st: Lsm, history: seq<Record>, segId: string)
    requires Traced(c, st, history)
    ensures Traced(c, Restart(c, CaptureDeletes(st)), history)
    ensures Flushable(st) ==> Traced(c, Restart(c, WriteSegment(c, st, segId)), history)
  {
    RestartTraced(c, CaptureDeletes(st), history);
    if Flushable(st) {
      WriteSegmentTraced(c, st, history, segId);
      RestartTraced(c, WriteSegment(c, st, segId), history);
    }
  }

  lemma OtherStepTraced(c: Config, st: Lsm, history: seq<Record>, op: Op)
    requires Traced(c, st, history) && !op.DoInsert? && !op.DoDelete?
    ensures Traced(c, Step(c, st, op), history)
  {
    match op
    case DoFlush(segId, mergedId) => FlushTraced(c, st, history, segId, mergedId);
    case DoMerge(mergedId) => MergeTraced(c, st, history, mergedId);
    case DoReopen(segId, mergedId) =>
      FlushTraced(c, st, history, segId, mergedId);
      RestartTraced(c, Flush(c, st, segId, mergedId), history);
    case DoCrash => RestartTraced(c, st, history);
    case DoCrashBeforeSegment => CrashInFlushTraced(c, st, history, "");
    case DoCrashAfterSegment(segId) => CrashInFlushTraced(c, st, history, segId);
  }

  lemma StepTraced(c: Config, st: Lsm, history: seq<Record>, op: Op)
    requires Traced(c, st, history)
    ensures Traced(c, Step(c, st, op), history + Appended(c, st, op))
  {
    if op.DoDelete? {
      DeleteTraced(c, st, history, op.ids);
    } else if op.DoInsert? && Accepted(c, op) {
      InsertTraced(c, st, history, op.ids, op.vectors, op.segId, op.mergedId);
    } else {
      assert history + [] == history;
      if !op.DoInsert? {
        OtherStepTraced(c, st, history, op);
      }
    }
  }

  // LSN layering over every run: no two records ever appended share an LSN, the
  // LSNs and snapshots are layered, and every stored vector is traced to an
  // insert no newer than its segment's snapshot.
  lemma {:induction false} EveryRunIsTraced(c: Config, ops: seq<Op>)
    ensures Traced(c, Run(c, ops), History(c, ops))
  {
    if ops == [] {
    } else {
      var front := ops[..|ops| - 1];
      EveryRunIsTraced(c, front);
      StepTraced(c, Run(c, front), History(c, front), ops[|ops| - 1]);
    }
  }

  // ---- contiguity -----------------------------------------------------------------------------

  // The log is one run of consecutive LSNs that ends at lastLsn.
  ghost predicate Contiguous(log: seq<Record>, last: nat) {
    |log| <= last && forall i :: 0 <= i < |log| ==> log[i].lsn == last - |log| + 1 + i
  }

  lemma {:induction false} FromContiguous(log: seq<Record>, last: nat, lsn: nat)
    requires Contiguous(log, last)
    ensures Contiguous(From(log, lsn), last)
  {
    if log != [] {
      FromContiguous(log[..|log| - 1], last - 1, lsn);
      if log[|log| - 1].lsn < lsn {
        NothingFrom(log, lsn);
      }
    }
  }

  // The counter on disk is current, and the log is contiguous.
  ghost predicate Current(st: Lsm) {
    st.meta == st.lastLsn && Contiguous(st.log, st.lastLsn)
  }

  // The log can hold what the operation appends.
  predicate Fits(st: Lsm, op: Op) {
    match op
    case DoInsert(ids, _, _, _) => Packable(st.lastLsn + 1, |ids|)
    case DoDelete(ids) => Packable(st.lastLsn + 1, |ids|)
    case _ => true
  }

  lemma FlushCurrent(c: Config, st: Lsm, segId: string, mergedId: string)
    requires Current(st)
    ensures Current(Flush(c, st, segId, mergedId))
  {
    FlushMemCurrent(c, st, segId);
    MergeKeepsLog(c, FlushMem(c, st, segId), mergedId);
  }

  lemma FlushMemCurrent(c: Config, st: Lsm, segId: string)
    requires Current(st)
    ensures Current(FlushMem(c, st, segId))
  {
    FromContiguous(st.log, st.lastLsn, MaxLsn(st.mem) + 1);
  }

  lemma RestartCurrent(c: Config, st: Lsm)
    requires Layered(c, st) && Current(st)
    ensures Current(Restart(c, st)) && Restart(c, st).lastLsn == st.lastLsn
  {
    RestartFields(c, st);
  }

  // While no batch is rejected, the log stays one contiguous run that ends at
  // lastLsn, and every restart finds the same last LSN.
  lemma ContiguousStep(c: Config, st: Lsm, op: Op)
    requires Layered(c, st) && Current(st) && Fits(st, op)
    ensures Current(Step(c, st, op))
    ensures Step(c, st, op).lastLsn == st.lastLsn + |Appended(c, st, op)|
  {
    match op
    case DoInsert(ids, vectors, segId, mergedId) =>
      if Accepted(c, op) {
        InsertRowsFields(c, st, ids, vectors);
        FlushCurrent(c, InsertRows(c, st, ids, vectors), segId, mergedId);
        FlushKeepsCounter(c, InsertRows(c, st, ids, vectors), segId, mergedId);
      }
    case DoDelete(ids) =>
    case DoFlush(segId, mergedId) =>
      FlushCurrent(c, st, segId, mergedId);
      FlushKeepsCounter(c, st, segId, mergedId);
    case DoMerge(mergedId) => MergeKeepsLog(c, st, mergedId);
    case DoReopen(segId, mergedId) =>
      FlushCurrent(c, st, segId, mergedId);
      FlushKeepsCounter(c, st, segId, mergedId);
      FlushLayered(c, st, segId, mergedId);
      RestartCurrent(c, Flush(c, st, segId, mergedId));
    case DoCrash => RestartCurrent(c, st);
    case DoCrashBeforeSegment => RestartCurrent(c, CaptureDeletes(st));
    case DoCrashAfterSegment(segId) =>
      if Flushable(st) {
        WriteSegmentLayered(c, st, segId);
        RestartCurrent(c, WriteSegment(c, st, segId));
      } else {
        RestartCurrent(c, CaptureDeletes(st));
      }
  }

  lemma FlushKeepsCounter(c: Config, st: Lsm, segId: string, mergedId: string)
    ensures Flush(c, st, segId, mergedId).lastLsn == st.lastLsn
  {
    MergeKeepsLog(c, FlushMem(c, st, segId), mergedId);
  }

  // Every append of the run fits the record format.
  ghost predicate AllFit(c: Config, ops: seq<Op>) {
    ops == [] || (AllFit(c, ops[..|ops| - 1]) && Fits(Run(c, ops[..|ops| - 1]), ops[|ops| - 1]))
  }

  lemma {:induction false} RunsAreContiguous(c: Config, ops: seq<Op>)
    requires AllFit(c, ops)
    ensures Current(Run(c, ops)) && Run(c, ops).lastLsn == |History(c, ops)|
  {
    if ops != [] {
      var front := ops[..|ops| - 1];
      RunsAreContiguous(c, front);
      EveryRunIsTraced(c, front);
      ContiguousStep(c, Run(c, front), ops[|ops| - 1]);
    }
  }
}
