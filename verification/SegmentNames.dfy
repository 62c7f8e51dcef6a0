// Segment directories never share a name, as long as no drawn name repeats.
module SegmentNames {
  import opened WalCodec
  import opened Segments
  import opened LsmModel
  import opened LsmInvariants
  import opened LsmRuns
  import opened Registry
  import LsmHistory

  // The segments after a step that may draw two names.
  ghost predicate Renamed(before: seq<Segment>, after: seq<Segment>, drawn: set<string>) {
    DistinctSegIds(after) && forall i :: 0 <= i < |after| ==> after[i] in before || after[i].id in drawn
  }

  lemma AddOne(segs: seq<Segment>, g: Segment, drawn: set<string>)
    requires DistinctSegIds(segs) && g.id !in IdsOf(segs) && g.id in drawn
    ensures Renamed(segs, segs + [g], drawn)
  {
    forall i | 0 <= i < |segs| ensures segs[i].id != g.id {
      assert segs[i] in segs;
    }
  }

  lemma ReplaceOldest(segs: seq<Segment>, t: nat, m: Segment, drawn: set<string>)
    requires DistinctSegIds(segs) && m.id !in IdsOf(segs) && m.id in drawn && t <= |segs|
    ensures Renamed(segs, [m] + segs[t..], drawn) && Renamed(segs, segs[t..], drawn)
  {
    var after := [m] + segs[t..];
    forall i | t <= i < |segs| ensures segs[i].id != m.id {
      assert segs[i] in segs;
    }
    forall i, j | 0 <= i < j < |after| ensures after[i].id != after[j].id {
      assert after[j] == segs[t + j - 1];
      assert i > 0 ==> after[i] == segs[t + i - 1];
    }
  }

  lemma FlushMemRenames(c: Config, st: Lsm, segId: string)
    requires Layered(c, st) && DistinctSegIds(st.segs) && segId !in IdsOf(st.segs)
    ensures Renamed(st.segs, FlushMem(c, st, segId).segs, {segId})
  {
    if Flushable(st) {
      Listed(c, st, segId);
      FlushedFields(c, st, segId);
      AddOne(st.segs, FlushedSegment(c, st, segId), {segId});
    }
  }

  lemma MergeRenames(c: Config, st: Lsm, mergedId: string)
    requires Layered(c, st) && DistinctSegIds(st.segs) && mergedId !in IdsOf(st.segs)
    ensures Renamed(st.segs, Merge(c, st, mergedId).segs, {mergedId})
  {
    if |st.segs| >= c.mergeThreshold {
      var t := c.mergeThreshold;
      var rows := MergedRows(st.segs[..t], st.tombs);
      RowsAndTombs(c, st);
      if rows != [] {
        var m := Segment(mergedId, c.shard, MaxSnap(st.segs[..t]), rows);
        MergedFirst(c.shard, st.segs, t, m, st.meta);
        ReplaceOldest(st.segs, t, m, {mergedId});
      }
    }
  }

  lemma RenamedTwice(a: seq<Segment>, b: seq<Segment>, c: seq<Segment>, x: string, y: string)
    requires Renamed(a, b, {x}) && Renamed(b, c, {y})
    ensures Renamed(a, c, {x, y})
  {
  }

  lemma FlushRenames(c: Config, st: Lsm, segId: string, mergedId: string)
    requires Layered(c, st) && DistinctSegIds(st.segs)
    requires segId != mergedId && segId !in IdsOf(st.segs) && mergedId !in IdsOf(st.segs)
    ensures Renamed(st.segs, Flush(c, st, segId, mergedId).segs, {segId, mergedId})
  {
    var a := FlushMem(c, st, segId);
    FlushMemRenames(c, st, segId);
    FlushMemLayered(c, st, segId);
    if Flushable(st) && |a.segs| >= c.mergeThreshold {
      MergeRenames(c, a, mergedId);
      RenamedTwice(st.segs, a.segs, Merge(c, a, mergedId).segs, segId, mergedId);
    }
  }

  lemma InsertRenames(c: Config, st: Lsm, ids: seq<Id>, vectors: seq<Vec>, segId: string, mergedId: string)
    requires Layered(c, st) && DistinctSegIds(st.segs)
    requires segId != mergedId && segId !in IdsOf(st.segs) && mergedId !in IdsOf(st.segs)
    ensures Renamed(st.segs, Insert(c, st, ids, vectors, segId, mergedId).segs, {segId, mergedId})
  {
    InsertRowsLayered(c, st, ids, vectors);
    assert InsertRows(c, st, ids, vectors).segs == st.segs;
    FlushRenames(c, InsertRows(c, st, ids, vectors), segId, mergedId);
  }

  // ---- whole runs ---------------------------------------------------------------------

  function Drawn(op: Op): set<string> {
    match op
    case DoInsert(_, _, segId, mergedId) => {segId, mergedId}
    case DoFlush(segId, mergedId) => {segId, mergedId}
    case DoMerge(mergedId) => {mergedId}
    case DoReopen(segId, mergedId) => {segId, mergedId}
    case DoCrashAfterSegment(segId) => {segId}
    case _ => {}
  }

  predicate TwoNames(op: Op) {
    op.DoInsert? || op.DoFlush? || op.DoReopen? ==> op.segId != op.mergedId
  }

  function DrawnBy(ops: seq<Op>): set<string> {
    if ops == [] then {} else DrawnBy(ops[..|ops| - 1]) + Drawn(ops[|ops| - 1])
  }

  // No name is drawn twice.
  ghost predicate FreshNames(ops: seq<Op>) {
    ops == [] ||
    (var front, op := ops[..|ops| - 1], ops[|ops| - 1];
     FreshNames(front) && TwoNames(op) && Drawn(op) !! DrawnBy(front))
  }

  lemma StepRenames(c: Config, st: Lsm, op: Op)
    requires Layered(c, st) && DistinctSegIds(st.segs) && TwoNames(op) && Drawn(op) !! IdsOf(st.segs)
    ensures Renamed(st.segs, Step(c, st, op).segs, Drawn(op))
  {
    match op
    case DoInsert(ids, vectors, segId, mergedId) => InsertRenames(c, st, ids, vectors, segId, mergedId);
    case DoDelete(_) =>
    case DoFlush(segId, mergedId) => FlushRenames(c, st, segId, mergedId);
    case DoMerge(mergedId) => MergeRenames(c, st, mergedId);
    case DoReopen(segId, mergedId) =>
      FlushRenames(c, st, segId, mergedId);
      FlushLayered(c, st, segId, mergedId);
      RestartedSegs(c, Flush(c, st, segId, mergedId));
    case DoCrash => RestartedSegs(c, st);
    case DoCrashBeforeSegment => RestartedSegs(c, CaptureDeletes(st));
    case DoCrashAfterSegment(segId) => CrashRenames(c, st, segId);
  }

  lemma RestartedSegs(c: Config, st: Lsm)
    requires Layered(c, st)
    ensures Restart(c, st).segs == st.segs
  {
    RestartFields(c, st);
  }

  lemma WriteRenames(c: Config, st: Lsm, segId: string)
    requires Layered(c, st) && DistinctSegIds(st.segs) && segId !in IdsOf(st.segs) && Flushable(st)
    ensures Renamed(st.segs, WriteSegment(c, st, segId).segs, {segId})
  {
    Listed(c, st, segId);
    AddOne(st.segs, FlushedSegment(c, st, segId), {segId});
  }

  lemma CrashRenames(c: Config, st: Lsm, segId: string)
    requires Layered(c, st) && DistinctSegIds(st.segs) && segId !in IdsOf(st.segs)
    ensures Flushable(st) ==> Renamed(st.segs, Restart(c, WriteSegment(c, st, segId)).segs, {segId})
    ensures Renamed(st.segs, Restart(c, CaptureDeletes(st)).segs, {segId})
  {
    if Flushable(st) {
      WriteSegmentLayered(c, st, segId);
      RestartedSegs(c, WriteSegment(c, st, segId));
      WriteRenames(c, st, segId);
    }
    RestartedSegs(c, CaptureDeletes(st));
  }

  lemma RenamedIds(before: seq<Segment>, after: seq<Segment>, drawn: set<string>)
    requires Renamed(before, after, drawn)
    ensures IdsOf(after) <= IdsOf(before) + drawn
  {
  }

  // Over every run, crashes included, no two segments share a directory.
  lemma {:induction false} SegmentIdsStayDistinct(c: Config, ops: seq<Op>)
    requires FreshNames(ops)
    ensures DistinctSegIds(Run(c, ops).segs) && IdsOf(Run(c, ops).segs) <= DrawnBy(ops)
  {
    if ops == [] {
    } else {
      var front, op := ops[..|ops| - 1], ops[|ops| - 1];
      SegmentIdsStayDistinct(c, front);
      LsmHistory.EveryRunIsTraced(c, front);
      StepRenames(c, Run(c, front), op);
      RenamedIds(Run(c, front).segs, Run(c, ops).segs, Drawn(op));
    }
  }
}
