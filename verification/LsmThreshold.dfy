// With a merge threshold of one, a merge brings deleted vectors back; with any
// other threshold, no run of inserts, deletes, flushes and merges can tell the
// engine from a plain map.
module LsmThreshold {
  import opened Wrappers
  import opened WalCodec
  import opened Dicts
  import opened Segments
  import opened MemTables
  import opened LsmModel
  import opened LsmInvariants
  import opened LsmRuns
  import opened LsmReplays

  function PutIt(c: Config): Op {
    DoInsert([THE_ID], OneBatch(c), "a", "b")
  }

  const FLUSH_IT := DoFlush("a", "b")

  const OTHER_ID: Id := 1

  function PutOther(c: Config): Op {
    DoInsert([OTHER_ID], OneBatch(c), "c", "d")
  }

  lemma OtherWritten(c: Config)
    ensures Written(Zip([OTHER_ID], OneBatch(c))) == map[OTHER_ID := OneBatch(c)[0]] && IdSet([OTHER_ID]) == {OTHER_ID}
  {
    assert Zip([OTHER_ID], OneBatch(c)) == [(OTHER_ID, OneBatch(c)[0])];
    assert Zip([OTHER_ID], OneBatch(c))[..0] == [];
  }

  // Nothing buffered, nothing deleted, and every segment holds THE_ID.
  ghost predicate AllHold(c: Config, st: Lsm, count: nat) {
    && Good(c, st) && st.mem == [] && st.tombs == {} && |st.segs| == count
    && forall i :: 0 <= i < count ==> THE_ID in ToMap(st.segs[i].rows)
  }

  lemma Inserted(c: Config, st: Lsm, count: nat)
    requires AllHold(c, st, count) && Packable(st.lastLsn + 1, 1)
    ensures var b := InsertRows(c, st, [THE_ID], OneBatch(c));
            && ToMap(b.mem) == map[THE_ID := Live(OneBatch(c)[0], st.lastLsn + 1)]
            && b.segs == st.segs && b.tombs == {} && b.lastLsn == st.lastLsn + 1
            && Good(c, b) && Flushable(b)
  {
    InsertedGood(c, st, [THE_ID], OneBatch(c));
    InsertedFields(c, st);
    InsertedFlushes(InsertRows(c, st, [THE_ID], OneBatch(c)), OneBatch(c)[0], st.lastLsn + 1);
  }

  lemma InsertedGood(c: Config, st: Lsm, ids: seq<Id>, vectors: seq<Vec>)
    requires Good(c, st) && ShapeOk(c.dim, ids, vectors)
    ensures Good(c, InsertRows(c, st, ids, vectors))
  {
    InsertRowsRefines(c, st, ids, vectors);
  }

  lemma InsertedFlushes(st: Lsm, v: Vec, lsn: nat)
    requires ToMap(st.mem) == map[THE_ID := Live(v, lsn)] && lsn > 0
    ensures Flushable(st)
  {
    OneRowFlushes(st, v, lsn);
  }

  lemma InsertedFields(c: Config, st: Lsm)
    requires st.mem == [] && st.tombs == {} && Packable(st.lastLsn + 1, 1)
    ensures var b := InsertRows(c, st, [THE_ID], OneBatch(c));
            && ToMap(b.mem) == map[THE_ID := Live(OneBatch(c)[0], st.lastLsn + 1)]
            && b.segs == st.segs && b.tombs == {} && b.lastLsn == st.lastLsn + 1
  {
    InsertRowsFields(c, st, [THE_ID], OneBatch(c));
    InsertedTombs(c, st, [THE_ID], OneBatch(c));
    InsertedMem(c, st.lastLsn + 1);
  }

  lemma InsertedMem(c: Config, lsn: nat)
    ensures ToMap(PutAll([], Zip([THE_ID], OneBatch(c)), lsn)) == map[THE_ID := Live(OneBatch(c)[0], lsn)]
  {
    var pairs := Zip([THE_ID], OneBatch(c));
    PutAllIs([], pairs, lsn);
    OneWritten(c);
    OneOnly(ToMap(PutAll([], pairs, lsn)), OneBatch(c)[0], lsn);
  }

  lemma OneOnly(m: map<Id, Entry>, v: Vec, lsn: nat)
    requires m == map[] + Lives(map[THE_ID := v], lsn)
    ensures m == map[THE_ID := Live(v, lsn)]
  {
  }

  lemma FlushedFieldsOf(c: Config, st: Lsm, v: Vec, lsn: nat)
    requires Layered(c, st) && Flushable(st) && ToMap(st.mem) == map[THE_ID := Live(v, lsn)] && lsn > 0
    ensures var b := FlushMem(c, st, "a");
            && b.mem == [] && b.tombs == st.tombs && b.lastLsn == st.lastLsn
            && |b.segs| == |st.segs| + 1 && b.segs[..|st.segs|] == st.segs && THE_ID in ToMap(b.segs[|st.segs|].rows)
  {
    Listed(c, st, "a");
    FlushedFields(c, st, "a");
    OneRowFlushes(st, v, lsn);
    assert THE_ID in LiveOf(ToMap(st.mem), None);
  }

  // The flush of that row adds a segment that holds THE_ID.
  lemma Flushed(c: Config, st: Lsm, count: nat)
    requires AllHold(c, st, count) && Packable(st.lastLsn + 1, 1)
    ensures var b := FlushMem(c, InsertRows(c, st, [THE_ID], OneBatch(c)), "a");
            AllHold(c, b, count + 1) && b.lastLsn == st.lastLsn + 1
  {
    var a := InsertRows(c, st, [THE_ID], OneBatch(c));
    Inserted(c, st, count);
    FlushMemRefines(c, a, "a");
    FlushedFieldsOf(c, a, OneBatch(c)[0], st.lastLsn + 1);
    OneMoreHolds(c, st, FlushMem(c, a, "a"), count);
  }

  lemma OneMoreHolds(c: Config, st: Lsm, b: Lsm, count: nat)
    requires AllHold(c, st, count) && Good(c, b) && b.mem == [] && b.tombs == {}
    requires |b.segs| == count + 1 && b.segs[..count] == st.segs && THE_ID in ToMap(b.segs[count].rows)
    ensures AllHold(c, b, count + 1)
  {
    forall i | 0 <= i < count ensures THE_ID in ToMap(b.segs[i].rows) {
      assert b.segs[i] == b.segs[..count][i];
    }
  }

  lemma OldestRows(c: Config, st: Lsm)
    requires c.mergeThreshold == 1 && |st.segs| > 0 && st.tombs == {} && THE_ID in ToMap(st.segs[0].rows)
    ensures var rows := MergedRows(st.segs[..1], {});
            DistinctKeys(rows) && THE_ID in ToMap(rows) && rows != [] && Cleaned(st.segs[..1], {}) == {}
  {
    RowsAndTombs(c, st);
    HeldIsStored(st.segs[..1], 0, THE_ID);
    assert THE_ID in ToMap(MergedRows(st.segs[..1], st.tombs));
  }

  lemma MergeFields(c: Config, st: Lsm, m: Segment)
    requires c.mergeThreshold == 1 && |st.segs| > 0 && st.tombs == {}
    requires var rows := MergedRows(st.segs[..1], {});
             DistinctKeys(rows) && rows != [] && m == Segment("b", c.shard, MaxSnap(st.segs[..1]), rows)
    requires Cleaned(st.segs[..1], {}) == {} && SortSegs([m] + st.segs[1..]) == [m] + st.segs[1..]
    ensures var b := LsmModel.Merge(c, st, "b");
            b.segs == [m] + st.segs[1..] && b.tombs == {} && b.mem == st.mem && b.lastLsn == st.lastLsn
  {
  }

  lemma NothingDeleted(c: Config, st: Lsm)
    requires Good(c, st) && st.tombs == {}
    ensures MergeGuard(c, st) && Good(c, LsmModel.Merge(c, st, "b"))
  {
    MergePreservesIff(c, st, "b");
  }

  // Merging one segment with nothing deleted rewrites it in place.
  lemma MergedAlone(c: Config, st: Lsm, count: nat)
    requires c.mergeThreshold == 1 && AllHold(c, st, count) && count > 0
    ensures MergeGuard(c, st)
    ensures AllHold(c, LsmModel.Merge(c, st, "b"), count) && LsmModel.Merge(c, st, "b").lastLsn == st.lastLsn
  {
    NothingDeleted(c, st);
    OldestRows(c, st);
    var m := Segment("b", c.shard, MaxSnap(st.segs[..1]), MergedRows(st.segs[..1], {}));
    MergedFirst(c.shard, st.segs, 1, m, st.meta);
    MergeFields(c, st, m);
    StillHold(c, st, LsmModel.Merge(c, st, "b"), m, count);
  }

  lemma StillHold(c: Config, st: Lsm, b: Lsm, m: Segment, count: nat)
    requires AllHold(c, st, count) && count > 0 && THE_ID in ToMap(m.rows)
    requires Good(c, b) && b.mem == [] && b.tombs == {} && b.segs == [m] + st.segs[1..]
    ensures AllHold(c, b, count)
  {
  }

  // What inserting THE_ID and flushing leaves, whether or not the insert flushed already.
  function WrittenOnce(c: Config, st: Lsm): Lsm {
    Flush(c, InsertRows(c, st, [THE_ID], OneBatch(c)), "a", "b")
  }

  lemma WrittenHolds(c: Config, st: Lsm, count: nat)
    requires c.mergeThreshold == 1 && AllHold(c, st, count) && Packable(st.lastLsn + 1, 1)
    ensures AllHold(c, WrittenOnce(c, st), count + 1) && WrittenOnce(c, st).lastLsn == st.lastLsn + 1
    ensures FlushGuard(c, InsertRows(c, st, [THE_ID], OneBatch(c)))
  {
    var a := InsertRows(c, st, [THE_ID], OneBatch(c));
    Inserted(c, st, count);
    Flushed(c, st, count);
    FlushedAlone(c, a, FlushMem(c, a, "a"), count + 1);
  }

  lemma FlushedAlone(c: Config, st: Lsm, b: Lsm, count: nat)
    requires c.mergeThreshold == 1 && Layered(c, st) && Flushable(st)
    requires b == FlushMem(c, st, "a") && AllHold(c, b, count) && count > 0
    ensures var d := Flush(c, st, "a", "b"); AllHold(c, d, count) && d.lastLsn == b.lastLsn
    ensures FlushGuard(c, st)
  {
    MergedAlone(c, b, count);
    FlushGuardIs(c, st, "a");
  }

  lemma PutAndFlush(c: Config, st: Lsm, count: nat)
    requires c.mergeThreshold == 1 && AllHold(c, st, count) && Packable(st.lastLsn + 1, 1)
    ensures Step(c, Step(c, st, PutIt(c)), FLUSH_IT) == WrittenOnce(c, st)
    ensures Guard(c, st, PutIt(c)) && Guard(c, Step(c, st, PutIt(c)), FLUSH_IT)
  {
    WrittenHolds(c, st, count);
    FlushOfNothing(c, WrittenOnce(c, st), "a", "b");
    PutThenFlush(c, st, InsertRows(c, st, [THE_ID], OneBatch(c)));
  }

  // Whether or not the insert flushed already.
  lemma PutThenFlush(c: Config, st: Lsm, a: Lsm)
    requires a == InsertRows(c, st, [THE_ID], OneBatch(c)) && Packable(st.lastLsn + 1, 1)
    requires FlushGuard(c, a)
    requires var b := Flush(c, a, "a", "b"); Flush(c, b, "a", "b") == b && !Flushable(b)
    ensures Step(c, Step(c, st, PutIt(c)), FLUSH_IT) == Flush(c, a, "a", "b")
    ensures Guard(c, st, PutIt(c)) && Guard(c, Step(c, st, PutIt(c)), FLUSH_IT)
  {
  }

  lemma AfterDelete(c: Config, st: Lsm)
    requires st.mem == [] && st.tombs == {} && Packable(st.lastLsn + 1, 1)
    ensures var a := Delete(c, st, [THE_ID]);
            a.mem == [(THE_ID, Deleted(st.lastLsn + 1))] && a.tombs == {THE_ID} && a.segs == st.segs
            && a.lastLsn == st.lastLsn + 1
  {
    assert [THE_ID][..0] == [];
    assert PutEach([], [], Deleted(st.lastLsn + 1)) == [];
    assert IdSet([THE_ID]) == {THE_ID};
  }

  lemma OneDeleted(x: Id, lsn: nat)
    ensures LiveRows([(x, Deleted(lsn))], None) == [] && DeletedIds([(x, Deleted(lsn))], None) == {x}
  {
    assert [(x, Deleted(lsn))][1..] == [];
  }

  lemma FlushOfMarker(c: Config, st: Lsm, lsn: nat)
    requires st.mem == [(THE_ID, Deleted(lsn))] && st.tombs == {THE_ID}
    ensures !Flushable(st)
    ensures var b := Flush(c, st, "a", "b");
            b.mem == [] && b.tombs == {THE_ID} && b.segs == st.segs && b.lastLsn == st.lastLsn
  {
    OneDeleted(THE_ID, lsn);
  }

  // A tombstone over rows of both the oldest segment and a newer one.
  ghost predicate Buried(c: Config, st: Lsm, x: Id) {
    |st.segs| >= c.mergeThreshold && x !in ToMap(st.mem) && x in st.tombs && x in Oldest(c, st) && x in Rest(c, st)
  }

  lemma UnsafeMerge(c: Config, st: Lsm)
    requires c.mergeThreshold == 1 && |st.segs| >= 2 && st.mem == [] && THE_ID in st.tombs
    requires forall i :: 0 <= i < |st.segs| ==> THE_ID in ToMap(st.segs[i].rows)
    ensures Buried(c, st, THE_ID)
  {
    HeldIsStored(st.segs[..1], 0, THE_ID);
    HeldIsStored(st.segs[1..], 0, THE_ID);
  }

  // The merge drops the tombstone with the older row, and the newer row shows again.
  lemma MergeUnburies(c: Config, st: Lsm, x: Id, mergedId: string)
    requires Layered(c, st) && Buried(c, st, x)
    ensures x !in View(st) && x in View(LsmModel.Merge(c, st, mergedId))
  {
    MergeMaps(c, st, mergedId);
    ViewIsVisible(st);
    ViewIsVisible(MergeOldest(c, st, mergedId));
  }

  lemma DeletedThenCleared(c: Config, st: Lsm, count: nat)
    requires c.mergeThreshold == 1 && AllHold(c, st, count) && count >= 2 && Packable(st.lastLsn + 1, 1)
    ensures Guard(c, Step(c, st, DoDelete([THE_ID])), FLUSH_IT)
    ensures var b := Step(c, Step(c, st, DoDelete([THE_ID])), FLUSH_IT);
            Buried(c, b, THE_ID) && b.mem == [] && b.lastLsn == st.lastLsn + 1
  {
    AfterDelete(c, st);
    FlushOfMarker(c, Delete(c, st, [THE_ID]), st.lastLsn + 1);
    UnsafeMerge(c, Flush(c, Delete(c, st, [THE_ID]), "a", "b"));
  }

  // So does any flush with a row to write.
  lemma FlushUnburies(c: Config, st: Lsm, x: Id, segId: string, mergedId: string)
    requires Layered(c, st) && Flushable(st) && Buried(c, st, x)
    ensures var b := Flush(c, st, segId, mergedId); x in View(b) && b.mem == []
  {
    FlushedSegs(c, st, segId);
    FlushMemLayered(c, st, segId);
    StillBuried(c, st, FlushMem(c, st, segId), FlushedSegment(c, st, segId), x);
    MergeUnburies(c, FlushMem(c, st, segId), x, mergedId);
  }

  lemma StillBuried(c: Config, st: Lsm, b: Lsm, g: Segment, x: Id)
    requires Buried(c, st, x) && b.segs == st.segs + [g] && b.mem == [] && x in b.tombs
    ensures Buried(c, b, x)
  {
    var t := c.mergeThreshold;
    assert b.segs[..t] == st.segs[..t] && b.segs[t..] == st.segs[t..] + [g];
    StoredConcat(st.segs[t..], [g]);
  }

  // Inserting another id leaves a row to flush and the tombstone where it was.
  lemma OtherBuries(c: Config, st: Lsm)
    requires Layered(c, st) && Buried(c, st, THE_ID) && st.mem == [] && Packable(st.lastLsn + 1, 1)
    ensures var a := InsertRows(c, st, [OTHER_ID], OneBatch(c));
            Layered(c, a) && Flushable(a) && Buried(c, a, THE_ID)
  {
    var lsn, v := st.lastLsn + 1, OneBatch(c)[0];
    OtherWritten(c);
    InsertRowsLayered(c, st, [OTHER_ID], OneBatch(c));
    InsertRowsFields(c, st, [OTHER_ID], OneBatch(c));
    InsertedEntries(st, [OTHER_ID], OneBatch(c));
    InsertedTombs(c, st, [OTHER_ID], OneBatch(c));
    OtherFlushes(InsertRows(c, st, [OTHER_ID], OneBatch(c)), v, lsn);
  }

  lemma OtherFlushes(st: Lsm, v: Vec, lsn: nat)
    requires ToMap(st.mem) == map[] + Lives(map[OTHER_ID := v], lsn) && lsn > 0
    ensures Flushable(st) && THE_ID !in ToMap(st.mem)
  {
    LiveRowsAre(st.mem, None);
    MaxLsnIs(st.mem);
    assert ToMap(st.mem)[OTHER_ID] == Live(v, lsn);
    assert OTHER_ID in LiveOf(ToMap(st.mem), None);
  }

  // Whether or not the insert flushes already, the flush after it finds the id unburied.
  lemma OtherUnburies(c: Config, st: Lsm)
    requires Layered(c, st) && Buried(c, st, THE_ID) && st.mem == [] && Packable(st.lastLsn + 1, 1)
    ensures THE_ID in View(Step(c, Step(c, st, PutOther(c)), FLUSH_IT))
  {
    var a := InsertRows(c, st, [OTHER_ID], OneBatch(c));
    OtherBuries(c, st);
    FlushUnburies(c, a, THE_ID, "a", "b");
    FlushUnburies(c, a, THE_ID, "c", "d");
    FlushOfNothing(c, Flush(c, a, "c", "d"), "a", "b");
    InsertStepIs(c, st, [OTHER_ID], OneBatch(c), "c", "d", a);
    FlushStepIs(c, Step(c, st, PutOther(c)));
  }

  lemma InsertStepIs(c: Config, st: Lsm, ids: seq<Id>, vectors: seq<Vec>, segId: string, mergedId: string, a: Lsm)
    requires ShapeOk(c.dim, ids, vectors) && Packable(st.lastLsn + 1, |ids|) && a == InsertRows(c, st, ids, vectors)
    ensures Step(c, st, DoInsert(ids, vectors, segId, mergedId)) ==
            if ShouldFlush(c, a) then Flush(c, a, segId, mergedId) else a
  {
  }

  lemma FlushStepIs(c: Config, st: Lsm)
    ensures Step(c, st, FLUSH_IT) == Flush(c, st, "a", "b")
  {
  }

  // ---- the run ------------------------------------------------------------------------------

  function PutOnce(c: Config): seq<Op> {
    [] + [PutIt(c)] + [FLUSH_IT]
  }

  function PutTwice(c: Config): seq<Op> {
    PutOnce(c) + [PutIt(c)] + [FLUSH_IT]
  }

  function BeforeMerge(c: Config): seq<Op> {
    PutTwice(c) + [DoDelete([THE_ID])] + [FLUSH_IT]
  }

  // Write THE_ID twice, into two segments, delete it, flush; then write another id and
  // flush, which merges.
  function Resurrecting(c: Config): seq<Op> {
    BeforeMerge(c) + [PutOther(c)] + [FLUSH_IT]
  }

  lemma TwoPuts(c: Config, ops: seq<Op>, count: nat)
    requires c.mergeThreshold == 1 && Guarded(c, ops) && AllHold(c, Run(c, ops), count)
    requires Packable(Run(c, ops).lastLsn + 1, 1)
    ensures var more := ops + [PutIt(c)] + [FLUSH_IT];
            Guarded(c, more) && AllHold(c, Run(c, more), count + 1) && Run(c, more).lastLsn == Run(c, ops).lastLsn + 1
  {
    RunSnoc(c, ops, PutIt(c));
    RunSnoc(c, ops + [PutIt(c)], FLUSH_IT);
    PutAndFlush(c, Run(c, ops), count);
    WrittenHolds(c, Run(c, ops), count);
  }

  lemma PutOnceHolds(c: Config)
    requires c.mergeThreshold == 1
    ensures Guarded(c, PutOnce(c)) && AllHold(c, Run(c, PutOnce(c)), 1) && Run(c, PutOnce(c)).lastLsn == 1
  {
    EmptyIsGood(c);
    TwoPuts(c, [], 0);
  }

  lemma PutTwiceHolds(c: Config)
    requires c.mergeThreshold == 1
    ensures Guarded(c, PutTwice(c)) && AllHold(c, Run(c, PutTwice(c)), 2) && Run(c, PutTwice(c)).lastLsn == 2
  {
    PutOnceHolds(c);
    TwoPuts(c, PutOnce(c), 1);
  }

  lemma BeforeMergeUnsafe(c: Config)
    requires c.mergeThreshold == 1
    ensures Guarded(c, BeforeMerge(c)) && Buried(c, Run(c, BeforeMerge(c)), THE_ID)
    ensures Run(c, BeforeMerge(c)).mem == [] && Run(c, BeforeMerge(c)).lastLsn == 3
  {
    PutTwiceHolds(c);
    DeletedThenCleared(c, Run(c, PutTwice(c)), 2);
    RunSnoc(c, PutTwice(c), DoDelete([THE_ID]));
    RunSnoc(c, PutTwice(c) + [DoDelete([THE_ID])], FLUSH_IT);
  }

  // The deleted id is visible again.
  lemma MergeResurrects(c: Config)
    requires c.mergeThreshold == 1
    ensures THE_ID in View(Run(c, Resurrecting(c))) && THE_ID !in Model(c, Resurrecting(c))
  {
    var ops, st := BeforeMerge(c), Run(c, BeforeMerge(c));
    BeforeMergeUnsafe(c);
    GuardedRunsRefine(c, ops);
    OtherUnburies(c, st);
    RunSnoc(c, ops, PutOther(c));
    RunSnoc(c, ops + [PutOther(c)], FLUSH_IT);
    OtherIsModelled(c, ops);
  }

  lemma OtherIsModelled(c: Config, ops: seq<Op>)
    requires THE_ID !in Model(c, ops)
    ensures THE_ID !in Model(c, ops + [PutOther(c)] + [FLUSH_IT])
  {
    RunSnoc(c, ops, PutOther(c));
    RunSnoc(c, ops + [PutOther(c)], FLUSH_IT);
    OtherWritten(c);
  }

  ghost predicate Refines(c: Config, ops: seq<Op>) {
    View(Run(c, ops)) == Model(c, ops)
  }

  ghost predicate AllCrashFree(ops: seq<Op>) {
    forall i :: 0 <= i < |ops| ==> CrashFree(ops[i])
  }

  lemma ResurrectingIsCrashFree(c: Config)
    ensures AllCrashFree(Resurrecting(c))
  {
  }

  // The engine refines the plain map over all crash-free runs exactly when the
  // merge threshold is not one.
  lemma RefinesIffThreshold(c: Config)
    ensures (forall ops :: AllCrashFree(ops) ==> Refines(c, ops)) <==> c.mergeThreshold != 1
  {
    if c.mergeThreshold == 1 {
      MergeResurrects(c);
      ResurrectingIsCrashFree(c);
      assert !Refines(c, Resurrecting(c));
    } else {
      forall ops | AllCrashFree(ops) ensures Refines(c, ops) {
        CrashFreeRunsRefine(c, ops);
      }
    }
  }
}
