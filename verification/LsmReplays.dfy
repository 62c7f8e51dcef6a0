// Where recovery fails: replay does not clear the tombstone of an id that was
// deleted and inserted again, and such a tombstone lives in memory only.
module LsmReplays {
  import opened Wrappers
  import opened WalCodec
  import opened WalRecovery
  import opened Dicts
  import MergeResults
  import opened Segments
  import opened MemTables
  import opened LsmModel
  import opened LsmMaps
  import opened LsmInvariants
  import opened LsmRuns

  // ---- the insert that a crash hides --------------------------------------------------

  lemma DeleteIsReplayed(log: seq<Record>, d: Record, i: Record, lsn: nat, x: Id)
    requires d.op == OP_DELETE && x in d.ids && lsn <= d.lsn && lsn <= i.lsn
    ensures x in DeletedBy(From(log + [d] + [i], lsn))
  {
    assert (log + [d] + [i])[..|log| + 1] == log + [d] && (log + [d])[..|log|] == log;
    var f := From(log, lsn);
    assert From(log + [d] + [i], lsn) == f + [d] + [i];
    assert (f + [d] + [i])[..|f| + 1] == f + [d] && (f + [d])[..|f|] == f;
  }

  lemma DeletedLog(c: Config, st: Lsm, ids: seq<Id>, d: Record)
    requires Packable(st.lastLsn + 1, |ids|) && d == Record(st.lastLsn + 1, OP_DELETE, ids, Zeros(c.dim, |ids|))
    ensures var a := Delete(c, st, ids);
            a.log == st.log + [d] && a.segs == st.segs && a.lastLsn == st.lastLsn + 1
  {
    DeleteFields(c, st, ids);
  }

  lemma InsertedLog(c: Config, st: Lsm, ids: seq<Id>, vectors: seq<Vec>, i: Record)
    requires Packable(st.lastLsn + 1, |ids|) && i == Record(st.lastLsn + 1, OP_INSERT, ids, vectors)
    ensures var b := InsertRows(c, st, ids, vectors);
            b.log == st.log + [i] && b.segs == st.segs
  {
    InsertRowsFields(c, st, ids, vectors);
  }

  lemma ReinsertLog(st: Lsm, b: Lsm, d: Record, i: Record, x: Id)
    requires MaxSnap(st.segs) < d.lsn <= i.lsn && d.op == OP_DELETE && x in d.ids
    requires b.log == st.log + [d] + [i] && b.segs == st.segs
    ensures x in DeletedBy(Replayed(b.segs, b.log))
  {
    DeleteIsReplayed(st.log, d, i, MaxSnap(st.segs) + 1, x);
  }

  lemma ReinsertedLog(c: Config, st: Lsm, dels: seq<Id>, ids: seq<Id>, vectors: seq<Vec>) returns (d: Record, i: Record)
    requires Packable(st.lastLsn + 1, |dels|) && Packable(st.lastLsn + 2, |ids|)
    ensures d.lsn == st.lastLsn + 1 && i.lsn == st.lastLsn + 2 && d.op == OP_DELETE && d.ids == dels
    ensures var b := InsertRows(c, Delete(c, st, dels), ids, vectors);
            b.log == st.log + [d] + [i] && b.segs == st.segs
  {
    d := Record(st.lastLsn + 1, OP_DELETE, dels, Zeros(c.dim, |dels|));
    i := Record(st.lastLsn + 2, OP_INSERT, ids, vectors);
    DeletedLog(c, st, dels, d);
    InsertedLog(c, Delete(c, st, dels), ids, vectors, i);
  }

  // Where recovery fails: from every state, a delete of x, then an insert of x that
  // triggers no flush, then a crash. The insert was acknowledged and is visible
  // before the crash; after it, the replayed delete hides it.
  lemma ReinsertIsLost(c: Config, st: Lsm, x: Id, ids: seq<Id>, vectors: seq<Vec>)
    requires Good(c, st) && ShapeOk(c.dim, ids, vectors) && x in ids
    requires Packable(st.lastLsn + 2, |ids|)
    ensures var b := InsertRows(c, Delete(c, st, [x]), ids, vectors);
            Good(c, b) && x in View(b) && x !in View(Restart(c, b)) && !RestartGuard(b)
  {
    var a, b := Delete(c, st, [x]), InsertRows(c, Delete(c, st, [x]), ids, vectors);
    DeleteRefines(c, st, [x]);
    InsertRowsRefines(c, a, ids, vectors);
    WrittenKeys(ids, vectors);
    MaxSnapAtMost(st.segs, st.meta);
    var d, i := ReinsertedLog(c, st, [x], ids, vectors);
    ReinsertLog(st, b, d, i, x);
    ReplayedDeleteHides(c, b, x);
    RestartKeepsIff(c, b);
  }

  lemma ReplayedDeleteHides(c: Config, st: Lsm, x: Id)
    requires Layered(c, st) && x in DeletedBy(Replayed(st.segs, st.log))
    ensures x !in View(Restart(c, st))
  {
    RestartFields(c, st);
    TombstoneHides(Restart(c, st), x);
  }

  lemma TombstoneHides(st: Lsm, x: Id)
    requires x in st.tombs
    ensures x !in View(st)
  {
  }

  // ---- and the next restart that shows it again --------------------------------------------

  // A tombstone that came from replay hides a live entry. A flush does not persist it
  // and cuts the log, so the next restart finds the row and no tombstone.
  lemma HiddenUntilRestart(c: Config, st: Lsm, segId: string, x: Id)
    requires Good(c, st) && Flushable(st) && DeletedIds(st.mem, None) == {}
    requires x in ToMap(st.mem) && ToMap(st.mem)[x].Live? && x in st.tombs && x !in st.diskTombs
    ensures var b := FlushMem(c, st, segId);
            x !in View(b) && x in View(Restart(c, b)) && !RestartGuard(b)
  {
    var a, b := MapsOf(st), FlushMem(c, st, segId);
    DeletedIdsAre(st.mem, None);
    FlushMemRefines(c, st, segId);
    FlushMemMaps(c, st, segId);
    assert Deletions(a.entries) == {};
    RestartMaps(c, b);
    ShownAfterStart(MapsOf(b), DeletedBy(Replayed(b.segs, b.log)), x);
    ViewIsVisible(b);
    ViewIsVisible(Restart(c, b));
    RestartKeepsIff(c, b);
  }

  lemma ShownAfterStart(a: Maps, deleted: set<Id>, x: Id)
    requires Replayable(a, deleted) && a.last == map[] && x in a.rows && x in a.tombs && x !in a.diskTombs
    ensures x !in Visible(a) && x in Visible(StartStep(a, deleted))
  {
  }

  const THE_ID: Id := 0

  function OneBatch(c: Config): seq<Vec> {
    Zeros(c.dim, 1)
  }

  // Delete an id, insert it, crash.
  function Reinsert(c: Config): seq<Op> {
    DeleteThenInsert(c) + [DoCrash]
  }

  function DeleteThenInsert(c: Config): seq<Op> {
    [] + [DoDelete([THE_ID])] + [DoInsert([THE_ID], OneBatch(c), "a", "b")]
  }

  lemma OneWritten(c: Config)
    ensures Written(Zip([THE_ID], OneBatch(c))) == map[THE_ID := OneBatch(c)[0]] && IdSet([THE_ID]) == {THE_ID}
  {
    assert Zip([THE_ID], OneBatch(c)) == [(THE_ID, OneBatch(c)[0])];
    assert Zip([THE_ID], OneBatch(c))[..0] == [];
  }

  lemma StartedEmpty()
    ensures MapsOf(EMPTY) == Maps(map[], map[], {}, {}, map[], 0, {})
  {
  }

  lemma DeletedMaps(c: Config, st: Lsm)
    requires st.lastLsn == 0
    ensures var a := Delete(c, st, [THE_ID]);
            MapsOf(a) == DeleteStep(MapsOf(st), {THE_ID}, 1) && a.lastLsn == 1 && a.segs == st.segs
  {
    OneWritten(c);
    DeleteMaps(c, st, [THE_ID]);
    DeleteFields(c, st, [THE_ID]);
  }

  lemma InsertedMaps(c: Config, st: Lsm)
    requires st.lastLsn == 1 && st.segs == []
    ensures var b := InsertRows(c, st, [THE_ID], OneBatch(c));
            MapsOf(b) == InsertStep(MapsOf(st), map[THE_ID := OneBatch(c)[0]], 2) && b.segs == []
  {
    OneWritten(c);
    InsertRowsMaps(c, st, [THE_ID], OneBatch(c));
    InsertRowsFields(c, st, [THE_ID], OneBatch(c));
  }

  lemma OneRowWaits(c: Config, st: Lsm, e: Entry)
    requires ToMap(st.mem) == map[THE_ID := e] && c.flushThreshold > 1
    ensures !ShouldFlush(c, st)
  {
    LiveRowsAre(st.mem, None);
    SizeIsLength(LiveRows(st.mem, None));
    var live := LiveOf(ToMap(st.mem), None);
    assert live.Keys <= {THE_ID};
    MergeResults.SubsetSize(live.Keys, {THE_ID});
    assert |live| == |live.Keys|;
  }

  // Both records are in the log, the row in the memtable, no tombstone anywhere.
  lemma DeleteThenInsertMaps(c: Config)
    requires c.flushThreshold > 1
    ensures var st, v := Run(c, DeleteThenInsert(c)), OneBatch(c)[0];
            && MapsOf(st) == Maps(map[THE_ID := Live(v, 2)], map[], {}, {}, map[THE_ID := Live(v, 2)], 0, {THE_ID})
            && st.segs == []
  {
    var one := [] + [DoDelete([THE_ID])];
    RunSnoc(c, [], DoDelete([THE_ID]));
    RunSnoc(c, one, DoInsert([THE_ID], OneBatch(c), "a", "b"));
    StartedEmpty();
    DeletedMaps(c, EMPTY);
    InsertedMaps(c, Run(c, one));
    ReinsertedMaps(OneBatch(c)[0]);
    OneRowWaits(c, InsertRows(c, Run(c, one), [THE_ID], OneBatch(c)), Live(OneBatch(c)[0], 2));
  }

  lemma ReinsertedMaps(v: Vec)
    ensures var none := Maps(map[], map[], {}, {}, map[], 0, {});
            InsertStep(DeleteStep(none, {THE_ID}, 1), map[THE_ID := v], 2) ==
            Maps(map[THE_ID := Live(v, 2)], map[], {}, {}, map[THE_ID := Live(v, 2)], 0, {THE_ID})
  {
    var none := Maps(map[], map[], {}, {}, map[], 0, {});
    var a := DeleteStep(none, {THE_ID}, 1);
    assert a.entries == map[THE_ID := Deleted(1)] && a.tombs == {THE_ID} && a.dels == {THE_ID};
    assert a.tombs * {THE_ID} == {THE_ID};
    assert Lives(map[THE_ID := v], 2) == map[THE_ID := Live(v, 2)];
    assert (map[THE_ID := v]).Keys == {THE_ID};
    assert {THE_ID} - {THE_ID} == {};
  }

  // The new process has the row in its memtable under a tombstone that is not on disk.
  lemma CrashHides(c: Config, st: Lsm, v: Vec)
    requires Layered(c, st) && st.segs == []
    requires MapsOf(st) == Maps(map[THE_ID := Live(v, 2)], map[], {}, {}, map[THE_ID := Live(v, 2)], 0, {THE_ID})
    ensures Hides(Restart(c, st), v)
  {
    var b, last := MapsOf(Restart(c, st)), map[THE_ID := Live(v, 2)];
    RestartFields(c, st);
    RestartMaps(c, st);
    AllAfterZero(last);
    assert b.entries == last && b.tombs == {} + {THE_ID};
  }

  lemma CrashAfterRun(c: Config, ops: seq<Op>, v: Vec)
    requires MapsOf(Run(c, ops)) ==
             Maps(map[THE_ID := Live(v, 2)], map[], {}, {}, map[THE_ID := Live(v, 2)], 0, {THE_ID})
    requires Run(c, ops).segs == []
    ensures Hides(Run(c, ops + [DoCrash]), v)
  {
    EveryRunIsGood(c, ops);
    RunSnoc(c, ops, DoCrash);
    CrashHides(c, Run(c, ops), v);
  }

  ghost predicate Hides(st: Lsm, v: Vec) {
    ToMap(st.mem) == map[THE_ID := Live(v, 2)] && st.tombs == {THE_ID} && st.diskTombs == {} && st.segs == []
  }

  lemma ReinsertHides(c: Config)
    requires c.flushThreshold > 1
    ensures Hides(Run(c, Reinsert(c)), OneBatch(c)[0])
  {
    DeleteThenInsertMaps(c);
    CrashAfterRun(c, DeleteThenInsert(c), OneBatch(c)[0]);
  }

  lemma AllAfterZero(m: map<Id, Entry>)
    requires forall x :: x in m ==> m[x].lsn > 0
    ensures After(m, 0) == m
  {
  }

  lemma OneRowFlushes(st: Lsm, v: Vec, lsn: nat)
    requires ToMap(st.mem) == map[THE_ID := Live(v, lsn)] && lsn > 0
    ensures Flushable(st) && DeletedIds(st.mem, None) == {}
  {
    LiveRowsAre(st.mem, None);
    MaxLsnIs(st.mem);
    DeletedIdsAre(st.mem, None);
    assert THE_ID in LiveOf(ToMap(st.mem), None);
    assert ToMap(st.mem)[THE_ID].lsn == lsn;
  }

  // Delete, insert, crash, flush: the acknowledged insert was hidden by the crash and
  // shows again after the next restart, graceful or not.
  lemma HiddenInsertReturns(c: Config)
    requires c.flushThreshold > 1 && c.mergeThreshold >= 2
    ensures var st := Run(c, Reinsert(c) + [DoFlush("c", "d")]);
            && THE_ID !in View(st) && !RestartGuard(st) && THE_ID in View(Restart(c, st))
            && forall segId, mergedId :: THE_ID in View(Restart(c, Flush(c, st, segId, mergedId)))
  {
    var st := Run(c, Reinsert(c));
    RunSnoc(c, Reinsert(c), DoFlush("c", "d"));
    ReinsertHides(c);
    EveryRunIsGood(c, Reinsert(c));
    HiddenByFlush(c, st, OneBatch(c)[0]);
    var b := Flush(c, st, "c", "d");
    forall segId, mergedId ensures Flush(c, b, segId, mergedId) == b {
      FlushOfNothing(c, b, segId, mergedId);
    }
  }

  // What a graceful stop does when nothing is buffered.
  lemma FlushOfNothing(c: Config, st: Lsm, segId: string, mergedId: string)
    requires st.mem == []
    ensures Flush(c, st, segId, mergedId) == st && !Flushable(st)
  {
  }

  lemma HiddenByFlush(c: Config, st: Lsm, v: Vec)
    requires Good(c, st) && Hides(st, v) && c.mergeThreshold >= 2
    ensures var b := Flush(c, st, "c", "d");
            THE_ID !in View(b) && THE_ID in View(Restart(c, b)) && !RestartGuard(b) && b.mem == []
  {
    OneRowFlushes(st, v, 2);
    HiddenUntilRestart(c, st, "c", THE_ID);
    FlushMemCount(c, st, "c");
  }

  lemma RunSnoc(c: Config, ops: seq<Op>, op: Op)
    ensures Run(c, ops + [op]) == Step(c, Run(c, ops), op)
    ensures Guarded(c, ops + [op]) <==> Guarded(c, ops) && Guard(c, Run(c, ops), op)
    ensures Model(c, ops + [op]) == Expected(c, Run(c, ops), Model(c, ops), op)
  {
    assert (ops + [op])[..|ops|] == ops;
  }
}
