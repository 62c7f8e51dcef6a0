// Four short runs after which a snapshot no longer shows an id it showed when it was
// taken: a delete, a second insert, a flush and a merge.
module LostSnapshots {
  import opened Wrappers
  import opened WalCodec
  import opened Dicts
  import MergeResults
  import opened Segments
  import opened MemTables
  import opened LsmModel
  import opened LsmInvariants
  import opened LsmRuns
  import opened LsmReplays
  import opened LsmSnapshots
  import opened LsmThreshold

  function OnePut(c: Config): seq<Op> {
    [] + [PutIt(c)]
  }

  function TwoPut(c: Config): seq<Op> {
    OnePut(c) + [PutOther(c)]
  }

  // Room in the memtable for both rows.
  ghost predicate Roomy(c: Config) {
    c.flushThreshold > 2 && c.mergeThreshold >= 2
  }

  // ---- one row buffered -----------------------------------------------------------------

  ghost predicate Buffers(st: Lsm, m: map<Id, Entry>, lsn: nat) {
    ToMap(st.mem) == m && st.tombs == {} && st.lastLsn == lsn
  }

  function One(c: Config): map<Id, Entry> {
    map[THE_ID := Live(OneBatch(c)[0], 1)]
  }

  function Two(c: Config): map<Id, Entry> {
    map[THE_ID := Live(OneBatch(c)[0], 1), OTHER_ID := Live(OneBatch(c)[0], 2)]
  }

  lemma OnePutBuffers(c: Config)
    requires Roomy(c)
    ensures var st := Run(c, OnePut(c)); Buffers(st, One(c), 1) && st.segs == []
  {
    var none := OnePutIs(c);
    InsertedFields(c, none);
  }

  lemma OtherAdded(c: Config, st: Lsm, m: map<Id, Entry>, lsn: nat)
    requires Buffers(st, m, lsn) && Packable(lsn + 1, 1)
    ensures var b := InsertRows(c, st, [OTHER_ID], OneBatch(c));
            Buffers(b, m[OTHER_ID := Live(OneBatch(c)[0], lsn + 1)], lsn + 1) && b.segs == st.segs
  {
    OtherWritten(c);
    InsertRowsFields(c, st, [OTHER_ID], OneBatch(c));
    InsertedEntries(st, [OTHER_ID], OneBatch(c));
    InsertedTombs(c, st, [OTHER_ID], OneBatch(c));
    assert m + Lives(map[OTHER_ID := OneBatch(c)[0]], lsn + 1) == m[OTHER_ID := Live(OneBatch(c)[0], lsn + 1)];
  }

  lemma FewRowsWait(c: Config, st: Lsm)
    requires c.flushThreshold > 2 && ToMap(st.mem).Keys <= {THE_ID, OTHER_ID}
    ensures !ShouldFlush(c, st)
  {
    LiveRowsAre(st.mem, None);
    SizeIsLength(LiveRows(st.mem, None));
    var live := LiveOf(ToMap(st.mem), None);
    assert live.Keys <= {THE_ID, OTHER_ID};
    MergeResults.SubsetSize(live.Keys, {THE_ID, OTHER_ID});
    assert |live| == |live.Keys|;
  }

  lemma TwoPutBuffers(c: Config)
    requires Roomy(c)
    ensures var st := Run(c, TwoPut(c)); Buffers(st, Two(c), 2) && st.segs == []
  {
    OnePutBuffers(c);
    RunSnoc(c, OnePut(c), PutOther(c));
    OtherAdded(c, Run(c, OnePut(c)), One(c), 1);
    assert One(c)[OTHER_ID := Live(OneBatch(c)[0], 2)] == Two(c);
    FewRowsWait(c, InsertRows(c, Run(c, OnePut(c)), [OTHER_ID], OneBatch(c)));
  }

  // A live row buffered by the time of the snapshot is shown.
  lemma BufferedIsShown(st: Lsm, x: Id, s: nat)
    requires x in ToMap(st.mem) && ToMap(st.mem)[x].Live? && ToMap(st.mem)[x].lsn <= s && x !in st.tombs
    ensures x in ViewAt(st, s)
  {
    ViewAtIs(st, s);
  }

  // A row neither buffered by then nor stored by then is not.
  lemma AbsentIsNotShown(st: Lsm, x: Id, s: nat)
    requires x in ToMap(st.mem) ==> ToMap(st.mem)[x].lsn > s
    requires x !in StoredAt(st, s)
    ensures x !in ViewAt(st, s)
  {
    ViewAtIs(st, s);
  }

  // ---- the four runs ---------------------------------------------------------------------

  // A delete hides the id from the snapshot taken before it.
  lemma DeleteTakesFromSnapshot(c: Config)
    requires Roomy(c)
    ensures var st := Run(c, OnePut(c));
            && THE_ID in ViewAt(st, st.lastLsn)
            && THE_ID !in ViewAt(Run(c, OnePut(c) + [DoDelete([THE_ID])]), st.lastLsn)
  {
    var st := Run(c, OnePut(c));
    OnePutBuffers(c);
    BufferedIsShown(st, THE_ID, 1);
    RunSnoc(c, OnePut(c), DoDelete([THE_ID]));
    DeleteAt(c, st, [THE_ID], 1);
    OneWritten(c);
  }

  // Inserting the id again replaces the only version the snapshot could show.
  lemma InsertTakesFromSnapshot(c: Config)
    requires Roomy(c)
    ensures var st := Run(c, OnePut(c));
            && THE_ID in ViewAt(st, st.lastLsn)
            && THE_ID !in ViewAt(Run(c, OnePut(c) + [PutIt(c)]), st.lastLsn)
  {
    var st := Run(c, OnePut(c));
    var b := InsertRows(c, st, [THE_ID], OneBatch(c));
    OnePutBuffers(c);
    BufferedIsShown(st, THE_ID, 1);
    RunSnoc(c, OnePut(c), PutIt(c));
    OneWritten(c);
    InsertRowsFields(c, st, [THE_ID], OneBatch(c));
    InsertedEntries(st, [THE_ID], OneBatch(c));
    FewRowsWait(c, b);
    AbsentIsNotShown(b, THE_ID, 1);
  }

  // A flush stamps a row with the newest LSN of its segment.
  lemma FlushTakesFromSnapshot(c: Config)
    requires Roomy(c)
    ensures var s := Run(c, OnePut(c)).lastLsn;
            && THE_ID in ViewAt(Run(c, TwoPut(c)), s)
            && THE_ID !in ViewAt(Run(c, TwoPut(c) + [FLUSH_IT]), s)
  {
    var st := Run(c, TwoPut(c));
    OnePutBuffers(c);
    TwoPutBuffers(c);
    BufferedIsShown(st, THE_ID, 1);
    RunSnoc(c, TwoPut(c), FLUSH_IT);
    EveryRunIsGood(c, TwoPut(c));
    TwoFlush(c, st);
    FlushMemLoses(c, st);
    FlushMemCount(c, st, "a");
    FlushIsFlushMem(c, st);
  }

  lemma FlushMemLoses(c: Config, st: Lsm)
    requires Layered(c, st) && Flushable(st) && MaxLsn(st.mem) > 1 && st.segs == []
    ensures THE_ID !in ViewAt(FlushMem(c, st, "a"), 1)
  {
    FlushedOutOfSight(c, st, "a", 1);
    FlushMemCount(c, st, "a");
    AbsentIsNotShown(FlushMem(c, st, "a"), THE_ID, 1);
  }

  lemma FlushIsFlushMem(c: Config, st: Lsm)
    requires |FlushMem(c, st, "a").segs| < c.mergeThreshold
    ensures Flush(c, st, "a", "b") == FlushMem(c, st, "a")
  {
  }

  // The newer of two buffered rows gives the segment its snapshot.
  lemma TwoFlush(c: Config, st: Lsm)
    requires OTHER_ID in ToMap(st.mem) && ToMap(st.mem)[OTHER_ID].Live? && ToMap(st.mem)[OTHER_ID].lsn == 2
    ensures Flushable(st) && MaxLsn(st.mem) > 1
  {
    LiveRowsAre(st.mem, None);
    MaxLsnIs(st.mem);
    assert OTHER_ID in LiveOf(ToMap(st.mem), None);
  }

  // One row flushed, the other buffered.
  function FlushedAndPut(c: Config): seq<Op> {
    OnePut(c) + [FLUSH_IT] + [PutOther(c)]
  }

  lemma FlushedOnce(c: Config)
    requires Roomy(c)
    ensures var st := Run(c, OnePut(c) + [FLUSH_IT]);
            AllHold(c, st, 1) && st.lastLsn == 1 && st.segs[0].snap == 1
  {
    var none := OnePutIs(c);
    RunSnoc(c, OnePut(c), FLUSH_IT);
    OneFlushed(c, none, Run(c, OnePut(c)));
  }

  ghost predicate Blank(c: Config, st: Lsm) {
    AllHold(c, st, 0) && st.lastLsn == 0
  }

  lemma PutWaits(c: Config, st: Lsm)
    requires Roomy(c) && Blank(c, st)
    ensures Step(c, st, PutIt(c)) == InsertRows(c, st, [THE_ID], OneBatch(c))
  {
    InsertedFields(c, st);
    PutWaitsIn(c, st, InsertRows(c, st, [THE_ID], OneBatch(c)));
  }

  lemma PutWaitsIn(c: Config, st: Lsm, b: Lsm)
    requires Roomy(c) && b == InsertRows(c, st, [THE_ID], OneBatch(c)) && ToMap(b.mem) == One(c)
    ensures Step(c, st, PutIt(c)) == b
  {
    OneRowWaits(c, b, Live(OneBatch(c)[0], 1));
  }

  lemma OnePutIs(c: Config) returns (none: Lsm)
    requires Roomy(c)
    ensures Blank(c, none) && Run(c, OnePut(c)) == InsertRows(c, none, [THE_ID], OneBatch(c))
  {
    none := Run(c, []);
    RunSnoc(c, [], PutIt(c));
    EmptyIsGood(c);
    PutWaits(c, none);
  }

  lemma OneFlushed(c: Config, none: Lsm, st: Lsm)
    requires Roomy(c) && Blank(c, none) && st == InsertRows(c, none, [THE_ID], OneBatch(c))
    ensures var b := Flush(c, st, "a", "b");
            AllHold(c, b, 1) && b.lastLsn == 1 && b.segs[0].snap == 1
  {
    Inserted(c, none, 0);
    Flushed(c, none, 0);
    FlushIsFlushMem(c, st);
    SnapOfOne(c, st);
  }

  lemma SnapOfOne(c: Config, st: Lsm)
    requires Layered(c, st) && Flushable(st) && st.segs == [] && ToMap(st.mem) == One(c)
    ensures FlushMem(c, st, "a").segs[0].snap == 1
  {
    Listed(c, st, "a");
    FlushedFields(c, st, "a");
    MaxLsnIs(st.mem);
    assert ToMap(st.mem)[THE_ID].lsn == 1;
  }

  lemma FlushedAndPutIs(c: Config)
    requires Roomy(c)
    ensures var st := Run(c, FlushedAndPut(c));
            && |st.segs| == 1 && st.segs[0].snap == 1 && THE_ID in ToMap(st.segs[0].rows)
            && Buffers(st, map[OTHER_ID := Live(OneBatch(c)[0], 2)], 2)
  {
    var st := Run(c, OnePut(c) + [FLUSH_IT]);
    FlushedOnce(c);
    RunSnoc(c, OnePut(c) + [FLUSH_IT], PutOther(c));
    OtherAdded(c, st, map[], 1);
    FewRowsWait(c, InsertRows(c, st, [OTHER_ID], OneBatch(c)));
  }

  // A stored row visible at the snapshot, under no newer entry, is shown.
  lemma StoredIsShown(st: Lsm, x: Id, s: nat)
    requires |st.segs| == 1 && st.segs[0].snap <= s && x in ToMap(st.segs[0].rows)
    requires x !in st.tombs && x !in ToMap(st.mem)
    ensures x in ViewAt(st, s)
  {
    ViewAtIs(st, s);
    assert st.segs[..0] == [] && st.segs == [] + [st.segs[0]];
    StoredOne(st.segs[0]);
  }

  // A merge stamps all its rows with the newest snapshot it merges.
  lemma MergeTakesFromSnapshot(c: Config)
    requires Roomy(c) && c.mergeThreshold == 2
    ensures var s := Run(c, OnePut(c) + [FLUSH_IT]).lastLsn;
            && THE_ID in ViewAt(Run(c, FlushedAndPut(c)), s)
            && THE_ID !in ViewAt(Run(c, FlushedAndPut(c) + [DoFlush("c", "d")]), s)
  {
    var st := Run(c, FlushedAndPut(c));
    FlushedOnce(c);
    FlushedAndPutIs(c);
    StoredIsShown(st, THE_ID, 1);
    RunSnoc(c, FlushedAndPut(c), DoFlush("c", "d"));
    EveryRunIsGood(c, FlushedAndPut(c));
    TwoFlush(c, st);
    FlushMerges(c, st);
  }

  lemma TwoSegments(c: Config, st: Lsm)
    requires Layered(c, st) && Flushable(st) && MaxLsn(st.mem) > 1 && |st.segs| == 1
    ensures var a := FlushMem(c, st, "c");
            Layered(c, a) && |a.segs| == 2 && MaxSnap(a.segs[..2]) > 1
  {
    FlushMemLayered(c, st, "c");
    Listed(c, st, "c");
    FlushedFields(c, st, "c");
    assert FlushMem(c, st, "c").segs[..2] == FlushMem(c, st, "c").segs;
  }

  lemma FlushMerges(c: Config, st: Lsm)
    requires Layered(c, st) && Flushable(st) && MaxLsn(st.mem) > 1 && |st.segs| == 1 && c.mergeThreshold == 2
    ensures ViewAt(Flush(c, st, "c", "d"), 1) == map[]
  {
    TwoSegments(c, st);
    MergedOutOfSight(c, FlushMem(c, st, "c"), "d", 1);
  }
}
