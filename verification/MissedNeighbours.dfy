// A run after which a search for one neighbour returns nothing although a live row is
// stored: its segment answers with the nearer row, which is deleted.
module MissedNeighbours {
  import opened Wrappers
  import opened WalCodec
  import opened Dicts
  import opened Segments
  import opened MemTables
  import opened LsmModel
  import opened LsmInvariants
  import opened LsmRuns
  import opened LsmReplays
  import opened LsmSearch
  import opened LsmThreshold
  import opened LostSnapshots

  function BothIds(): seq<Id> {
    [THE_ID, OTHER_ID]
  }

  // Two rows flushed into one segment, then the first deleted.
  function NearestDeleted(v: Vec, w: Vec): seq<Op> {
    [] + [DoInsert(BothIds(), [v, w], "a", "b")] + [FLUSH_IT] + [DoDelete([THE_ID])]
  }

  lemma BothWritten(v: Vec, w: Vec)
    ensures Written(Zip(BothIds(), [v, w])) == map[THE_ID := v, OTHER_ID := w]
  {
    var ps: seq<(Id, Vec)> := [(THE_ID, v), (OTHER_ID, w)];
    assert Zip(BothIds(), [v, w]) == ps;
    assert ps[..1] == [(THE_ID, v)] && ps[..1][..0] == [];
    assert Written(ps[..1]) == map[THE_ID := v];
  }

  lemma FirstBatch(c: Config, none: Lsm, ids: seq<Id>, vectors: seq<Vec>, written: map<Id, Vec>)
    requires Blank(c, none) && ShapeOk(c.dim, ids, vectors) && Packable(1, |ids|)
    requires written == Written(Zip(ids, vectors))
    ensures var st := InsertRows(c, none, ids, vectors);
            Buffers(st, Lives(written, 1), 1) && st.segs == [] && Layered(c, st)
  {
    InsertRowsFields(c, none, ids, vectors);
    InsertedEntries(none, ids, vectors);
    InsertedTombs(c, none, ids, vectors);
    InsertRowsLayered(c, none, ids, vectors);
    assert map[] + Lives(written, 1) == Lives(written, 1);
  }

  lemma BothBuffered(c: Config, none: Lsm, v: Vec, w: Vec)
    requires Blank(c, none) && |v| == |w| == c.dim
    ensures var st := InsertRows(c, none, BothIds(), [v, w]);
            Buffers(st, map[THE_ID := Live(v, 1), OTHER_ID := Live(w, 1)], 1) && st.segs == [] && Layered(c, st)
  {
    BothWritten(v, w);
    FirstBatch(c, none, BothIds(), [v, w], map[THE_ID := v, OTHER_ID := w]);
    assert Lives(map[THE_ID := v, OTHER_ID := w], 1) == map[THE_ID := Live(v, 1), OTHER_ID := Live(w, 1)];
  }

  lemma BothWait(c: Config, none: Lsm, st: Lsm, v: Vec, w: Vec)
    requires Roomy(c) && |v| == |w| == c.dim && st == InsertRows(c, none, BothIds(), [v, w])
    requires ToMap(st.mem).Keys <= {THE_ID, OTHER_ID}
    ensures Step(c, none, DoInsert(BothIds(), [v, w], "a", "b")) == st
  {
    FewRowsWait(c, st);
  }

  // One segment with both rows, nothing buffered.
  lemma BothFlushed(c: Config, st: Lsm, v: Vec, w: Vec)
    requires Roomy(c) && Layered(c, st) && st.segs == []
    requires Buffers(st, map[THE_ID := Live(v, 1), OTHER_ID := Live(w, 1)], 1)
    ensures var b := Flush(c, st, "a", "b");
            && |b.segs| == 1 && ToMap(b.segs[0].rows) == map[THE_ID := v, OTHER_ID := w]
            && Buffers(b, map[], 1)
  {
    BothFlush(st, v, w);
    BothListed(c, st, v, w);
    FlushIsFlushMem(c, st);
  }

  lemma BothFlush(st: Lsm, v: Vec, w: Vec)
    requires ToMap(st.mem) == map[THE_ID := Live(v, 1), OTHER_ID := Live(w, 1)]
    ensures Flushable(st) && LiveOf(ToMap(st.mem), None) == map[THE_ID := v, OTHER_ID := w]
    ensures DeletedIds(st.mem, None) == {}
  {
    LiveRowsAre(st.mem, None);
    MaxLsnIs(st.mem);
    DeletedIdsAre(st.mem, None);
    assert ToMap(st.mem)[THE_ID].lsn == 1;
    assert THE_ID in LiveOf(ToMap(st.mem), None);
  }

  lemma BothListed(c: Config, st: Lsm, v: Vec, w: Vec)
    requires Layered(c, st) && Flushable(st) && st.segs == [] && st.tombs == {} && st.lastLsn == 1
    requires LiveOf(ToMap(st.mem), None) == map[THE_ID := v, OTHER_ID := w] && DeletedIds(st.mem, None) == {}
    ensures var b := FlushMem(c, st, "a");
            && |b.segs| == 1 && ToMap(b.segs[0].rows) == map[THE_ID := v, OTHER_ID := w]
            && b.mem == [] && b.tombs == {} && b.lastLsn == 1
  {
    Listed(c, st, "a");
    FlushedFields(c, st, "a");
  }

  lemma FirstDeleted(c: Config, st: Lsm)
    requires Buffers(st, map[], 1)
    ensures var b := Delete(c, st, [THE_ID]);
            && b.segs == st.segs && b.tombs == {THE_ID} && LiveOf(ToMap(b.mem), None) == map[]
            && OTHER_ID !in ToMap(b.mem)
  {
    DeleteFields(c, st, [THE_ID]);
    DeletedEntries(c, st, [THE_ID]);
    assert IdSet([THE_ID]) == {THE_ID};
    assert map[] + Markers({THE_ID}, 2) == map[THE_ID := Deleted(2)];
  }

  // The run's last state, and the search that misses.
  lemma NearestDeletedIsMissed(c: Config, f: Faiss, v: Vec, w: Vec, q: Vec, nprobe: nat)
    requires Roomy(c) && |v| == |w| == c.dim && Sound(f) && f.dist(q, v) < f.dist(q, w)
    requires var st := Run(c, NearestDeleted(v, w));
             forall i :: 0 <= i < |st.segs| ==>
               NearestHits(f.dist, st.segs[i].rows, q, 1, f.index(st.segs[i].rows, q, 1, nprobe))
    ensures var st := Run(c, NearestDeleted(v, w));
            && Search(f, st, q, 1, nprobe, st.lastLsn) == []
            && OTHER_ID in Near(f, st, q, f.dist(q, w))
  {
    var none := Run(c, []);
    var insert := DoInsert(BothIds(), [v, w], "a", "b");
    EmptyIsGood(c);
    RunSnoc(c, [], insert);
    RunSnoc(c, [] + [insert], FLUSH_IT);
    RunSnoc(c, [] + [insert] + [FLUSH_IT], DoDelete([THE_ID]));
    BothBuffered(c, none, v, w);
    BothWait(c, none, InsertRows(c, none, BothIds(), [v, w]), v, w);
    BothFlushed(c, Run(c, [] + [insert]), v, w);
    FirstDeleted(c, Run(c, [] + [insert] + [FLUSH_IT]));
    EveryRunIsGood(c, NearestDeleted(v, w));
    DeletedNearestHidesLiveOne(c, f, Run(c, NearestDeleted(v, w)), q, nprobe, THE_ID, OTHER_ID, v, w);
  }
}
