// Where the readers serve a deleted id: every shard overwrites the one tombstone
// file with its own tombstones, so a delete over two shards leaves only the last one's.
module ShardedDeletes {
  import opened Wrappers
  import opened ByteCodec
  import opened WalCodec
  import opened Dicts
  import opened MergeResults
  import opened Segments
  import opened MemTables
  import opened LsmModel
  import opened LsmInvariants
  import opened LsmRuns
  import opened LsmSearch
  import opened Sharding
  import opened ReaderAgreement
  import opened DistributedSearch

  // After a delete, the file holds the tombstones of the last shard it visited, alone.
  lemma {:induction false} DeleteLeavesLastShards(c: Config, sts: seq<Lsm>, groups: Dict<nat, seq<Id>>)
    requires GroupsFit(sts, groups) && groups != []
    ensures OneWriter(DeleteGroups(c, sts, groups), groups[|groups| - 1].0)
    decreases |groups|
  {
    var (s, g) := groups[0];
    var after := Delete(ForShard(c, s), sts[s], g);
    assert after.diskTombs == after.tombs;
    if |groups| == 1 {
      assert groups[1..] == [];
    } else {
      TailFits(sts, groups, after);
      DeleteLeavesLastShards(c, Update(sts, s, after), groups[1..]);
    }
  }

  function Both(): seq<Id> {
    [0, 1]
  }

  lemma ShareSnoc<T>(items: seq<T>, e: T, shardOf: T -> nat, s: nat)
    ensures Share(items + [e], shardOf, s) == Share(items, shardOf, s) + if shardOf(e) == s then [e] else []
  {
    assert (items + [e])[..|items|] == items;
  }

  lemma ShareTwo<T>(a: T, b: T, shardOf: T -> nat, s: nat)
    ensures Share([a, b], shardOf, s) ==
            (if shardOf(a) == s then [a] else []) + (if shardOf(b) == s then [b] else [])
  {
    var none: seq<T> := [];
    ShareSnoc(none, a, shardOf, s);
    ShareSnoc(none + [a], b, shardOf, s);
    assert none + [a] + [b] == [a, b];
  }

  lemma BothShares()
    ensures Share(Both(), IdShard(2), 0) == [0] && Share(Both(), IdShard(2), 1) == [1]
  {
    ShareTwo<Id>(0, 1, IdShard(2), 0);
    ShareTwo<Id>(0, 1, IdShard(2), 1);
  }

  lemma GroupedSnoc<T>(items: seq<T>, e: T, shardOf: T -> nat, groups: Dict<nat, seq<T>>)
    requires groups == Grouped(items, shardOf)
    ensures Grouped(items + [e], shardOf) == AddTo(groups, shardOf(e), e)
  {
    assert (items + [e])[..|items|] == items;
  }

  // The first item of a shard opens a group at the end.
  lemma OpensGroup<T>(items: seq<T>, e: T, shardOf: T -> nat, groups: Dict<nat, seq<T>>)
    requires groups == Grouped(items, shardOf) && Share(items, shardOf, shardOf(e)) == []
    ensures Grouped(items + [e], shardOf) == groups + [(shardOf(e), [e])]
  {
    GroupedSnoc(items, e, shardOf, groups);
    GroupIsShare(items, shardOf, shardOf(e));
    PutNewAppends(groups, shardOf(e), [] + [e]);
    assert [] + [e] == [e];
  }

  lemma LastGroup()
    ensures var groups := Grouped(Both(), IdShard(2)); groups != [] && groups[|groups| - 1].0 == 1
  {
    var none: seq<Id> := [];
    ShareSnoc(none, 0, IdShard(2), 1);
    OpensGroup(none + [0], 1, IdShard(2), Grouped(none + [0], IdShard(2)));
    assert Both() == none + [0] + [1];
  }

  lemma FileIsTheLastShards(c: Config, sts: seq<Lsm>)
    requires |sts| == 2 && Room(sts, PipeDelete(Both()))
    ensures OneWriter(DeleteFromAll(c, sts, Both()), 1)
  {
    GroupsHaveRoom(sts, Both(), IdShard(2));
    LastGroup();
    DeleteLeavesLastShards(c, sts, Grouped(Both(), IdShard(2)));
  }

  // At a flush threshold of one or less, an insert leaves no live row in the memtable.
  lemma InsertLeavesNothingLive(c: Config, st: Lsm, ids: seq<Id>, vectors: seq<Vec>, segId: string, mergedId: string)
    requires Layered(c, st) && Packable(st.lastLsn + 1, |ids|) && c.flushThreshold <= 1
    ensures LiveOf(ToMap(Insert(c, st, ids, vectors, segId, mergedId).mem), None) == map[]
  {
    var a := InsertRows(c, st, ids, vectors);
    InsertRowsLayered(c, st, ids, vectors);
    FlushRefinesIff(c, a, segId, mergedId);
    LiveRowsAre(a.mem, None);
    if !ShouldFlush(c, a) {
      assert LiveRows(a.mem, None) == [];
    }
  }

  lemma NoneLive(m: map<Id, Entry>)
    requires LiveOf(m, None) == map[]
    ensures forall x :: x in m ==> m[x].Deleted?
  {
    assert forall x :: x in m && m[x].Live? ==> x in LiveOf(m, None);
  }

  lemma NothingLiveIsStored(st: Lsm, x: Id)
    requires LiveOf(ToMap(st.mem), None) == map[] && x in View(st)
    ensures x in Stored(st.segs)
  {
    NoneLive(ToMap(st.mem));
  }

  // ---- the run ------------------------------------------------------------------------

  function InsertBoth(c: Config, names: Names): seq<PipeOp> {
    [PipeInsert(Both(), Zeros(c.dim, 2), names)]
  }

  // Insert two ids on two shards, then delete both.
  function DeleteBoth(c: Config, names: Names): seq<PipeOp> {
    InsertBoth(c, names) + [PipeDelete(Both())]
  }

  lemma DeleteBothFront(c: Config, names: Names)
    ensures var ops := DeleteBoth(c, names);
            ops[..|ops| - 1] == InsertBoth(c, names) && ops[|ops| - 1] == PipeDelete(Both()) && InRange(ops)
  {
  }

  lemma InsertedBoth(c: Config, names: Names)
    ensures InRange(InsertBoth(c, names)) && InsertBoth(c, names)[..0] == []
    ensures PlainMap(c, InsertBoth(c, names)).Keys == {0, 1}
  {
    WrittenKeys(Both(), Zeros(c.dim, 2));
    assert IdSet(Both()) == {0, 1};
  }

  lemma FirstStep(c: Config, op: PipeOp)
    ensures PipeRun(c, 2, [op]) == PipeStep(c, PipeRun(c, 2, []), op)
    ensures forall s :: 0 <= s < 2 ==> PipeRun(c, 2, [])[s] == EMPTY
  {
    assert [op][..0] == [];
  }

  lemma FirstInsert(c: Config, op: Op)
    requires c.flushThreshold <= 1 && op.DoInsert? && Accepted(c, op) && |op.ids| < TWO_32
    ensures LiveOf(ToMap(Step(c, EMPTY, op).mem), None) == map[]
  {
    EmptyIsGood(c);
    InsertLeavesNothingLive(c, EMPTY, op.ids, op.vectors, op.segId, op.mergedId);
  }

  lemma FirstTurn(c: Config, st: Lsm, op: Op, idle: bool, after: Lsm)
    requires c.flushThreshold <= 1 && op.DoInsert? && Accepted(c, op) && |op.ids| < TWO_32
    requires st == EMPTY && SameButFile(after, if idle then st else Step(c, st, op))
    ensures LiveOf(ToMap(after.mem), None) == map[]
  {
    FirstInsert(c, op);
  }

  // A first insert on one shard leaves nothing live in its memtable.
  lemma FirstInsertFlushes(c: Config, sts: seq<Lsm>, op: PipeOp, s: nat)
    requires c.flushThreshold <= 1 && |sts| == 2 && s < 2 && op.PipeInsert? && ShapeOk(c.dim, op.ids, op.vectors)
    requires sts[s] == EMPTY && Room(sts, op)
    ensures LiveOf(ToMap(PipeStep(c, sts, op)[s].mem), None) == map[]
  {
    ShardStep(c, sts, op, s);
    ShardShapes(c, 2, s, op);
    FirstTurn(ForShard(c, s), sts[s], ShardOp(|sts|, s, op), Idle(c, |sts|, s, op), PipeStep(c, sts, op)[s]);
  }

  lemma InsertedIsStored(c: Config, names: Names, s: nat)
    requires c.flushThreshold <= 1 && c.mergeThreshold != 1 && s < 2
    ensures s in Stored(PipeRun(c, 2, InsertBoth(c, names))[s].segs)
  {
    var ops := InsertBoth(c, names);
    InsertedBoth(c, names);
    ShardsHoldParts(c, 2, ops, s);
    FirstStep(c, ops[0]);
    FirstInsertFlushes(c, PipeRun(c, 2, []), ops[0], s);
    assert s in Part(PlainMap(c, ops), 2, s);
    NothingLiveIsStored(PipeRun(c, 2, ops)[s], s);
  }

  // The delete tombstones the stored row of each shard.
  lemma DeletedByOp(c: Config, st: Lsm, b: Lsm, x: Id)
    requires SameButFile(b, Delete(c, st, [x])) && Packable(st.lastLsn + 1, 1) && x in Stored(st.segs)
    ensures x in b.tombs && x in Stored(b.segs)
  {
    DeleteFields(c, st, [x]);
  }

  lemma BothOps(c: Config, s: nat)
    requires s < 2
    ensures ShardOp(2, s, PipeDelete(Both())) == DoDelete([s]) && !Idle(c, 2, s, PipeDelete(Both()))
  {
    BothShares();
  }

  lemma DeletedOnShard(c: Config, sts: seq<Lsm>, s: nat)
    requires |sts| == 2 && s < 2 && Room(sts, PipeDelete(Both())) && s in Stored(sts[s].segs)
    ensures var st := PipeStep(c, sts, PipeDelete(Both()))[s]; s in st.tombs && s in Stored(st.segs)
  {
    ShardStep(c, sts, PipeDelete(Both()), s);
    BothOps(c, s);
    DeletedByOp(ForShard(c, s), sts[s], PipeStep(c, sts, PipeDelete(Both()))[s], s);
  }

  lemma DeletedIsTombstoned(c: Config, names: Names, s: nat)
    requires c.flushThreshold <= 1 && c.mergeThreshold != 1 && s < 2
    ensures var st := PipeRun(c, 2, DeleteBoth(c, names))[s]; s in st.tombs && s in Stored(st.segs)
  {
    var sts := PipeRun(c, 2, InsertBoth(c, names));
    DeleteBothFront(c, names);
    InsertedBoth(c, names);
    InsertedIsStored(c, names, s);
    BothHaveRoom(c, names);
    DeletedOnShard(c, sts, s);
  }

  lemma BothHaveRoom(c: Config, names: Names)
    requires c.mergeThreshold != 1
    ensures Room(PipeRun(c, 2, InsertBoth(c, names)), PipeDelete(Both()))
  {
    InsertedBoth(c, names);
    RunHolds(c, 2, InsertBoth(c, names));
  }

  // A delete over two shards: the first shard's id is deleted, but the file no longer
  // says so, and the readers see it again.
  lemma ShardedDeleteReturns(c: Config, names: Names)
    requires c.flushThreshold <= 1 && c.mergeThreshold >= 2
    ensures var ops := DeleteBoth(c, names);
            var sts := PipeRun(c, 2, ops);
            OneWriter(sts, 1) && 0 !in PlainMap(c, ops) && 0 in ReadMap(sts, sts[0].diskTombs)
  {
    var ops := DeleteBoth(c, names);
    var sts := PipeRun(c, 2, ops);
    DeleteBothFront(c, names);
    BothHaveRoom(c, names);
    FileIsTheLastShards(c, PipeRun(c, 2, InsertBoth(c, names)));
    DeletedIsTombstoned(c, names, 0);
    RunHolds(c, 2, ops);
    NotTheirs(c, sts, PlainMap(c, ops), |ops|);
    ReadsAreParts(c, 2, sts, sts[0].diskTombs, PlainMap(c, ops), |ops|);
    AsReadLayered(ForShard(c, 0), sts[0], sts[0].diskTombs);
    assert 0 in View(AsReads(sts, sts[0].diskTombs)[0]);
  }

  // The last shard's tombstones do not name the first shard's ids.
  lemma NotTheirs(c: Config, sts: seq<Lsm>, m: map<Id, Vec>, count: nat)
    requires |sts| == 2 && OneWriter(sts, 1) && Holds(c, 2, 1, sts[1], m, count)
    ensures 0 !in sts[0].diskTombs
  {
    assert MapsOf(sts[1]).tombs == sts[1].tombs;
  }

  lemma ReturnedAt(f: Faiss, m: map<Id, Vec>, q: Vec, k: nat, top: seq<Hit>, x: Id)
    requires IsTopOf(f, m, q, k, top) && |m| <= k && x in m && x >= 0
    ensures exists i :: 0 <= i < |top| && top[i].id == x
  {
    AllIsReturned(f, m, q, k, top);
    assert x in ReturnedIds(top);
    var h: Hit :| h in top && h.id == x;
    var i :| 0 <= i < |top| && top[i] == h;
  }

  lemma ServedTop(c: Config, names: Names, f: Faiss, w: Source, max: nat, q: Vec, k: nat, nprobe: nat, ops: seq<PipeOp>)
    requires c.flushThreshold <= 1 && c.mergeThreshold >= 2 && Sound(f) && ops == DeleteBoth(c, names)
    requires Served(c, f, 2, ops, w, max, q, k, nprobe)
    ensures IsTopOf(f, ReadMap(PipeRun(c, 2, ops), w.file), q, k, Gathered(f, w, max, 2, q, k, nprobe))
  {
    DeleteBothFront(c, names);
    DistributedSearchIsExact(c, f, 2, ops, PipeRun(c, 2, ops), w, max, q, k, nprobe);
  }

  // So a coordinator whose readers are all refreshed answers with the deleted id.
  lemma DeletedIdIsServed(c: Config, names: Names, f: Faiss, w: Source, max: nat, q: Vec, k: nat, nprobe: nat)
    requires c.flushThreshold <= 1 && c.mergeThreshold >= 2 && Sound(f)
    requires Served(c, f, 2, DeleteBoth(c, names), w, max, q, k, nprobe)
    requires |ReadMap(PipeRun(c, 2, DeleteBoth(c, names)), w.file)| <= k
    ensures 0 !in PlainMap(c, DeleteBoth(c, names))
    ensures var top := Gathered(f, w, max, 2, q, k, nprobe); exists i :: 0 <= i < |top| && top[i].id == 0
  {
    ServedTop(c, names, f, w, max, q, k, nprobe, DeleteBoth(c, names));
    ShardedDeleteReturns(c, names);
    ReturnedAt(f, ReadMap(PipeRun(c, 2, DeleteBoth(c, names)), w.file), q, k, Gathered(f, w, max, 2, q, k, nprobe), 0);
  }
}
