// How the LSNs in the log, the memtable and the segments are layered, and how
// each step of the engine acts on the mapping view of its state.
module LsmInvariants {
  import opened Wrappers
  import opened WalCodec
  import opened WalRecovery
  import opened Dicts
  import opened Sorting
  import opened Segments
  import opened MemTables
  import opened LsmModel
  import opened LsmMaps

  ghost predicate LsnsAscend(rs: seq<Record>) {
    forall i, j :: 0 <= i < j < |rs| ==> rs[i].lsn < rs[j].lsn
  }

  ghost predicate LogOk(log: seq<Record>, meta: nat) {
    LsnsAscend(log) && forall i :: 0 <= i < |log| ==> 0 < log[i].lsn <= meta
  }

  ghost predicate SegsOk(shard: nat, segs: seq<Segment>, meta: nat) {
    && Segments.Ascending(segs)
    && forall i :: 0 <= i < |segs| ==> 0 < segs[i].snap <= meta && segs[i].shard == shard
  }

  ghost predicate EntriesOk(m: map<Id, Entry>, snap: nat, meta: nat) {
    forall x :: x in m ==> snap < m[x].lsn <= meta
  }

  // Log LSNs ascend; segment snapshots ascend; every memtable LSN exceeds them;
  // all of them are at most the counter that survives a crash.
  ghost predicate Layered(c: Config, st: Lsm) {
    && LogOk(st.log, st.meta)
    && SegsOk(c.shard, st.segs, st.meta)
    && EntriesOk(ToMap(st.mem), MaxSnap(st.segs), st.meta)
    && st.meta <= st.lastLsn
  }

  ghost function MapsOf(st: Lsm): Maps {
    Maps(ToMap(st.mem), Stored(st.segs), st.tombs, st.diskTombs,
         ToMap(Replay(st.log)), MaxSnap(st.segs), DeletedBy(st.log))
  }

  // The logical map: every id a search or a count can see, with its vector.
  ghost function View(st: Lsm): map<Id, Vec> {
    Visible(Maps(ToMap(st.mem), Stored(st.segs), st.tombs, st.diskTombs, map[], 0, {}))
  }

  lemma ViewIsVisible(st: Lsm)
    ensures View(st) == Visible(MapsOf(st))
  {
  }

  // What every run keeps, crashes included.
  ghost predicate Good(c: Config, st: Lsm) {
    Layered(c, st) && Sane(MapsOf(st))
  }

  lemma EmptyIsGood(c: Config)
    ensures Good(c, EMPTY) && Clean(MapsOf(EMPTY)) && View(EMPTY) == map[]
  {
  }

  // ---- append -------------------------------------------------------------------------

  lemma LogSnoc(log: seq<Record>, meta: nat, r: Record)
    requires LogOk(log, meta) && meta < r.lsn
    ensures LogOk(log + [r], r.lsn)
  {
  }

  lemma EntriesWritten(m: map<Id, Entry>, n: map<Id, Entry>, snap: nat, meta: nat, lsn: nat)
    requires EntriesOk(m, snap, meta) && snap <= meta < lsn
    requires forall x :: x in n ==> n[x].lsn == lsn
    ensures EntriesOk(m + n, snap, lsn)
  {
  }

  lemma AppendLayered(c: Config, st: Lsm, r: Record, n: map<Id, Entry>)
    requires Layered(c, st) && r.lsn == st.lastLsn + 1
    requires forall x :: x in n ==> n[x].lsn == r.lsn
    ensures LogOk(st.log + [r], r.lsn) && SegsOk(c.shard, st.segs, r.lsn)
    ensures EntriesOk(ToMap(st.mem) + n, MaxSnap(st.segs), r.lsn)
  {
    LogSnoc(st.log, st.meta, r);
    MaxSnapAtMost(st.segs, st.meta);
    EntriesWritten(ToMap(st.mem), n, MaxSnap(st.segs), st.meta, r.lsn);
  }

  lemma ReplaySnoc(rs: seq<Record>, r: Record)
    ensures Replay(rs + [r]) == ReplayOne(Replay(rs), r)
  {
    assert (rs + [r])[..|rs|] == rs;
  }

  lemma {:induction false} WrittenKeys(ids: seq<Id>, vectors: seq<Vec>)
    requires |ids| == |vectors|
    ensures Written(Zip(ids, vectors)).Keys == IdSet(ids)
    decreases |ids|
  {
    if ids != [] {
      var n := |ids| - 1;
      WrittenKeys(ids[..n], vectors[..n]);
      assert Zip(ids, vectors)[..n] == Zip(ids[..n], vectors[..n]);
      assert ids == ids[..n] + [ids[n]];
    }
  }

  lemma InsertRowsFields(c: Config, st: Lsm, ids: seq<Id>, vectors: seq<Vec>)
    requires Packable(st.lastLsn + 1, |ids|)
    ensures var b, lsn := InsertRows(c, st, ids, vectors), st.lastLsn + 1;
            && b.mem == PutAll(st.mem, Zip(ids, vectors), lsn)
            && b.log == st.log + [Record(lsn, OP_INSERT, ids, vectors)]
            && b.segs == st.segs && b.meta == b.lastLsn == lsn
  {
  }

  lemma InsertedEntries(st: Lsm, ids: seq<Id>, vectors: seq<Vec>)
    ensures var lsn := st.lastLsn + 1;
            var lives := Lives(Written(Zip(ids, vectors)), lsn);
            && ToMap(PutAll(st.mem, Zip(ids, vectors), lsn)) == ToMap(st.mem) + lives
            && ToMap(Replay(st.log + [Record(lsn, OP_INSERT, ids, vectors)])) == ToMap(Replay(st.log)) + lives
  {
    var lsn := st.lastLsn + 1;
    ReplaySnoc(st.log, Record(lsn, OP_INSERT, ids, vectors));
    PutAllIs(st.mem, Zip(ids, vectors), lsn);
    PutAllIs(Replay(st.log), Zip(ids, vectors), lsn);
  }

  lemma DeletedBySnoc(rs: seq<Record>, r: Record)
    ensures DeletedBy(rs + [r]) == DeletedBy(rs) + if r.op == OP_DELETE then IdSet(r.ids) else {}
  {
    assert (rs + [r])[..|rs|] == rs;
  }

  lemma InsertedTombs(c: Config, st: Lsm, ids: seq<Id>, vectors: seq<Vec>)
    requires ShapeOk(c.dim, ids, vectors) && Packable(st.lastLsn + 1, |ids|)
    ensures var b, keys := InsertRows(c, st, ids, vectors), Written(Zip(ids, vectors)).Keys;
            && b.tombs == st.tombs - keys
            && b.diskTombs == if st.tombs * keys != {} then b.tombs else st.diskTombs
  {
    WrittenKeys(ids, vectors);
    var keys := Written(Zip(ids, vectors)).Keys;
    assert st.tombs - st.tombs * keys == st.tombs - keys;
  }

  lemma InsertRowsMaps(c: Config, st: Lsm, ids: seq<Id>, vectors: seq<Vec>)
    requires ShapeOk(c.dim, ids, vectors) && Packable(st.lastLsn + 1, |ids|)
    ensures MapsOf(InsertRows(c, st, ids, vectors)) ==
            InsertStep(MapsOf(st), Written(Zip(ids, vectors)), st.lastLsn + 1)
  {
    InsertRowsFields(c, st, ids, vectors);
    InsertedEntries(st, ids, vectors);
    InsertedTombs(c, st, ids, vectors);
    DeletedBySnoc(st.log, Record(st.lastLsn + 1, OP_INSERT, ids, vectors));
  }

  lemma InsertRowsLayered(c: Config, st: Lsm, ids: seq<Id>, vectors: seq<Vec>)
    requires Layered(c, st)
    ensures Layered(c, InsertRows(c, st, ids, vectors))
  {
    var lsn := st.lastLsn + 1;
    if Packable(lsn, |ids|) {
      InsertRowsFields(c, st, ids, vectors);
      InsertedEntries(st, ids, vectors);
      AppendLayered(c, st, Record(lsn, OP_INSERT, ids, vectors), Lives(Written(Zip(ids, vectors)), lsn));
    }
  }

  lemma DeleteFields(c: Config, st: Lsm, ids: seq<Id>)
    requires Packable(st.lastLsn + 1, |ids|)
    ensures var b, lsn := Delete(c, st, ids), st.lastLsn + 1;
            && b.mem == DeleteAll(st.mem, ids, lsn)
            && b.log == st.log + [Record(lsn, OP_DELETE, ids, Zeros(c.dim, |ids|))]
            && b.segs == st.segs && b.meta == b.lastLsn == lsn
            && b.tombs == b.diskTombs == st.tombs + IdSet(ids)
  {
  }

  lemma DeletedEntries(c: Config, st: Lsm, ids: seq<Id>)
    ensures var lsn := st.lastLsn + 1;
            var marks := Markers(IdSet(ids), lsn);
            && ToMap(DeleteAll(st.mem, ids, lsn)) == ToMap(st.mem) + marks
            && ToMap(Replay(st.log + [Record(lsn, OP_DELETE, ids, Zeros(c.dim, |ids|))])) ==
               ToMap(Replay(st.log)) + marks
  {
    var lsn := st.lastLsn + 1;
    ReplaySnoc(st.log, Record(lsn, OP_DELETE, ids, Zeros(c.dim, |ids|)));
    DeleteAllIs(st.mem, ids, lsn);
    DeleteAllIs(Replay(st.log), ids, lsn);
  }

  lemma DeleteMaps(c: Config, st: Lsm, ids: seq<Id>)
    requires Packable(st.lastLsn + 1, |ids|)
    ensures MapsOf(Delete(c, st, ids)) == DeleteStep(MapsOf(st), IdSet(ids), st.lastLsn + 1)
  {
    DeleteFields(c, st, ids);
    DeletedEntries(c, st, ids);
    DeletedBySnoc(st.log, Record(st.lastLsn + 1, OP_DELETE, ids, Zeros(c.dim, |ids|)));
  }

  // The next LSN is newer than everything in the log.
  lemma NextIsNewest(c: Config, st: Lsm)
    requires Layered(c, st)
    ensures AllBefore(MapsOf(st), st.lastLsn + 1)
  {
    ReplayBound(st.log);
  }

  lemma DeleteLayered(c: Config, st: Lsm, ids: seq<Id>)
    requires Layered(c, st)
    ensures Layered(c, Delete(c, st, ids))
  {
    var lsn := st.lastLsn + 1;
    if Packable(lsn, |ids|) {
      DeleteFields(c, st, ids);
      DeletedEntries(c, st, ids);
      AppendLayered(c, st, Record(lsn, OP_DELETE, ids, Zeros(c.dim, |ids|)), Markers(IdSet(ids), lsn));
    }
  }

  // ---- replay -------------------------------------------------------------------------

  lemma ReplayOneIs(mem: Entries, r: Record)
    ensures ToMap(ReplayOne(mem, r)) == ToMap(mem) + Effect(r)
  {
    PutAllIs(mem, Zip(r.ids, r.vectors), r.lsn);
    DeleteAllIs(mem, r.ids, r.lsn);
    assert ToMap(mem) + map[] == ToMap(mem);
  }

  // What replaying one record writes.
  ghost function Effect(r: Record): (m: map<Id, Entry>)
    ensures forall x :: x in m ==> m[x].lsn == r.lsn
  {
    if r.op == OP_INSERT then Lives(Written(Zip(r.ids, r.vectors)), r.lsn)
    else if r.op == OP_DELETE then Markers(IdSet(r.ids), r.lsn)
    else map[]
  }

  lemma AfterWrite(m: map<Id, Entry>, n: map<Id, Entry>, lsn: nat, at: nat)
    requires forall x :: x in n ==> n[x].lsn == at
    requires forall x :: x in m ==> m[x].lsn <= at
    ensures After(m + n, lsn) == if at > lsn then After(m, lsn) + n else map[]
    ensures forall x :: x in m + n ==> (m + n)[x].lsn <= at
  {
  }

  lemma {:induction false} ReplayBound(rs: seq<Record>)
    requires LsnsAscend(rs)
    ensures forall x :: x in ToMap(Replay(rs)) ==> rs != [] && ToMap(Replay(rs))[x].lsn <= rs[|rs| - 1].lsn
  {
    if rs != [] {
      var front, last := rs[..|rs| - 1], rs[|rs| - 1];
      ReplayBound(front);
      ReplayOneIs(Replay(front), last);
      AfterWrite(ToMap(Replay(front)), Effect(last), 0, last.lsn);
    }
  }

  // Replaying only the records after an LSN yields the entries after that LSN.
  lemma {:induction false} ReplayFrom(rs: seq<Record>, lsn: nat)
    requires LsnsAscend(rs)
    ensures ToMap(Replay(From(rs, lsn + 1))) == After(ToMap(Replay(rs)), lsn)
  {
    if rs != [] {
      var front, last := rs[..|rs| - 1], rs[|rs| - 1];
      var m, n := Replay(front), Replay(From(front, lsn + 1));
      ReplayFrom(front, lsn);
      ReplayBound(front);
      ReplayOneIs(m, last);
      AfterWrite(ToMap(m), Effect(last), lsn, last.lsn);
      if last.lsn > lsn {
        ReplayOneIs(n, last);
        ReplaySnoc(From(front, lsn + 1), last);
      } else {
        NothingFrom(rs, lsn + 1);
      }
    }
  }

  lemma {:induction false} NothingFrom(rs: seq<Record>, lsn: nat)
    requires LsnsAscend(rs) && (rs != [] ==> rs[|rs| - 1].lsn < lsn)
    ensures From(rs, lsn) == []
  {
    if rs != [] {
      NothingFrom(rs[..|rs| - 1], lsn);
    }
  }

  lemma {:induction false} FromMembers(rs: seq<Record>, lsn: nat)
    ensures forall r :: r in From(rs, lsn) <==> r in rs && r.lsn >= lsn
  {
    if rs != [] {
      FromMembers(rs[..|rs| - 1], lsn);
      assert rs == rs[..|rs| - 1] + [rs[|rs| - 1]];
    }
  }

  lemma MembersBefore(rs: seq<Record>, r: Record)
    requires LsnsAscend(rs) && rs != [] && r in rs[..|rs| - 1]
    ensures r.lsn < rs[|rs| - 1].lsn
  {
    var k :| 0 <= k < |rs| - 1 && rs[..|rs| - 1][k] == r;
    assert rs[k].lsn < rs[|rs| - 1].lsn;
  }

  lemma LogOkSnoc(log: seq<Record>, r: Record, meta: nat)
    requires LogOk(log, meta) && 0 < r.lsn <= meta && forall i :: 0 <= i < |log| ==> log[i].lsn < r.lsn
    ensures LogOk(log + [r], meta)
  {
  }

  lemma {:induction false} FromAscends(rs: seq<Record>, lsn: nat, meta: nat)
    requires LogOk(rs, meta)
    ensures LogOk(From(rs, lsn), meta)
  {
    if rs != [] {
      var front, last := rs[..|rs| - 1], rs[|rs| - 1];
      var f := From(front, lsn);
      FromAscends(front, lsn, meta);
      if last.lsn >= lsn {
        FromMembers(front, lsn);
        forall i | 0 <= i < |f| ensures f[i].lsn < last.lsn {
          MembersBefore(rs, f[i]);
        }
        LogOkSnoc(f, last, meta);
      } else {
        assert f + [] == f;
      }
    }
  }

  lemma {:induction false} DeletedByIs(rs: seq<Record>)
    ensures Deletions(ToMap(Replay(rs))) <= DeletedBy(rs) <= ToMap(Replay(rs)).Keys
  {
    if rs != [] {
      DeletedByIs(rs[..|rs| - 1]);
      ReplayOneIs(Replay(rs[..|rs| - 1]), rs[|rs| - 1]);
    }
  }

  // ---- flush --------------------------------------------------------------------------

  lemma CaptureMaps(st: Lsm)
    ensures MapsOf(CaptureDeletes(st)) == CaptureStep(MapsOf(st))
  {
    DeletedIdsAre(st.mem, None);
    assert DeletedIds(st.mem, None) == Deletions(ToMap(st.mem));
  }

  lemma MaxSnapSnoc(segs: seq<Segment>, g: Segment)
    requires MaxSnap(segs) < g.snap
    ensures MaxSnap(segs + [g]) == g.snap
  {
    assert (segs + [g])[..|segs|] == segs;
  }

  lemma NewestAscends(shard: nat, segs: seq<Segment>, g: Segment, meta: nat)
    requires SegsOk(shard, segs, meta) && MaxSnap(segs) < g.snap <= meta && g.shard == shard
    ensures SegsOk(shard, segs + [g], meta)
  {
    forall i | 0 <= i < |segs| ensures segs[i].snap < g.snap {
      MaxSnapBounds(segs, i);
    }
  }

  lemma NewestLast(shard: nat, segs: seq<Segment>, g: Segment, meta: nat)
    requires SegsOk(shard, segs, meta) && MaxSnap(segs) < g.snap <= meta && g.shard == shard
    ensures SegsOk(shard, segs + [g], meta) && SortSegs(segs + [g]) == segs + [g]
    ensures Stored(segs + [g]) == Stored(segs) + ToMap(g.rows)
    ensures MaxSnap(segs + [g]) == g.snap
  {
    NewestAscends(shard, segs, g, meta);
    AscendingIsSorted(segs + [g]);
    StoredConcat(segs, [g]);
    StoredOne(g);
    MaxSnapSnoc(segs, g);
  }

  lemma FlushableTop(c: Config, st: Lsm)
    requires Layered(c, st) && Flushable(st)
    ensures MaxSnap(st.segs) < MaxLsn(st.mem) <= st.meta
    ensures forall x :: x in ToMap(st.mem) ==> ToMap(st.mem)[x].lsn <= MaxLsn(st.mem)
  {
    MaxLsnIs(st.mem);
  }

  lemma Listed(c: Config, st: Lsm, segId: string)
    requires Layered(c, st) && Flushable(st)
    ensures var g := FlushedSegment(c, st, segId);
            && g.snap == MaxLsn(st.mem) && ToMap(g.rows) == LiveOf(ToMap(st.mem), None)
            && WriteSegment(c, st, segId).segs == st.segs + [g]
            && SegsOk(c.shard, st.segs + [g], st.meta)
            && Stored(st.segs + [g]) == Stored(st.segs) + ToMap(g.rows)
            && MaxSnap(st.segs + [g]) == g.snap
  {
    FlushableTop(c, st);
    LiveRowsAre(st.mem, None);
    NewestLast(c.shard, st.segs, FlushedSegment(c, st, segId), st.meta);
  }

  lemma WriteSegmentMaps(c: Config, st: Lsm, segId: string)
    requires Layered(c, st) && Flushable(st)
    ensures MapsOf(WriteSegment(c, st, segId)) == SegmentStep(MapsOf(st), MaxLsn(st.mem))
  {
    CaptureMaps(st);
    Listed(c, st, segId);
  }

  lemma WriteSegmentLayered(c: Config, st: Lsm, segId: string)
    requires Layered(c, st) && Flushable(st)
    ensures Layered(c, WriteSegment(c, st, segId))
  {
    Listed(c, st, segId);
  }

  lemma FlushedFields(c: Config, st: Lsm, segId: string)
    requires Flushable(st)
    ensures FlushMem(c, st, segId).segs == WriteSegment(c, st, segId).segs
    ensures FlushMem(c, st, segId).log == From(st.log, MaxLsn(st.mem) + 1)
    ensures FlushMem(c, st, segId).mem == [] && WriteSegment(c, st, segId).mem == []
    ensures FlushMem(c, st, segId).tombs == WriteSegment(c, st, segId).tombs
    ensures FlushMem(c, st, segId).diskTombs == WriteSegment(c, st, segId).diskTombs
  {
  }

  lemma TruncatedTop(c: Config, st: Lsm, segId: string)
    requires Layered(c, st) && Flushable(st)
    ensures MaxSnap(WriteSegment(c, st, segId).segs) == MaxLsn(st.mem)
  {
    Listed(c, st, segId);
  }

  // Truncation keeps exactly the records above the newest segment's snapshot.
  lemma TruncationKeepsNewer(c: Config, st: Lsm, segId: string)
    requires Layered(c, st) && Flushable(st)
    ensures FlushMem(c, st, segId).log == From(st.log, MaxSnap(FlushMem(c, st, segId).segs) + 1)
  {
    FlushedFields(c, st, segId);
    TruncatedTop(c, st, segId);
  }

  // A flush rewrites the tombstone file exactly when a delete marker is buffered, with
  // those markers added.
  lemma FlushWritesTombstones(c: Config, st: Lsm, segId: string)
    ensures var b, marked := FlushMem(c, st, segId), Deletions(ToMap(st.mem));
            && b.tombs == st.tombs + marked
            && b.diskTombs == if marked == {} then st.diskTombs else st.tombs + marked
  {
    DeletedIdsAre(st.mem, None);
    assert DeletedIds(st.mem, None) == Deletions(ToMap(st.mem));
    if Flushable(st) {
      FlushedFields(c, st, segId);
    }
    assert st.tombs + {} == st.tombs;
  }

  // A merge takes the tombstones of the ids it has dealt with out of memory and file.
  lemma MergeWritesTombstones(c: Config, st: Lsm, mergedId: string)
    requires |st.segs| >= c.mergeThreshold
    ensures var b := MergeOldest(c, st, mergedId);
            b.tombs == st.tombs - Stored(st.segs[..c.mergeThreshold]).Keys && b.diskTombs == b.tombs
  {
    CleanedAre(st.segs[..c.mergeThreshold], st.tombs);
    var held := Stored(st.segs[..c.mergeThreshold]).Keys;
    assert st.tombs - held * st.tombs == st.tombs - held;
  }

  lemma FlushableTops(c: Config, st: Lsm)
    requires Layered(c, st) && Flushable(st)
    ensures Tops(MapsOf(st), MaxLsn(st.mem))
  {
    FlushableTop(c, st);
    MaxLsnIs(st.mem);
    assert LiveRows([], None) == [];
  }

  // A log whose writes are all at most `top` has nothing after it.
  lemma NothingAfter(log: seq<Record>, top: nat)
    requires LsnsAscend(log) && After(ToMap(Replay(log)), top) == map[]
    ensures ToMap(Replay(From(log, top + 1))) == map[] && DeletedBy(From(log, top + 1)) == {}
  {
    ReplayFrom(log, top);
    DeletedByIs(From(log, top + 1));
  }

  lemma OtherLogMaps(a: Lsm, b: Lsm)
    requires b.mem == a.mem && b.segs == a.segs && b.tombs == a.tombs && b.diskTombs == a.diskTombs
    ensures MapsOf(b) == MapsOf(a).(last := ToMap(Replay(b.log)), dels := DeletedBy(b.log))
  {
  }

  lemma FlushMemMaps(c: Config, st: Lsm, segId: string)
    requires Layered(c, st) && Flushable(st) && Repeats(MapsOf(st))
    ensures MapsOf(FlushMem(c, st, segId)) == FlushStep(MapsOf(st), MaxLsn(st.mem))
  {
    WriteSegmentMaps(c, st, segId);
    FlushedLog(c, st, segId);
    OtherLogMaps(WriteSegment(c, st, segId), FlushMem(c, st, segId));
  }

  // A flush that writes a segment leaves nothing in the log.
  lemma FlushedLog(c: Config, st: Lsm, segId: string)
    requires Layered(c, st) && Flushable(st) && Repeats(MapsOf(st))
    ensures var b, w := FlushMem(c, st, segId), WriteSegment(c, st, segId);
            && ToMap(Replay(b.log)) == map[] && DeletedBy(b.log) == {}
            && b.mem == w.mem && b.segs == w.segs && b.tombs == w.tombs && b.diskTombs == w.diskTombs
  {
    FlushedFields(c, st, segId);
    LogOutdated(c, st);
    NothingAfter(st.log, MaxLsn(st.mem));
  }

  lemma LogOutdated(c: Config, st: Lsm)
    requires Layered(c, st) && Flushable(st) && Repeats(MapsOf(st))
    ensures After(ToMap(Replay(st.log)), MaxLsn(st.mem)) == map[]
  {
    FlushableTops(c, st);
    SegmentOutdates(MapsOf(st), MaxLsn(st.mem));
  }

  lemma ClearMaps(st: Lsm)
    ensures MapsOf(CaptureDeletes(st).(mem := [])) == ClearStep(MapsOf(st))
  {
    CaptureMaps(st);
  }

  lemma SegsOkLater(shard: nat, segs: seq<Segment>, meta: nat, later: nat)
    requires SegsOk(shard, segs, meta) && meta <= later
    ensures SegsOk(shard, segs, later)
  {
  }

  lemma FlushMemLayered(c: Config, st: Lsm, segId: string)
    requires Layered(c, st)
    ensures Layered(c, FlushMem(c, st, segId))
  {
    if Flushable(st) {
      WriteSegmentLayered(c, st, segId);
      FromAscends(st.log, MaxLsn(st.mem) + 1, st.meta);
      SegsOkLater(c.shard, WriteSegment(c, st, segId).segs, st.meta, st.lastLsn);
    }
  }

  // ---- merge --------------------------------------------------------------------------

  lemma AscendingMax(segs: seq<Segment>)
    requires Segments.Ascending(segs) && segs != []
    ensures MaxSnap(segs) == segs[|segs| - 1].snap
  {
    MaxSnapAtMost(segs, segs[|segs| - 1].snap);
  }

  lemma MergedAscends(shard: nat, segs: seq<Segment>, t: nat, m: Segment, meta: nat)
    requires 0 < t <= |segs| && SegsOk(shard, segs, meta)
    requires m.snap == segs[t - 1].snap && m.shard == shard
    ensures SegsOk(shard, [m] + segs[t..], meta)
    ensures MaxSnap([m] + segs[t..]) == MaxSnap(segs)
  {
    var merged := [m] + segs[t..];
    forall i, j | 0 <= i < j < |merged| ensures merged[i].snap < merged[j].snap {
      assert merged[j] == segs[t + j - 1];
      assert i > 0 ==> merged[i] == segs[t + i - 1];
    }
    AscendingMax(segs);
    AscendingMax(merged);
  }

  // The segment a merge writes goes first, in place of what it replaces.
  lemma MergedFirst(shard: nat, segs: seq<Segment>, t: nat, m: Segment, meta: nat)
    requires 0 < t <= |segs| && SegsOk(shard, segs, meta)
    requires m.snap == MaxSnap(segs[..t]) && m.shard == shard
    ensures SegsOk(shard, [m] + segs[t..], meta)
    ensures SortSegs([m] + segs[t..]) == [m] + segs[t..]
    ensures Stored([m] + segs[t..]) == ToMap(m.rows) + Stored(segs[t..])
    ensures MaxSnap([m] + segs[t..]) == MaxSnap(segs)
  {
    AscendingMax(segs[..t]);
    MergedAscends(shard, segs, t, m, meta);
    AscendingIsSorted([m] + segs[t..]);
    StoredConcat([m], segs[t..]);
    StoredOne(m);
  }

  // The oldest segments and what stays, as mappings.
  ghost function Oldest(c: Config, st: Lsm): map<Id, Vec>
    requires |st.segs| >= c.mergeThreshold
  {
    Stored(st.segs[..c.mergeThreshold])
  }

  ghost function Rest(c: Config, st: Lsm): map<Id, Vec>
    requires |st.segs| >= c.mergeThreshold
  {
    Stored(st.segs[c.mergeThreshold..])
  }

  lemma RowsAndTombs(c: Config, st: Lsm)
    requires |st.segs| >= c.mergeThreshold
    ensures var oldest := st.segs[..c.mergeThreshold];
            && DistinctKeys(MergedRows(oldest, st.tombs))
            && ToMap(MergedRows(oldest, st.tombs)) == Oldest(c, st) - st.tombs
            && Cleaned(oldest, st.tombs) == Oldest(c, st).Keys * st.tombs
            && Stored(st.segs) == Oldest(c, st) + Rest(c, st)
            && (MergedRows(oldest, st.tombs) != [] ==> c.mergeThreshold > 0)
  {
    var t := c.mergeThreshold;
    MergedRowsAre(st.segs[..t], st.tombs);
    CleanedAre(st.segs[..t], st.tombs);
    StoredSplit(st.segs, t);
    assert st.segs[..0] == [];
  }

  lemma StoredSplit(segs: seq<Segment>, t: nat)
    requires t <= |segs|
    ensures Stored(segs) == Stored(segs[..t]) + Stored(segs[t..])
  {
    StoredOfParts(segs, segs[..t], segs[t..]);
  }

  lemma StoredOfParts(segs: seq<Segment>, a: seq<Segment>, b: seq<Segment>)
    requires segs == a + b
    ensures Stored(segs) == Stored(a) + Stored(b)
  {
    StoredConcat(a, b);
  }

  lemma RemainingSegs(shard: nat, segs: seq<Segment>, t: nat, meta: nat)
    requires SegsOk(shard, segs, meta) && t <= |segs|
    ensures SegsOk(shard, segs[t..], meta)
    ensures MaxSnap(segs[t..]) == MaxSnap(segs) || (segs[t..] == [] && MaxSnap(segs[t..]) == 0)
  {
    if t < |segs| {
      AscendingMax(segs);
      AscendingMax(segs[t..]);
    }
  }

  // The segment list after a merge.
  lemma MergedSegs(c: Config, st: Lsm, mergedId: string)
    requires Layered(c, st) && |st.segs| >= c.mergeThreshold
    ensures var b := MergeOldest(c, st, mergedId);
            && SegsOk(c.shard, b.segs, st.meta)
            && Stored(b.segs) == (Oldest(c, st) - st.tombs) + Rest(c, st)
            && (MaxSnap(b.segs) == MaxSnap(st.segs) || (MaxSnap(b.segs) == 0 && Stored(b.segs) == map[]))
            && |b.segs| <= |st.segs| - c.mergeThreshold + if c.mergeThreshold == 0 then 0 else 1
  {
    var t := c.mergeThreshold;
    RowsAndTombs(c, st);
    var rows := MergedRows(st.segs[..t], st.tombs);
    if rows == [] {
      RemainingSegs(c.shard, st.segs, t, st.meta);
      EmptyUnder(Oldest(c, st) - st.tombs, Rest(c, st));
    } else {
      MergedFirst(c.shard, st.segs, t, Segment(mergedId, c.shard, MaxSnap(st.segs[..t]), rows), st.meta);
    }
  }

  lemma EmptyUnder<K, V>(a: map<K, V>, b: map<K, V>)
    ensures a == map[] ==> a + b == b
  {
  }

  lemma MergeMaps(c: Config, st: Lsm, mergedId: string)
    requires Layered(c, st) && |st.segs| >= c.mergeThreshold
    ensures var a, b := MapsOf(st), MapsOf(MergeOldest(c, st, mergedId));
            && a.rows == Oldest(c, st) + Rest(c, st)
            && b == MergeStep(a, Oldest(c, st), Rest(c, st), b.snap)
            && (b.snap == a.snap || (b.snap == 0 && b.rows == map[]))
  {
    RowsAndTombs(c, st);
    MergedSegs(c, st, mergedId);
  }

  lemma MergeLayered(c: Config, st: Lsm, mergedId: string)
    requires Layered(c, st)
    ensures Layered(c, Merge(c, st, mergedId))
  {
    if |st.segs| >= c.mergeThreshold {
      MergedSegs(c, st, mergedId);
      EntriesOkLower(ToMap(st.mem), MaxSnap(st.segs), MaxSnap(MergeOldest(c, st, mergedId).segs), st.meta);
    }
  }

  lemma EntriesOkLower(m: map<Id, Entry>, snap: nat, lower: nat, meta: nat)
    requires EntriesOk(m, snap, meta) && lower <= snap
    ensures EntriesOk(m, lower, meta)
  {
  }

  // ---- whole flush ----------------------------------------------------------------------

  lemma FlushLayered(c: Config, st: Lsm, segId: string, mergedId: string)
    requires Layered(c, st)
    ensures Layered(c, Flush(c, st, segId, mergedId))
  {
    FlushMemLayered(c, st, segId);
    MergeLayered(c, FlushMem(c, st, segId), mergedId);
  }

  lemma InsertLayered(c: Config, st: Lsm, ids: seq<Id>, vectors: seq<Vec>, segId: string, mergedId: string)
    requires Layered(c, st)
    ensures Layered(c, Insert(c, st, ids, vectors, segId, mergedId))
  {
    InsertRowsLayered(c, st, ids, vectors);
    FlushLayered(c, InsertRows(c, st, ids, vectors), segId, mergedId);
  }

  // ---- start ----------------------------------------------------------------------------

  // What `start` finds: the segment directories in any order, other shards' too.
  ghost predicate Lists(c: Config, listing: seq<Segment>, segs: seq<Segment>) {
    multiset(Own(c.shard, listing)) == multiset(segs)
  }

  lemma AscendingOnce(segs: seq<Segment>, g: Segment)
    requires Segments.Ascending(segs)
    ensures multiset(segs)[g] <= 1
  {
    if segs != [] {
      var front, last := segs[..|segs| - 1], segs[|segs| - 1];
      AscendingOnce(front, g);
      assert segs == front + [last];
      assert forall i :: 0 <= i < |front| ==> front[i] == segs[i] && segs[i] != last;
    }
  }

  lemma SortedIsAscending(segs: seq<Segment>, sorted: seq<Segment>, i: nat, j: nat)
    requires Segments.Ascending(segs) && multiset(sorted) == multiset(segs) && Sorted(SegLe, sorted)
    requires i < j < |sorted|
    ensures sorted[i].snap < sorted[j].snap
  {
    assert SegLe(sorted[i], sorted[j]);
    SameMembers(sorted, segs);
    assert sorted[i] in sorted && sorted[j] in sorted;
    var k :| 0 <= k < |segs| && segs[k] == sorted[i];
    var l :| 0 <= l < |segs| && segs[l] == sorted[j];
    if sorted[i].snap == sorted[j].snap {
      assert k == l;
      TwoPositions(sorted, i, j);
      AscendingOnce(segs, sorted[i]);
    }
  }

  lemma LastHasMaxSnap(a: seq<Segment>, g: Segment)
    requires Segments.Ascending(a) && g in a
    ensures g.snap <= a[|a| - 1].snap
    ensures g.snap == a[|a| - 1].snap ==> g == a[|a| - 1]
  {
  }

  lemma SameLastSegment(a: seq<Segment>, b: seq<Segment>)
    requires Segments.Ascending(a) && Segments.Ascending(b) && multiset(a) == multiset(b) && a != [] && b != []
    ensures a[|a| - 1] == b[|b| - 1]
    ensures Segments.Ascending(a[..|a| - 1]) && Segments.Ascending(b[..|b| - 1])
  {
    SameMembers(a, b);
    LastHasMaxSnap(b, a[|a| - 1]);
    LastHasMaxSnap(a, b[|b| - 1]);
  }

  lemma {:induction false} AscendingUnique(a: seq<Segment>, b: seq<Segment>)
    requires Segments.Ascending(a) && Segments.Ascending(b) && multiset(a) == multiset(b)
    ensures a == b
  {
    SameLength(a, b);
    if a != [] {
      SameLastSegment(a, b);
      DropLast(a);
      DropLast(b);
      AscendingUnique(a[..|a| - 1], b[..|b| - 1]);
      AddBack(a, b);
    }
  }

  // Loading and sorting the directories restores the segment list.
  lemma ListingRestoresSegments(c: Config, listing: seq<Segment>, segs: seq<Segment>)
    requires Segments.Ascending(segs) && Lists(c, listing, segs)
    ensures SortSegs(Own(c.shard, listing)) == segs
  {
    var sorted := SortSegs(Own(c.shard, listing));
    SegLeIsOrder();
    SortSorts(SegLe, Own(c.shard, listing));
    forall i, j | 0 <= i < j < |sorted| ensures sorted[i].snap < sorted[j].snap {
      SortedIsAscending(segs, sorted, i, j);
    }
    AscendingUnique(sorted, segs);
  }

  lemma {:induction false} OwnAll(shard: nat, segs: seq<Segment>)
    requires forall i :: 0 <= i < |segs| ==> segs[i].shard == shard
    ensures Own(shard, segs) == segs
  {
    if segs != [] {
      OwnAll(shard, segs[1..]);
    }
  }

  // A new process on what st left on disk.
  function Restart(c: Config, st: Lsm): Lsm {
    Start(c, st.segs, st.diskTombs, st.log, st.meta)
  }

  // The order in which directories are listed does not matter.
  lemma StartIsRestart(c: Config, st: Lsm, listing: seq<Segment>)
    requires Layered(c, st) && Lists(c, listing, st.segs)
    ensures Start(c, listing, st.diskTombs, st.log, st.meta) == Restart(c, st)
    ensures Restart(c, st).segs == st.segs
  {
    ListingRestoresSegments(c, listing, st.segs);
    OwnAll(c.shard, st.segs);
    ListingRestoresSegments(c, st.segs, st.segs);
  }

  lemma RestartFields(c: Config, st: Lsm)
    requires Layered(c, st)
    ensures var b := Restart(c, st);
            && b.segs == st.segs && b.log == st.log && b.diskTombs == st.diskTombs
            && b.lastLsn == b.meta == st.meta
            && b.mem == Replay(Replayed(st.segs, st.log))
            && b.tombs == st.diskTombs + DeletedBy(Replayed(st.segs, st.log))
  {
    OwnAll(c.shard, st.segs);
    StartIsRestart(c, st, st.segs);
  }

  lemma {:induction false} FromAll(rs: seq<Record>, lsn: nat)
    requires forall i :: 0 <= i < |rs| ==> lsn <= rs[i].lsn
    ensures From(rs, lsn) == rs
  {
    if rs != [] {
      FromAll(rs[..|rs| - 1], lsn);
      assert rs == rs[..|rs| - 1] + [rs[|rs| - 1]];
    }
  }

  lemma {:induction false} DeletedByFrom(rs: seq<Record>, lsn: nat)
    ensures DeletedBy(From(rs, lsn)) <= DeletedBy(rs)
  {
    if rs != [] {
      var front, last := rs[..|rs| - 1], rs[|rs| - 1];
      DeletedByFrom(front, lsn);
      if last.lsn >= lsn {
        DeletedBySnoc(From(front, lsn), last);
      } else {
        assert From(front, lsn) + [] == From(front, lsn);
      }
    }
  }

  lemma ReplayedIs(segs: seq<Segment>, log: seq<Record>)
    requires LsnsAscend(log)
    ensures var after := After(ToMap(Replay(log)), MaxSnap(segs));
            && ToMap(Replay(Replayed(segs, log))) == after
            && Deletions(after) <= DeletedBy(Replayed(segs, log)) <= after.Keys
  {
    ReplayFrom(log, MaxSnap(segs));
    DeletedByIs(Replayed(segs, log));
  }

  lemma RestartMaps(c: Config, st: Lsm)
    requires Layered(c, st)
    ensures MapsOf(Restart(c, st)) == StartStep(MapsOf(st), DeletedBy(Replayed(st.segs, st.log)))
    ensures Replayable(MapsOf(st), DeletedBy(Replayed(st.segs, st.log)))
  {
    RestartFields(c, st);
    ReplayedIs(st.segs, st.log);
    StartedMaps(st, Restart(c, st), DeletedBy(Replayed(st.segs, st.log)));
    ReplayableLog(c, st);
  }

  lemma StartedMaps(st: Lsm, b: Lsm, deleted: set<Id>)
    requires b.segs == st.segs && b.log == st.log && b.diskTombs == st.diskTombs && b.tombs == st.diskTombs + deleted
    requires ToMap(b.mem) == After(ToMap(Replay(st.log)), MaxSnap(st.segs))
    ensures MapsOf(b) == StartStep(MapsOf(st), deleted)
  {
  }

  lemma ReplayableLog(c: Config, st: Lsm)
    requires Layered(c, st)
    ensures Replayable(MapsOf(st), DeletedBy(Replayed(st.segs, st.log)))
  {
    ReplayedIs(st.segs, st.log);
    DeletedByFrom(st.log, MaxSnap(st.segs) + 1);
    if MaxSnap(st.segs) == 0 {
      FromAll(st.log, 1);
    }
  }

  lemma RestartLayered(c: Config, st: Lsm)
    requires Layered(c, st)
    ensures Layered(c, Restart(c, st))
  {
    RestartFields(c, st);
    ReplayedIs(st.segs, st.log);
    ReplayBound(st.log);
  }
}
