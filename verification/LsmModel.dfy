// The engine as a state machine: what each operation does to memory, to the
// shared storage and to the log. The class in LsmEngine is proved to take
// exactly these steps; the other Lsm modules prove what the steps preserve.
module LsmModel {
  import opened Wrappers
  import opened ByteCodec
  import opened WalCodec
  import opened WalRecovery
  import WriteAheadLog
  import opened Dicts
  import opened Sorting
  import opened MergeResults
  import opened Segments
  import opened MemTables

  datatype Config = Config(dim: nat, shard: nat, flushThreshold: int, mergeThreshold: nat)

  // `mem`, `segs`, `tombs` and `lastLsn` are the process's; segs, diskTombs, log
  // and meta survive it. `log` is what recovering the log file would return.
  // Between operations the segment directories on disk are exactly `segs`.
  datatype Lsm = Lsm(
    mem: Entries,
    segs: seq<Segment>,
    tombs: set<Id>,
    diskTombs: set<Id>,
    log: seq<Record>,
    meta: nat,
    lastLsn: nat)

  const EMPTY := Lsm([], [], {}, {}, [], 0, 0)

  // ---- write path -----------------------------------------------------------------

  // `wal.append`.
  function Append(st: Lsm, op: byte, ids: seq<Id>, vectors: seq<Vec>): Lsm {
    var lsn := st.lastLsn + 1;
    if Packable(lsn, |ids|) then
      st.(log := st.log + [Record(lsn, op, ids, vectors)], meta := lsn, lastLsn := lsn)
    else
      st.(lastLsn := lsn)
  }

  // Equal except for what the log would recover to.
  ghost predicate SameButLog(a: Lsm, b: Lsm) {
    a.(log := b.log) == b
  }

  lemma AppendIs(st: Lsm, op: byte, ids: seq<Id>, vectors: seq<Vec>, after: Lsm)
    requires if Packable(st.lastLsn + 1, |ids|) then
               after == st.(log := after.log, meta := st.lastLsn + 1, lastLsn := st.lastLsn + 1)
             else after == st.(lastLsn := st.lastLsn + 1)
    ensures SameButLog(after, Append(st, op, ids, vectors))
    ensures Packable(st.lastLsn + 1, |ids|) && after.log == st.log + [Record(st.lastLsn + 1, op, ids, vectors)] ==>
              after == Append(st, op, ids, vectors)
    ensures !Packable(st.lastLsn + 1, |ids|) ==> after == Append(st, op, ids, vectors)
  {
  }

  // The part of `insert` under the lock.
  function InsertRows(c: Config, st: Lsm, ids: seq<Id>, vectors: seq<Vec>): Lsm {
    var a, lsn := Append(st, OP_INSERT, ids, vectors), st.lastLsn + 1;
    if !Packable(lsn, |ids|) then a
    else
      var removed := st.tombs * IdSet(ids);
      var tombs := st.tombs - removed;
      a.(mem := PutAll(st.mem, Zip(ids, vectors), lsn),
         tombs := tombs,
         diskTombs := if removed != {} then tombs else st.diskTombs)
  }

  // Those rows after an append whose log may recover to less.
  lemma InsertRowsIs(c: Config, st: Lsm, ids: seq<Id>, vectors: seq<Vec>, lsn: nat, appended: Lsm, after: Lsm)
    requires Packable(st.lastLsn + 1, |ids|) && lsn == st.lastLsn + 1
    requires SameButLog(appended, Append(st, OP_INSERT, ids, vectors))
    requires var removed := appended.tombs * IdSet(ids);
             after == appended.(mem := PutAll(appended.mem, Zip(ids, vectors), lsn), tombs := appended.tombs - removed,
                                diskTombs := if removed != {} then appended.tombs - removed else appended.diskTombs)
    ensures SameButLog(after, InsertRows(c, st, ids, vectors))
    ensures appended.log == Append(st, OP_INSERT, ids, vectors).log ==> after == InsertRows(c, st, ids, vectors)
  {
  }

  predicate ShouldFlush(c: Config, st: Lsm) {
    |LiveRows(st.mem, None)| >= c.flushThreshold
  }

  // `insert`; segId and mergedId are the directory names a flush and a merge would draw.
  function Insert(c: Config, st: Lsm, ids: seq<Id>, vectors: seq<Vec>, segId: string, mergedId: string): Lsm {
    var a := InsertRows(c, st, ids, vectors);
    if Packable(st.lastLsn + 1, |ids|) && ShouldFlush(c, a) then Flush(c, a, segId, mergedId) else a
  }

  lemma InsertIs(c: Config, st: Lsm, ids: seq<Id>, vectors: seq<Vec>, segId: string, mergedId: string,
      inserted: Lsm, after: Lsm)
    requires Packable(st.lastLsn + 1, |ids|) && inserted == InsertRows(c, st, ids, vectors)
    requires after == if ShouldFlush(c, inserted) then Flush(c, inserted, segId, mergedId) else inserted
    ensures after == Insert(c, st, ids, vectors, segId, mergedId)
  {
  }

  function Zeros(dim: nat, n: nat): (vs: seq<Vec>)
    ensures |vs| == n && forall i :: 0 <= i < n ==> |vs[i]| == dim
    ensures forall i, j :: 0 <= i < n && 0 <= j < dim ==> vs[i][j] == 0
  {
    seq(n, _ => seq(dim, _ => 0))
  }

  function Delete(c: Config, st: Lsm, ids: seq<Id>): Lsm {
    var a, lsn := Append(st, OP_DELETE, ids, Zeros(c.dim, |ids|)), st.lastLsn + 1;
    if !Packable(lsn, |ids|) then a
    else
      var tombs := st.tombs + IdSet(ids);
      a.(mem := DeleteAll(st.mem, ids, lsn), tombs := tombs, diskTombs := tombs)
  }

  // A delete after an append whose log may recover to less.
  lemma DeleteIs(c: Config, st: Lsm, ids: seq<Id>, lsn: nat, appended: Lsm, after: Lsm)
    requires Packable(st.lastLsn + 1, |ids|) && lsn == st.lastLsn + 1
    requires SameButLog(appended, Append(st, OP_DELETE, ids, Zeros(c.dim, |ids|)))
    requires after == appended.(mem := DeleteAll(appended.mem, ids, lsn),
                                tombs := appended.tombs + IdSet(ids), diskTombs := appended.tombs + IdSet(ids))
    ensures SameButLog(after, Delete(c, st, ids))
    ensures appended.log == Append(st, OP_DELETE, ids, Zeros(c.dim, |ids|)).log ==> after == Delete(c, st, ids)
  {
  }

  // ---- flush ------------------------------------------------------------------------

  // Delete markers become persistent tombstones before the memtable goes.
  function CaptureDeletes(st: Lsm): Lsm {
    var deleted := DeletedIds(st.mem, None);
    if deleted == {} then st
    else st.(tombs := st.tombs + deleted, diskTombs := st.tombs + deleted)
  }

  // Whether a flush writes a segment.
  predicate Flushable(st: Lsm) {
    LiveRows(st.mem, None) != [] && MaxLsn(st.mem) != 0
  }

  function FlushedSegment(c: Config, st: Lsm, segId: string): Segment {
    LiveRowsAre(st.mem, None);
    Segment(segId, c.shard, MaxLsn(st.mem), LiveRows(st.mem, None))
  }

  // The segment exists and is listed; the log still holds its records.
  function WriteSegment(c: Config, st: Lsm, segId: string): Lsm {
    var a := CaptureDeletes(st);
    a.(mem := [], segs := SortSegs(a.segs + [FlushedSegment(c, st, segId)]))
  }

  // Memtable to segment, then truncation of the log up to the segment's snapshot.
  function FlushMem(c: Config, st: Lsm, segId: string): Lsm {
    if !Flushable(st) then CaptureDeletes(st).(mem := [])
    else
      var a := WriteSegment(c, st, segId);
      a.(log := From(a.log, MaxLsn(st.mem) + 1), meta := a.lastLsn)
  }

  // The second locked part of `flush`.
  function ListAndTruncate(st: Lsm, created: Segment): Lsm {
    st.(segs := SortSegs(st.segs + [created]), log := From(st.log, created.snap + 1), meta := st.lastLsn)
  }

  lemma ListAndTruncateIs(st: Lsm, created: Segment, listed: Lsm, after: Lsm)
    requires listed == st.(segs := SortSegs(st.segs + [created]))
    requires after == listed.(log := From(listed.log, created.snap + 1), meta := listed.lastLsn)
    ensures after == ListAndTruncate(st, created)
  {
  }

  lemma FlushMemIs(c: Config, st: Lsm, segId: string, cleared: Lsm, after: Lsm)
    requires Flushable(st)
    requires cleared == CaptureDeletes(st).(mem := [])
    requires after == ListAndTruncate(cleared, FlushedSegment(c, st, segId))
    ensures after == FlushMem(c, st, segId)
  {
  }

  function Flush(c: Config, st: Lsm, segId: string, mergedId: string): Lsm {
    var a := FlushMem(c, st, segId);
    if Flushable(st) && |a.segs| >= c.mergeThreshold then Merge(c, a, mergedId) else a
  }

  // ---- merge ------------------------------------------------------------------------

  function PutRows(latest: Rows, rows: seq<(Id, Vec)>): Rows {
    if rows == [] then latest
    else Put(PutRows(latest, rows[..|rows| - 1]), rows[|rows| - 1].0, rows[|rows| - 1].1)
  }

  // The `latest` dictionary of `merge`: later segments overwrite earlier ones.
  function Latest(segs: seq<Segment>): Rows {
    if segs == [] then [] else PutRows(Latest(segs[..|segs| - 1]), segs[|segs| - 1].rows)
  }

  predicate IdLe(a: (Id, Vec), b: (Id, Vec)) {
    a.0 <= b.0
  }

  function DropRows(rows: seq<(Id, Vec)>, tombs: set<Id>): seq<(Id, Vec)> {
    if rows == [] then []
    else (if rows[0].0 in tombs then [] else [rows[0]]) + DropRows(rows[1..], tombs)
  }

  // Surviving rows in id order.
  function MergedRows(segs: seq<Segment>, tombs: set<Id>): seq<(Id, Vec)> {
    DropRows(Sort(IdLe, Latest(segs)), tombs)
  }

  // Tombstones whose rows the merge removes.
  function Cleaned(segs: seq<Segment>, tombs: set<Id>): set<Id> {
    set e | e in Latest(segs) && e.0 in tombs :: e.0
  }

  function MergeOldest(c: Config, st: Lsm, mergedId: string): Lsm
    requires |st.segs| >= c.mergeThreshold
  {
    var toMerge, remaining := st.segs[..c.mergeThreshold], st.segs[c.mergeThreshold..];
    var rows := MergedRows(toMerge, st.tombs);
    var tombs := st.tombs - Cleaned(toMerge, st.tombs);
    var a := st.(tombs := tombs, diskTombs := tombs);
    if rows == [] then a.(segs := remaining)
    else
      MergedRowsAre(toMerge, st.tombs);
      a.(segs := SortSegs([Segment(mergedId, c.shard, MaxSnap(toMerge), rows)] + remaining))
  }

  // The segment a merge writes and returns.
  function MergedSegment(c: Config, st: Lsm, mergedId: string): Option<Segment> {
    if |st.segs| < c.mergeThreshold then None
    else
      var toMerge := st.segs[..c.mergeThreshold];
      var rows := MergedRows(toMerge, st.tombs);
      MergedRowsAre(toMerge, st.tombs);
      if rows == [] then None else Some(Segment(mergedId, c.shard, MaxSnap(toMerge), rows))
  }

  function Merge(c: Config, st: Lsm, mergedId: string): Lsm {
    if |st.segs| < c.mergeThreshold then st else MergeOldest(c, st, mergedId)
  }

  // ---- start ------------------------------------------------------------------------

  function Own(shard: nat, listing: seq<Segment>): seq<Segment> {
    if listing == [] then []
    else (if listing[0].shard == shard then [listing[0]] else []) + Own(shard, listing[1..])
  }

  function ReplayOne(mem: Entries, r: Record): Entries {
    if r.op == OP_INSERT then PutAll(mem, Zip(r.ids, r.vectors), r.lsn)
    else if r.op == OP_DELETE then DeleteAll(mem, r.ids, r.lsn)
    else mem
  }

  function Replay(rs: seq<Record>): Entries {
    if rs == [] then [] else ReplayOne(Replay(rs[..|rs| - 1]), rs[|rs| - 1])
  }

  function DeletedBy(rs: seq<Record>): set<Id> {
    if rs == [] then {}
    else
      var last := rs[|rs| - 1];
      DeletedBy(rs[..|rs| - 1]) + if last.op == OP_DELETE then IdSet(last.ids) else {}
  }

  // The records that `start` replays.
  function Replayed(segs: seq<Segment>, log: seq<Record>): seq<Record> {
    From(log, MaxSnap(segs) + 1)
  }

  // `start` on what is on disk. Replayed deletes reach the tombstones; replayed
  // inserts do not clear them.
  function Start(c: Config, listing: seq<Segment>, diskTombs: set<Id>, log: seq<Record>, meta: nat): Lsm {
    var lastLsn := WriteAheadLog.Max(meta, WriteAheadLog.TailLsn(log));
    var segs := SortSegs(Own(c.shard, listing));
    var records := Replayed(segs, log);
    Lsm(Replay(records), segs, diskTombs + DeletedBy(records), diskTombs, log, lastLsn, lastLsn)
  }

  // ---- search -----------------------------------------------------------------------

  function VisibleSegments(snapshot: nat, segs: seq<Segment>): seq<Segment> {
    if segs == [] then []
    else
      var last := segs[|segs| - 1];
      VisibleSegments(snapshot, segs[..|segs| - 1]) + if last.snap <= snapshot then [last] else []
  }

  function RaiseSnap(latest: map<Id, nat>, rows: seq<(Id, Vec)>, snap: nat): map<Id, nat> {
    if rows == [] then latest
    else
      var m, x := RaiseSnap(latest, rows[..|rows| - 1], snap), rows[|rows| - 1].0;
      m[x := if x in m && m[x] > snap then m[x] else snap]
  }

  // `_latest_segment_snapshot_by_id`.
  function LatestSnap(segs: seq<Segment>): map<Id, nat> {
    if segs == [] then map[]
    else RaiseSnap(LatestSnap(segs[..|segs| - 1]), segs[|segs| - 1].rows, segs[|segs| - 1].snap)
  }

  function Newer(latest: map<Id, nat>, snap: nat): set<Id> {
    set x | x in latest && latest[x] > snap
  }

  function RowIds(rows: seq<(Id, Vec)>): set<Id> {
    set e | e in rows :: e.0
  }

  // Hit lists of the given segments, each with its own hidden ids taken out.
  function SegmentResults(f: Faiss, segs: seq<Segment>, q: Vec, k: nat, nprobe: nat, hidden: set<Id>,
      latest: map<Id, nat>): seq<seq<Hit>> {
    if segs == [] then []
    else
      var g := segs[|segs| - 1];
      SegmentResults(f, segs[..|segs| - 1], q, k, nprobe, hidden, latest) +
      [Unhidden(SegmentHits(f, g.rows, q, k, nprobe), hidden + Newer(latest, g.snap))]
  }

  function SearchResults(f: Faiss, st: Lsm, q: Vec, k: nat, nprobe: nat, snapshot: nat): seq<seq<Hit>> {
    var segs := VisibleSegments(snapshot, st.segs);
    var memHits := MemHits(f, st.mem, q, k, Some(snapshot));
    var hidden := DeletedIds(st.mem, Some(snapshot)) + st.tombs + RowIds(LiveRows(st.mem, Some(snapshot)));
    SegmentResults(f, segs, q, k, nprobe, hidden, LatestSnap(segs)) + if memHits == [] then [] else [memHits]
  }

  function Search(f: Faiss, st: Lsm, q: Vec, k: nat, nprobe: nat, snapshot: nat): seq<Hit> {
    Merged(Flatten(SearchResults(f, st, q, k, nprobe, snapshot)), k, DeletedIds(st.mem, Some(snapshot)) + st.tombs)
  }

  // ---- count ------------------------------------------------------------------------

  function SegmentIds(segs: seq<Segment>): set<Id> {
    if segs == [] then {} else SegmentIds(segs[..|segs| - 1]) + RowIds(segs[|segs| - 1].rows)
  }

  // `ntotal`.
  function Ntotal(st: Lsm): nat {
    |(SegmentIds(st.segs) + RowIds(LiveRows(st.mem, None))) - (DeletedIds(st.mem, None) + st.tombs)|
  }

  // ---- what the merge computes --------------------------------------------------------

  lemma {:induction false} PutRowsIs(latest: Rows, rows: Rows)
    ensures ToMap(PutRows(latest, rows)) == ToMap(latest) + ToMap(rows)
  {
    if rows != [] {
      var n := |rows| - 1;
      LastEntry(rows);
      PutRowsIs(latest, rows[..n]);
      PlusUpdate(ToMap(latest), ToMap(rows[..n]), rows[n].0, rows[n].1);
    }
  }

  lemma LastEntry<K, V>(d: Dict<K, V>)
    requires d != []
    ensures var n := |d| - 1;
            DistinctKeys(d[..n]) && d[n].0 !in ToMap(d[..n]) && ToMap(d) == ToMap(d[..n])[d[n].0 := d[n].1]
  {
    LastIsNew(d);
    SplitLast(d);
    SnocDict(d[..|d| - 1], d[|d| - 1].0, d[|d| - 1].1);
  }

  lemma SplitLast<K, V>(d: seq<(K, V)>)
    requires d != []
    ensures d == d[..|d| - 1] + [(d[|d| - 1].0, d[|d| - 1].1)]
  {
  }

  lemma LastIsNew<K, V>(d: Dict<K, V>)
    requires d != []
    ensures DistinctKeys(d[..|d| - 1]) && d[|d| - 1].0 !in ToMap(d[..|d| - 1])
  {
    var n := |d| - 1;
    SliceDistinct(d, 0, n);
    assert d[0..n] == d[..n];
    if d[n].0 in ToMap(d[..n]) {
      var i := IndexFor(d[..n], d[n].0);
      DistinctAt(d, i, n);
    }
  }

  lemma {:induction false} SnocDict<K, V>(d: seq<(K, V)>, k: K, v: V)
    requires k !in ToMap(d)
    ensures ToMap(d + [(k, v)]) == ToMap(d)[k := v]
  {
    if d == [] {
      assert d + [(k, v)] == [(k, v)];
    } else {
      SnocDict(d[1..], k, v);
      assert (d + [(k, v)])[1..] == d[1..] + [(k, v)];
    }
  }

  lemma {:induction false} LatestIsStored(segs: seq<Segment>)
    ensures ToMap(Latest(segs)) == Stored(segs)
  {
    if segs != [] {
      LatestIsStored(segs[..|segs| - 1]);
      PutRowsIs(Latest(segs[..|segs| - 1]), segs[|segs| - 1].rows);
    }
  }

  lemma {:induction false} DropRowsAre(rows: Rows, tombs: set<Id>)
    ensures DistinctKeys(DropRows(rows, tombs))
    ensures ToMap(DropRows(rows, tombs)) == ToMap(rows) - tombs
  {
    if rows != [] {
      var (x, v) := rows[0];
      DropRowsAre(rows[1..], tombs);
      ConsDict(DropRows(rows[1..], tombs), x, v);
      assert [] + DropRows(rows[1..], tombs) == DropRows(rows[1..], tombs);
      UpdateMinus(ToMap(rows[1..]), x, v, tombs);
    }
  }

  lemma UpdateMinus<K, V>(m: map<K, V>, k: K, v: V, drop: set<K>)
    requires k !in m
    ensures m[k := v] - drop == if k in drop then m - drop else (m - drop)[k := v]
  {
  }

  lemma MergedRowsAre(segs: seq<Segment>, tombs: set<Id>)
    ensures DistinctKeys(MergedRows(segs, tombs))
    ensures ToMap(MergedRows(segs, tombs)) == Stored(segs) - tombs
  {
    LatestIsStored(segs);
    RearrangedDict(Latest(segs), Sort(IdLe, Latest(segs)));
    DropRowsAre(Sort(IdLe, Latest(segs)), tombs);
  }

  // Each row's id is larger than the one's before it.
  ghost predicate AscendingIds(rows: seq<(Id, Vec)>) {
    forall i, j :: 0 <= i < j < |rows| ==> rows[i].0 < rows[j].0
  }

  lemma {:induction false} DropKeepsAscending(rows: seq<(Id, Vec)>, tombs: set<Id>)
    requires AscendingIds(rows)
    ensures AscendingIds(DropRows(rows, tombs)) && forall e :: e in DropRows(rows, tombs) ==> e in rows
  {
    if rows != [] {
      DropKeepsAscending(rows[1..], tombs);
      var rest := DropRows(rows[1..], tombs);
      forall j | 0 <= j < |rest| ensures rows[0].0 < rest[j].0 {
        assert rest[j] in rows[1..];
      }
    }
  }

  // A merged segment lists its rows by ascending id.
  lemma MergedRowsAscend(segs: seq<Segment>, tombs: set<Id>)
    ensures AscendingIds(MergedRows(segs, tombs))
  {
    var d, sorted := Latest(segs), Sort(IdLe, Latest(segs));
    SortSorts(IdLe, d);
    RearrangedDict(d, sorted);
    forall i, j | 0 <= i < j < |sorted| ensures sorted[i].0 < sorted[j].0 {
      assert IdLe(sorted[i], sorted[j]);
      DistinctAt(sorted, i, j);
    }
    DropKeepsAscending(sorted, tombs);
  }

  lemma CleanedAre(segs: seq<Segment>, tombs: set<Id>)
    ensures Cleaned(segs, tombs) == Stored(segs).Keys * tombs
  {
    LatestIsStored(segs);
    RowIdsAre(Latest(segs));
    assert Cleaned(segs, tombs) == RowIds(Latest(segs)) * tombs;
  }

  lemma RowIdsAre(rows: Rows)
    ensures RowIds(rows) == ToMap(rows).Keys
  {
    forall e | e in rows ensures e.0 in ToMap(rows) {
      var i :| 0 <= i < |rows| && rows[i] == e;
      EntryAt(rows, i);
    }
    forall x | x in ToMap(rows) ensures x in RowIds(rows) {
      var i := IndexFor(rows, x);
      assert rows[i] in rows;
    }
  }
}
