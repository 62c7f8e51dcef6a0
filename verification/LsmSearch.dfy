// What `search` and `ntotal` return, against the logical map.
module LsmSearch {
  import opened Wrappers
  import opened WalCodec
  import opened Dicts
  import opened Sorting
  import opened MergeResults
  import opened ScatterGather
  import opened Segments
  import opened MemTables
  import opened LsmModel
  import opened LsmMaps
  import opened LsmInvariants
  import opened LsmHistory

  // ---- sources ------------------------------------------------------------------------

  // Ids a segment search must not return: deleted, rewritten in the memtable, or
  // rewritten in a newer visible segment.
  function Hidden(st: Lsm, snapshot: nat): set<Id> {
    DeletedAt(st, snapshot) + RowIds(LiveRows(st.mem, Some(snapshot)))
  }

  function DeletedAt(st: Lsm, snapshot: nat): set<Id> {
    DeletedIds(st.mem, Some(snapshot)) + st.tombs
  }

  function HiddenFrom(st: Lsm, snapshot: nat, g: Segment): set<Id> {
    Hidden(st, snapshot) + Newer(LatestSnap(VisibleSegments(snapshot, st.segs)), g.snap)
  }

  lemma {:induction false} SegmentResultsAt(f: Faiss, segs: seq<Segment>, q: Vec, k: nat, nprobe: nat,
      hidden: set<Id>, latest: map<Id, nat>)
    ensures var rs := SegmentResults(f, segs, q, k, nprobe, hidden, latest);
            && |rs| == |segs|
            && forall i :: 0 <= i < |segs| ==>
                 rs[i] == Unhidden(SegmentHits(f, segs[i].rows, q, k, nprobe), hidden + Newer(latest, segs[i].snap))
  {
    if segs != [] {
      SegmentResultsAt(f, segs[..|segs| - 1], q, k, nprobe, hidden, latest);
    }
  }

  // A hit comes from the memtable or from a visible segment that may show it.
  lemma HitSource(f: Faiss, st: Lsm, q: Vec, k: nat, nprobe: nat, snapshot: nat, h: Hit)
    ensures var segs := VisibleSegments(snapshot, st.segs);
            h in Flatten(SearchResults(f, st, q, k, nprobe, snapshot)) <==>
            || h in MemHits(f, st.mem, q, k, Some(snapshot))
            || exists i :: 0 <= i < |segs| && h in SegmentHits(f, segs[i].rows, q, k, nprobe)
                                           && h.id !in HiddenFrom(st, snapshot, segs[i])
  {
    var segs := VisibleSegments(snapshot, st.segs);
    var memHits := MemHits(f, st.mem, q, k, Some(snapshot));
    var latest := LatestSnap(segs);
    var rs := SegmentResults(f, segs, q, k, nprobe, Hidden(st, snapshot), latest);
    var all := SearchResults(f, st, q, k, nprobe, snapshot);
    SegmentResultsAt(f, segs, q, k, nprobe, Hidden(st, snapshot), latest);
    InFlatten(all, h);
    forall i | 0 <= i < |segs|
      ensures h in rs[i] <==>
              h in SegmentHits(f, segs[i].rows, q, k, nprobe) && h.id !in HiddenFrom(st, snapshot, segs[i])
    {
      UnhiddenMembers(SegmentHits(f, segs[i].rows, q, k, nprobe), HiddenFrom(st, snapshot, segs[i]));
    }
    assert all == rs + if memHits == [] then [] else [memHits];
    if h in memHits {
      assert all[|rs|] == memHits;
    }
    forall i | 0 <= i < |rs| ensures all[i] == rs[i] {
    }
  }

  // ---- newest segments --------------------------------------------------------------------

  lemma RaiseOne(m: map<Id, nat>, latest: map<Id, nat>, held: set<Id>, x: Id, snap: nat, r: map<Id, nat>)
    requires m.Keys == latest.Keys + held && forall y :: y in latest ==> latest[y] <= snap
    requires forall y :: y in m ==> m[y] == if y in held then snap else latest[y]
    requires r == m[x := if x in m && m[x] > snap then m[x] else snap]
    ensures r.Keys == latest.Keys + (held + {x})
    ensures forall y :: y in r ==> r[y] == if y in held + {x} then snap else latest[y]
  {
  }

  lemma {:induction false} RaiseSnapIs(latest: map<Id, nat>, rows: Rows, snap: nat)
    requires forall x :: x in latest ==> latest[x] <= snap
    ensures var m := RaiseSnap(latest, rows, snap);
            && m.Keys == latest.Keys + ToMap(rows).Keys
            && forall x :: x in m ==> m[x] == if x in ToMap(rows) then snap else latest[x]
  {
    if rows != [] {
      var n := |rows| - 1;
      var held := ToMap(rows[..n]).Keys;
      LastEntry(rows);
      RaiseSnapIs(latest, rows[..n], snap);
      RaiseOne(RaiseSnap(latest, rows[..n], snap), latest, held, rows[n].0, snap, RaiseSnap(latest, rows, snap));
      assert ToMap(rows).Keys == held + {rows[n].0};
    }
  }

  // The newest segment that holds x: it gives the stored vector and the latest snapshot.
  lemma {:induction false} NewestHolder(segs: seq<Segment>, x: Id) returns (i: nat)
    requires Segments.Ascending(segs) && x in Stored(segs)
    ensures i < |segs| && x in ToMap(segs[i].rows)
    ensures Stored(segs)[x] == ToMap(segs[i].rows)[x]
    ensures x in LatestSnap(segs) && LatestSnap(segs)[x] == segs[i].snap
  {
    var n := |segs| - 1;
    LatestBelow(segs[..n], segs[n].snap);
    RaiseSnapIs(LatestSnap(segs[..n]), segs[n].rows, segs[n].snap);
    if x in ToMap(segs[n].rows) {
      i := n;
    } else {
      i := NewestHolder(segs[..n], x);
    }
  }

  lemma {:induction false} LatestBelow(segs: seq<Segment>, snap: nat)
    requires Segments.Ascending(segs) && forall i :: 0 <= i < |segs| ==> segs[i].snap <= snap
    ensures LatestSnap(segs).Keys == Stored(segs).Keys
    ensures forall x :: x in LatestSnap(segs) ==> LatestSnap(segs)[x] <= snap
  {
    if segs != [] {
      var n := |segs| - 1;
      LatestBelow(segs[..n], segs[n].snap);
      RaiseSnapIs(LatestSnap(segs[..n]), segs[n].rows, segs[n].snap);
    }
  }

  // A row no newer segment rewrites is the stored row.
  lemma UnhiddenIsStored(segs: seq<Segment>, i: nat, x: Id)
    requires Segments.Ascending(segs) && i < |segs| && x in ToMap(segs[i].rows)
    ensures x in Stored(segs)
    ensures x !in Newer(LatestSnap(segs), segs[i].snap) ==> Stored(segs)[x] == ToMap(segs[i].rows)[x]
  {
    HeldIsStored(segs, i, x);
    var j := NewestHolder(segs, x);
    if x !in Newer(LatestSnap(segs), segs[i].snap) {
      assert segs[j].snap <= segs[i].snap;
      NewestIsLater(segs, i, j, x);
    }
  }

  lemma {:induction false} SnapIsAtMostLatest(segs: seq<Segment>, i: nat, x: Id)
    requires Segments.Ascending(segs) && i < |segs| && x in ToMap(segs[i].rows)
    ensures x in LatestSnap(segs) && segs[i].snap <= LatestSnap(segs)[x]
  {
    var n := |segs| - 1;
    LatestBelow(segs[..n], segs[n].snap);
    RaiseSnapIs(LatestSnap(segs[..n]), segs[n].rows, segs[n].snap);
    if i < n {
      SnapIsAtMostLatest(segs[..n], i, x);
    }
  }

  lemma NewestIsLater(segs: seq<Segment>, i: nat, j: nat, x: Id)
    requires Segments.Ascending(segs) && i < |segs| && j < |segs| && x in ToMap(segs[i].rows)
    requires x in LatestSnap(segs) && LatestSnap(segs)[x] == segs[j].snap <= segs[i].snap
    ensures i == j
  {
    SnapIsAtMostLatest(segs, i, x);
  }

  lemma {:induction false} AllVisible(segs: seq<Segment>, snapshot: nat)
    requires forall i :: 0 <= i < |segs| ==> segs[i].snap <= snapshot
    ensures VisibleSegments(snapshot, segs) == segs
  {
    if segs != [] {
      AllVisible(segs[..|segs| - 1], snapshot);
      assert segs == segs[..|segs| - 1] + [segs[|segs| - 1]];
    }
  }

  // ---- the memtable at the current snapshot -------------------------------------------------

  // From st.meta on, a snapshot sees the whole memtable and every segment.
  lemma CurrentSnapshot(c: Config, st: Lsm, snapshot: nat)
    requires Layered(c, st) && st.meta <= snapshot
    ensures VisibleSegments(snapshot, st.segs) == st.segs
    ensures DeletedAt(st, snapshot) == Deletions(ToMap(st.mem)) + st.tombs
    ensures ToMap(LiveRows(st.mem, Some(snapshot))) == LiveOf(ToMap(st.mem), None)
    ensures RowIds(LiveRows(st.mem, Some(snapshot))) == LiveOf(ToMap(st.mem), None).Keys
  {
    AllVisible(st.segs, snapshot);
    DeletedIdsAre(st.mem, Some(snapshot));
    assert DeletedIds(st.mem, Some(snapshot)) == Deletions(ToMap(st.mem));
    LiveRowsAre(st.mem, Some(snapshot));
    assert LiveOf(ToMap(st.mem), Some(snapshot)) == LiveOf(ToMap(st.mem), None);
    RowIdsAre(LiveRows(st.mem, Some(snapshot)));
  }

  lemma MemHitIsTrue(f: Faiss, mem: Entries, q: Vec, k: nat, snapshot: Option<nat>, h: Hit)
    requires Sound(f) && h in MemHits(f, mem, q, k, snapshot)
    ensures var rows := LiveOf(ToMap(mem), snapshot);
            h.id in rows && h.dist == f.dist(q, rows[h.id]) && h.id >= 0
  {
    LiveRowsAre(mem, snapshot);
    var rows: Rows := LiveRows(mem, snapshot);
    var raw := f.flat(rows, q, Min(k, |rows|));
    NonNegativeMembers(raw);
    assert NearestHits(f.dist, rows, q, Min(k, |rows|), raw);
    var i :| 0 <= i < |raw| && raw[i] == h;
  }

  lemma SegmentHitIsTrue(f: Faiss, rows: Rows, q: Vec, k: nat, nprobe: nat, h: Hit)
    requires Sound(f) && h in SegmentHits(f, rows, q, k, nprobe)
    ensures h.id in ToMap(rows) && h.dist == f.dist(q, ToMap(rows)[h.id]) && h.id >= 0
  {
    var raw := f.index(rows, q, k, nprobe);
    NonNegativeMembers(raw);
    assert TrueHits(f.dist, rows, q, k, raw);
    var i :| 0 <= i < |raw| && raw[i] == h;
  }

  // ---- soundness ----------------------------------------------------------------------------

  ghost predicate IsCurrent(f: Faiss, st: Lsm, q: Vec, h: Hit) {
    h.id in View(st) && h.dist == f.dist(q, View(st)[h.id]) && h.id >= 0
  }

  lemma HitIsCurrent(c: Config, f: Faiss, st: Lsm, q: Vec, k: nat, nprobe: nat, snapshot: nat, h: Hit)
    requires Layered(c, st) && Sound(f) && st.meta <= snapshot
    requires h in Flatten(SearchResults(f, st, q, k, nprobe, snapshot)) && h.id !in DeletedAt(st, snapshot)
    ensures IsCurrent(f, st, q, h)
  {
    CurrentSnapshot(c, st, snapshot);
    HitSource(f, st, q, k, nprobe, snapshot, h);
    if h in MemHits(f, st.mem, q, k, Some(snapshot)) {
      MemHitIsTrue(f, st.mem, q, k, Some(snapshot), h);
    } else {
      var i :| 0 <= i < |st.segs| && h in SegmentHits(f, st.segs[i].rows, q, k, nprobe)
                                  && h.id !in HiddenFrom(st, snapshot, st.segs[i]);
      SegmentHitIsTrue(f, st.segs[i].rows, q, k, nprobe, h);
      UnhiddenIsStored(st.segs, i, h.id);
    }
  }

  // Search at the current snapshot is sound in every layered state: each result
  // is live, at the distance of its current vector, once, nearest first.
  lemma SearchIsSound(c: Config, f: Faiss, st: Lsm, q: Vec, k: nat, nprobe: nat)
    requires Layered(c, st) && Sound(f)
    ensures var r := Search(f, st, q, k, nprobe, st.lastLsn);
            && |r| <= k && MergeResults.Ascending(r) && DistinctIds(r)
            && forall i :: 0 <= i < |r| ==> IsCurrent(f, st, q, r[i])
  {
    var hits := Flatten(SearchResults(f, st, q, k, nprobe, st.lastLsn));
    var r := Search(f, st, q, k, nprobe, st.lastLsn);
    MergedIsWellFormed(hits, k, DeletedAt(st, st.lastLsn));
    forall i | 0 <= i < |r| ensures IsCurrent(f, st, q, r[i]) {
      HitIsCurrent(c, f, st, q, k, nprobe, st.lastLsn, r[i]);
    }
  }

  // ---- exactness ------------------------------------------------------------------------------

  // The ids of a map within distance d that a search can return: FAISS's unfilled-slot
  // mask drops negative ones.
  ghost function NearIn(f: Faiss, m: map<Id, Vec>, q: Vec, d: real): set<Id> {
    set x | x in m && x >= 0 && f.dist(q, m[x]) <= d
  }

  ghost function Near(f: Faiss, st: Lsm, q: Vec, d: real): set<Id> {
    NearIn(f, View(st), q, d)
  }

  ghost predicate Covers(rows: Rows, raw: seq<Hit>) {
    forall x :: x in ToMap(rows) ==> exists i :: 0 <= i < |raw| && raw[i].id == x
  }

  ghost predicate NoneDropped(raw: seq<Hit>, hidden: set<Id>) {
    forall i :: 0 <= i < |raw| ==> raw[i].id >= 0 && raw[i].id !in hidden
  }

  // Every segment search is exact, and each hit list either covers its whole
  // segment or lost no hit to filtering; likewise the memtable's.
  ghost predicate Undisturbed(f: Faiss, st: Lsm, q: Vec, k: nat, nprobe: nat, snapshot: nat) {
    && (forall i :: 0 <= i < |st.segs| ==>
          var g := st.segs[i];
          var raw := f.index(g.rows, q, k, nprobe);
          && NearestHits(f.dist, g.rows, q, k, raw)
          && (Covers(g.rows, raw) || NoneDropped(raw, HiddenFrom(st, snapshot, g))))
    && (var rows := MemRows(st, snapshot);
        var raw := f.flat(rows, q, Min(k, |rows|));
        Covers(rows, raw) || NoneDropped(raw, DeletedAt(st, snapshot)))
  }

  // The same for the hits within distance d.
  ghost predicate NoneDroppedTo(raw: seq<Hit>, hidden: set<Id>, d: real) {
    forall i :: 0 <= i < |raw| && raw[i].dist <= d ==> raw[i].id >= 0 && raw[i].id !in hidden
  }

  ghost predicate UndisturbedTo(f: Faiss, st: Lsm, q: Vec, k: nat, nprobe: nat, snapshot: nat, d: real) {
    && (forall i :: 0 <= i < |st.segs| ==>
          var g := st.segs[i];
          var raw := f.index(g.rows, q, k, nprobe);
          && NearestHits(f.dist, g.rows, q, k, raw)
          && (Covers(g.rows, raw) || NoneDroppedTo(raw, HiddenFrom(st, snapshot, g), d)))
    && (var rows := MemRows(st, snapshot);
        var raw := f.flat(rows, q, Min(k, |rows|));
        Covers(rows, raw) || NoneDroppedTo(raw, DeletedAt(st, snapshot), d))
  }

  ghost function MemRows(st: Lsm, snapshot: nat): Rows {
    LiveRowsAre(st.mem, Some(snapshot));
    LiveRows(st.mem, Some(snapshot))
  }

  // One source cannot hide a near id: either it has a hit on it, or its k hits
  // are all at least as near and all survive.
  lemma SourceIsComplete(dist: (Vec, Vec) -> real, rows: Rows, q: Vec, k: nat, n: nat, raw: seq<Hit>,
      hits: seq<Hit>, deleted: set<Id>, d: real, x: Id)
    requires NearestHits(dist, rows, q, n, raw) && (n == k || n == |rows|)
    requires x in ToMap(rows) && dist(q, ToMap(rows)[x]) <= d && x !in deleted
    requires forall i :: 0 <= i < |raw| && raw[i].id == x ==> raw[i] in hits
    requires Covers(rows, raw) ||
             forall i :: 0 <= i < |raw| && raw[i].dist <= d ==> raw[i] in hits && raw[i].id !in deleted
    requires |Within(hits, deleted, d)| < k
    ensures x in Within(hits, deleted, d)
  {
    if exists i :: 0 <= i < |raw| && raw[i].id == x {
      var i :| 0 <= i < |raw| && raw[i].id == x;
      assert raw[i] in hits;
    } else {
      UnseenMeansFull(dist, rows, q, n, raw, x);
      var ids := IdsOf(raw);
      forall y | y in ids ensures y in Within(hits, deleted, d) {
        var i :| 0 <= i < |raw| && raw[i].id == y;
        assert raw[i].dist <= dist(q, ToMap(rows)[x]);
        assert raw[i] in hits;
      }
      SubsetSize(ids, Within(hits, deleted, d));
      assert false;
    }
  }

  // An exact search that misses a row has returned as many hits as it was asked for.
  lemma UnseenMeansFull(dist: (Vec, Vec) -> real, rows: Rows, q: Vec, n: nat, raw: seq<Hit>, x: Id)
    requires NearestHits(dist, rows, q, n, raw) && x in ToMap(rows)
    requires forall i :: 0 <= i < |raw| ==> raw[i].id != x
    ensures |raw| == n < |rows|
  {
    var ids := IdsOf(raw);
    SizeIsLength(rows);
    assert |ToMap(rows).Keys| == |rows|;
    SubsetSize(ids, ToMap(rows).Keys - {x});
  }

  lemma NearIsFound(c: Config, f: Faiss, st: Lsm, q: Vec, k: nat, nprobe: nat, d: real, x: Id)
    requires Layered(c, st) && Sound(f) && UndisturbedTo(f, st, q, k, nprobe, st.lastLsn, d)
    requires x in Near(f, st, q, d)
    requires |Within(Flatten(SearchResults(f, st, q, k, nprobe, st.lastLsn)), DeletedAt(st, st.lastLsn), d)| < k
    ensures x in Within(Flatten(SearchResults(f, st, q, k, nprobe, st.lastLsn)), DeletedAt(st, st.lastLsn), d)
  {
    if x in ToMap(st.mem) {
      NearInMemory(c, f, st, q, k, nprobe, d, x);
    } else {
      NearInSegment(c, f, st, q, k, nprobe, d, x);
    }
  }

  lemma NearInMemory(c: Config, f: Faiss, st: Lsm, q: Vec, k: nat, nprobe: nat, d: real, x: Id)
    requires Layered(c, st) && Sound(f) && UndisturbedTo(f, st, q, k, nprobe, st.lastLsn, d)
    requires x in Near(f, st, q, d) && x in ToMap(st.mem)
    requires |Within(Flatten(SearchResults(f, st, q, k, nprobe, st.lastLsn)), DeletedAt(st, st.lastLsn), d)| < k
    ensures x in Within(Flatten(SearchResults(f, st, q, k, nprobe, st.lastLsn)), DeletedAt(st, st.lastLsn), d)
  {
    var s := st.lastLsn;
    var hits, deleted := Flatten(SearchResults(f, st, q, k, nprobe, s)), DeletedAt(st, s);
    CurrentSnapshot(c, st, s);
    var rows := MemRows(st, s);
    var raw := f.flat(rows, q, Min(k, |rows|));
    assert NearestHits(f.dist, rows, q, Min(k, |rows|), raw);
    assert rows != [];
    NonNegativeMembers(raw);
    forall i | 0 <= i < |raw| && raw[i].id >= 0 ensures raw[i] in hits {
      HitSource(f, st, q, k, nprobe, s, raw[i]);
    }
    SourceIsComplete(f.dist, rows, q, k, Min(k, |rows|), raw, hits, deleted, d, x);
  }

  lemma NearInSegment(c: Config, f: Faiss, st: Lsm, q: Vec, k: nat, nprobe: nat, d: real, x: Id)
    requires Layered(c, st) && Sound(f) && UndisturbedTo(f, st, q, k, nprobe, st.lastLsn, d)
    requires x in Near(f, st, q, d) && x !in ToMap(st.mem)
    requires |Within(Flatten(SearchResults(f, st, q, k, nprobe, st.lastLsn)), DeletedAt(st, st.lastLsn), d)| < k
    ensures x in Within(Flatten(SearchResults(f, st, q, k, nprobe, st.lastLsn)), DeletedAt(st, st.lastLsn), d)
  {
    var s := st.lastLsn;
    var hits, deleted := Flatten(SearchResults(f, st, q, k, nprobe, s)), DeletedAt(st, s);
    StoredVector(c, st, x);
    var j := NewestHolder(st.segs, x);
    var g := st.segs[j];
    var raw := f.index(g.rows, q, k, nprobe);
    ShownHitsAreKept(c, f, st, q, k, nprobe, j);
    StoredRowIsShown(c, st, j, x);
    DeletedIsHidden(st, s, g);
    SourceIsComplete(f.dist, g.rows, q, k, k, raw, hits, deleted, d, x);
  }

  lemma ShownHitsAreKept(c: Config, f: Faiss, st: Lsm, q: Vec, k: nat, nprobe: nat, j: nat)
    requires Layered(c, st) && j < |st.segs|
    ensures var raw := f.index(st.segs[j].rows, q, k, nprobe);
            forall i :: 0 <= i < |raw| && raw[i].id >= 0 && raw[i].id !in HiddenFrom(st, st.lastLsn, st.segs[j])
              ==> raw[i] in Flatten(SearchResults(f, st, q, k, nprobe, st.lastLsn))
  {
    var raw := f.index(st.segs[j].rows, q, k, nprobe);
    CurrentSnapshot(c, st, st.lastLsn);
    NonNegativeMembers(raw);
    forall i | 0 <= i < |raw| && raw[i].id >= 0 && raw[i].id !in HiddenFrom(st, st.lastLsn, st.segs[j])
      ensures raw[i] in Flatten(SearchResults(f, st, q, k, nprobe, st.lastLsn))
    {
      HitSource(f, st, q, k, nprobe, st.lastLsn, raw[i]);
    }
  }

  // What is hidden from a segment includes everything deleted.
  lemma DeletedIsHidden(st: Lsm, snapshot: nat, g: Segment)
    ensures DeletedAt(st, snapshot) <= HiddenFrom(st, snapshot, g)
  {
  }

  lemma StoredVector(c: Config, st: Lsm, x: Id)
    requires x in View(st) && x !in ToMap(st.mem)
    ensures x in Stored(st.segs) && View(st)[x] == Stored(st.segs)[x]
  {
  }

  // The newest row of a visible id that is not in the memtable is not hidden.
  lemma StoredRowIsShown(c: Config, st: Lsm, j: nat, x: Id)
    requires Layered(c, st) && x in View(st) && x !in ToMap(st.mem)
    requires j < |st.segs| && x in LatestSnap(st.segs) && LatestSnap(st.segs)[x] == st.segs[j].snap
    ensures x !in HiddenFrom(st, st.lastLsn, st.segs[j]) && x !in DeletedAt(st, st.lastLsn)
  {
    CurrentSnapshot(c, st, st.lastLsn);
  }

  lemma FoundIsNear(c: Config, f: Faiss, st: Lsm, q: Vec, k: nat, nprobe: nat, d: real)
    requires Layered(c, st) && Sound(f)
    ensures var hits := Flatten(SearchResults(f, st, q, k, nprobe, st.lastLsn));
            Within(hits, DeletedAt(st, st.lastLsn), d) <= Near(f, st, q, d)
  {
    var hits, deleted := Flatten(SearchResults(f, st, q, k, nprobe, st.lastLsn)), DeletedAt(st, st.lastLsn);
    forall x | x in Within(hits, deleted, d) ensures x in Near(f, st, q, d) {
      var h: Hit :| h in hits && h.id !in deleted && h.dist <= d && h.id == x;
      HitIsCurrent(c, f, st, q, k, nprobe, st.lastLsn, h);
    }
  }

  // Within distance d the search holds as many ids as the logical map has searchable ids
  // there, up to k, if filtering removed none of the hits there;
  lemma SearchIsExactTo(c: Config, f: Faiss, st: Lsm, q: Vec, k: nat, nprobe: nat, d: real)
    requires Layered(c, st) && Sound(f) && UndisturbedTo(f, st, q, k, nprobe, st.lastLsn, d)
    ensures Within(Search(f, st, q, k, nprobe, st.lastLsn), {}, d) <= Near(f, st, q, d)
    ensures |Within(Search(f, st, q, k, nprobe, st.lastLsn), {}, d)| == Min(k, |Near(f, st, q, d)|)
  {
    var s := st.lastLsn;
    var hits, deleted := Flatten(SearchResults(f, st, q, k, nprobe, s)), DeletedAt(st, s);
    var found, near := Within(hits, deleted, d), Near(f, st, q, d);
    MergedIsTopK(hits, k, deleted, d);
    FoundIsNear(c, f, st, q, k, nprobe, d);
    SubsetSize(found, near);
    if |found| < k {
      forall x | x in near ensures x in found {
        NearIsFound(c, f, st, q, k, nprobe, d, x);
      }
      assert found == near;
    }
  }

  // exact top-k: within any distance, if it removed none at all.
  lemma SearchIsExact(c: Config, f: Faiss, st: Lsm, q: Vec, k: nat, nprobe: nat, d: real)
    requires Layered(c, st) && Sound(f) && Undisturbed(f, st, q, k, nprobe, st.lastLsn)
    ensures Within(Search(f, st, q, k, nprobe, st.lastLsn), {}, d) <= Near(f, st, q, d)
    ensures |Within(Search(f, st, q, k, nprobe, st.lastLsn), {}, d)| == Min(k, |Near(f, st, q, d)|)
  {
    SearchIsExactTo(c, f, st, q, k, nprobe, d);
  }

  // What a caller can see to before searching: segment searches are exact, and each
  // source has at most k rows, or no row that is negative or hidden.
  ghost predicate Unobstructed(f: Faiss, st: Lsm, q: Vec, k: nat, nprobe: nat, snapshot: nat) {
    && (forall i :: 0 <= i < |st.segs| ==>
          var g := st.segs[i];
          && NearestHits(f.dist, g.rows, q, k, f.index(g.rows, q, k, nprobe))
          && (|g.rows| <= k || forall x :: x in ToMap(g.rows) ==> x >= 0 && x !in HiddenFrom(st, snapshot, g)))
    && (var rows := MemRows(st, snapshot);
        |rows| <= k || forall x :: x in ToMap(rows) ==> x >= 0 && x !in DeletedAt(st, snapshot))
  }

  lemma SourceIsUndisturbed(dist: (Vec, Vec) -> real, rows: Rows, q: Vec, k: nat, n: nat, raw: seq<Hit>,
      hidden: set<Id>)
    requires NearestHits(dist, rows, q, n, raw) && (n == k || n == Min(k, |rows|))
    requires |rows| <= k || forall x :: x in ToMap(rows) ==> x >= 0 && x !in hidden
    ensures Covers(rows, raw) || NoneDropped(raw, hidden)
  {
    if |rows| <= k {
      AllFound(dist, rows, q, n, raw);
    } else {
      NoneLost(dist, rows, q, n, raw, hidden);
    }
  }

  // An exact search for as many hits as there are rows finds them all.
  lemma AllFound(dist: (Vec, Vec) -> real, rows: Rows, q: Vec, n: nat, raw: seq<Hit>)
    requires NearestHits(dist, rows, q, n, raw) && |rows| <= n
    ensures Covers(rows, raw)
  {
    forall x | x in ToMap(rows) ensures exists i :: 0 <= i < |raw| && raw[i].id == x {
      if forall i :: 0 <= i < |raw| ==> raw[i].id != x {
        UnseenMeansFull(dist, rows, q, n, raw, x);
        assert false;
      }
    }
  }

  lemma NoneLost(dist: (Vec, Vec) -> real, rows: Rows, q: Vec, n: nat, raw: seq<Hit>, hidden: set<Id>)
    requires TrueHits(dist, rows, q, n, raw) && forall x :: x in ToMap(rows) ==> x >= 0 && x !in hidden
    ensures NoneDropped(raw, hidden)
  {
  }

  lemma UnobstructedIsUndisturbed(f: Faiss, st: Lsm, q: Vec, k: nat, nprobe: nat, snapshot: nat)
    requires Sound(f) && Unobstructed(f, st, q, k, nprobe, snapshot)
    ensures Undisturbed(f, st, q, k, nprobe, snapshot)
  {
    forall i | 0 <= i < |st.segs|
      ensures var g := st.segs[i];
              var raw := f.index(g.rows, q, k, nprobe);
              Covers(g.rows, raw) || NoneDropped(raw, HiddenFrom(st, snapshot, g))
    {
      var g := st.segs[i];
      SourceIsUndisturbed(f.dist, g.rows, q, k, k, f.index(g.rows, q, k, nprobe), HiddenFrom(st, snapshot, g));
    }
    var rows := MemRows(st, snapshot);
    SourceIsUndisturbed(f.dist, rows, q, k, Min(k, |rows|), f.flat(rows, q, Min(k, |rows|)), DeletedAt(st, snapshot));
  }

  // Then the search is the exact top k of the searchable part of the logical map.
  lemma UnobstructedSearchIsExact(c: Config, f: Faiss, st: Lsm, q: Vec, k: nat, nprobe: nat, d: real)
    requires Layered(c, st) && Sound(f) && Unobstructed(f, st, q, k, nprobe, st.lastLsn)
    ensures Within(Search(f, st, q, k, nprobe, st.lastLsn), {}, d) <= Near(f, st, q, d)
    ensures |Within(Search(f, st, q, k, nprobe, st.lastLsn), {}, d)| == Min(k, |Near(f, st, q, d)|)
  {
    UnobstructedIsUndisturbed(f, st, q, k, nprobe, st.lastLsn);
    SearchIsExact(c, f, st, q, k, nprobe, d);
  }

  // top is the exact top k of the searchable part of m: nearest first, no id twice, and
  // within every distance as many ids as there are, up to k.
  ghost predicate IsTopOf(f: Faiss, m: map<Id, Vec>, q: Vec, k: nat, top: seq<Hit>) {
    && |top| <= k && MergeResults.Ascending(top) && DistinctIds(top)
    && forall d :: Within(top, {}, d) <= NearIn(f, m, q, d) && |Within(top, {}, d)| == Min(k, |NearIn(f, m, q, d)|)
  }

  lemma SearchIsTop(c: Config, f: Faiss, st: Lsm, q: Vec, k: nat, nprobe: nat)
    requires Layered(c, st) && Sound(f) && Undisturbed(f, st, q, k, nprobe, st.lastLsn)
    ensures IsTopOf(f, View(st), q, k, Search(f, st, q, k, nprobe, st.lastLsn))
  {
    SearchIsSound(c, f, st, q, k, nprobe);
    var top := Search(f, st, q, k, nprobe, st.lastLsn);
    forall d: real
      ensures var near := NearIn(f, View(st), q, d);
              Within(top, {}, d) <= near && |Within(top, {}, d)| == Min(k, |near|)
    {
      SearchIsExact(c, f, st, q, k, nprobe, d);
    }
  }

  // ---- negative ids ---------------------------------------------------------------------------

  // Negative ids are accepted, stored and counted, but no search returns one.
  lemma NegativeIsNeverFound(c: Config, f: Faiss, st: Lsm, q: Vec, k: nat, nprobe: nat, i: nat)
    requires Layered(c, st) && Sound(f) && i < |Search(f, st, q, k, nprobe, st.lastLsn)|
    ensures Search(f, st, q, k, nprobe, st.lastLsn)[i].id >= 0
  {
    SearchIsSound(c, f, st, q, k, nprobe);
    assert IsCurrent(f, st, q, Search(f, st, q, k, nprobe, st.lastLsn)[i]);
  }

  // All ids of a map within distance d, and the exact top k of the whole map.
  ghost function AllIn(f: Faiss, m: map<Id, Vec>, q: Vec, d: real): set<Id> {
    set x | x in m && f.dist(q, m[x]) <= d
  }

  ghost predicate IsTopOfAll(f: Faiss, m: map<Id, Vec>, q: Vec, k: nat, top: seq<Hit>) {
    && |top| <= k && MergeResults.Ascending(top) && DistinctIds(top)
    && forall d :: Within(top, {}, d) <= AllIn(f, m, q, d) && |Within(top, {}, d)| == Min(k, |AllIn(f, m, q, d)|)
  }

  // Each negative id has k searchable ids that are at least as near.
  ghost predicate NegativesAreFar(f: Faiss, m: map<Id, Vec>, q: Vec, k: nat) {
    forall x :: x in m && x < 0 ==> |NearIn(f, m, q, f.dist(q, m[x]))| >= k
  }

  // The exact top k of the searchable part is that of the whole map exactly when no
  // negative id is among the k nearest.
  lemma TopOfAllIff(f: Faiss, m: map<Id, Vec>, q: Vec, k: nat, top: seq<Hit>)
    requires IsTopOf(f, m, q, k, top)
    ensures IsTopOfAll(f, m, q, k, top) <==> NegativesAreFar(f, m, q, k)
  {
    if NegativesAreFar(f, m, q, k) {
      forall d: real
        ensures Within(top, {}, d) <= AllIn(f, m, q, d) && |Within(top, {}, d)| == Min(k, |AllIn(f, m, q, d)|)
      {
        SameCount(f, m, q, k, d);
      }
    }
    if IsTopOfAll(f, m, q, k, top) {
      forall x | x in m && x < 0 ensures |NearIn(f, m, q, f.dist(q, m[x]))| >= k {
        OneMissing(f, m, q, f.dist(q, m[x]), x);
        assert Within(top, {}, f.dist(q, m[x])) <= AllIn(f, m, q, f.dist(q, m[x]));
      }
    }
  }

  lemma OneMissing(f: Faiss, m: map<Id, Vec>, q: Vec, d: real, x: Id)
    requires x in m && x < 0 && f.dist(q, m[x]) <= d
    ensures NearIn(f, m, q, d) <= AllIn(f, m, q, d) && |NearIn(f, m, q, d)| < |AllIn(f, m, q, d)|
  {
    assert x in AllIn(f, m, q, d) && x !in NearIn(f, m, q, d);
    SubsetSize(NearIn(f, m, q, d), AllIn(f, m, q, d));
  }

  lemma SameCount(f: Faiss, m: map<Id, Vec>, q: Vec, k: nat, d: real)
    requires NegativesAreFar(f, m, q, k)
    ensures NearIn(f, m, q, d) <= AllIn(f, m, q, d)
    ensures Min(k, |NearIn(f, m, q, d)|) == Min(k, |AllIn(f, m, q, d)|)
  {
    if x :| x in m && x < 0 && f.dist(q, m[x]) <= d {
      SubsetSize(NearIn(f, m, q, f.dist(q, m[x])), NearIn(f, m, q, d));
      SubsetSize(NearIn(f, m, q, d), AllIn(f, m, q, d));
    } else {
      assert NearIn(f, m, q, d) == AllIn(f, m, q, d);
    }
  }

  // For the engine: filtering removed no hit, from a list that does not cover its
  // segment, but for negative ids.
  ghost predicate Unfiltered(f: Faiss, st: Lsm, q: Vec, k: nat, nprobe: nat, snapshot: nat) {
    && (forall i :: 0 <= i < |st.segs| ==>
          var g := st.segs[i];
          var raw := f.index(g.rows, q, k, nprobe);
          && NearestHits(f.dist, g.rows, q, k, raw)
          && (Covers(g.rows, raw) || NoneHidden(raw, HiddenFrom(st, snapshot, g))))
    && (var rows := MemRows(st, snapshot);
        var raw := f.flat(rows, q, Min(k, |rows|));
        Covers(rows, raw) || NoneHidden(raw, DeletedAt(st, snapshot)))
  }

  ghost predicate NoneHidden(raw: seq<Hit>, hidden: set<Id>) {
    forall i :: 0 <= i < |raw| ==> raw[i].id !in hidden
  }

  // No visible negative id lies within distance d.
  ghost predicate NoNegativeIn(f: Faiss, m: map<Id, Vec>, q: Vec, d: real) {
    forall x :: x in m && x < 0 ==> f.dist(q, m[x]) > d
  }

  lemma RawSegmentHit(c: Config, f: Faiss, st: Lsm, q: Vec, k: nat, nprobe: nat, j: nat, i: nat)
    requires Layered(c, st) && Sound(f) && j < |st.segs| && i < |f.index(st.segs[j].rows, q, k, nprobe)|
    requires f.index(st.segs[j].rows, q, k, nprobe)[i].id !in HiddenFrom(st, st.lastLsn, st.segs[j])
    ensures var h := f.index(st.segs[j].rows, q, k, nprobe)[i];
            h.id in View(st) && h.dist == f.dist(q, View(st)[h.id])
  {
    var rows, raw := st.segs[j].rows, f.index(st.segs[j].rows, q, k, nprobe);
    assert TrueHits(f.dist, rows, q, k, raw);
    CurrentSnapshot(c, st, st.lastLsn);
    UnhiddenIsStored(st.segs, j, raw[i].id);
  }

  lemma RawMemoryHit(c: Config, f: Faiss, st: Lsm, q: Vec, k: nat, i: nat)
    requires Layered(c, st) && Sound(f)
    requires var rows := MemRows(st, st.lastLsn);
             var raw := f.flat(rows, q, Min(k, |rows|));
             i < |raw| && raw[i].id !in DeletedAt(st, st.lastLsn)
    ensures var rows := MemRows(st, st.lastLsn);
            var h := f.flat(rows, q, Min(k, |rows|))[i];
            h.id in View(st) && h.dist == f.dist(q, View(st)[h.id])
  {
    var rows := MemRows(st, st.lastLsn);
    CurrentSnapshot(c, st, st.lastLsn);
    assert NearestHits(f.dist, rows, q, Min(k, |rows|), f.flat(rows, q, Min(k, |rows|)));
  }

  lemma SegmentUndisturbedTo(c: Config, f: Faiss, st: Lsm, q: Vec, k: nat, nprobe: nat, d: real, j: nat)
    requires Layered(c, st) && Sound(f) && NoNegativeIn(f, View(st), q, d) && j < |st.segs|
    requires NoneHidden(f.index(st.segs[j].rows, q, k, nprobe), HiddenFrom(st, st.lastLsn, st.segs[j]))
    ensures NoneDroppedTo(f.index(st.segs[j].rows, q, k, nprobe), HiddenFrom(st, st.lastLsn, st.segs[j]), d)
  {
    var raw := f.index(st.segs[j].rows, q, k, nprobe);
    forall i | 0 <= i < |raw| && raw[i].dist <= d ensures raw[i].id >= 0 {
      RawSegmentHit(c, f, st, q, k, nprobe, j, i);
    }
  }

  lemma MemoryUndisturbedTo(c: Config, f: Faiss, st: Lsm, q: Vec, k: nat, d: real)
    requires Layered(c, st) && Sound(f) && NoNegativeIn(f, View(st), q, d)
    requires var rows := MemRows(st, st.lastLsn);
             NoneHidden(f.flat(rows, q, Min(k, |rows|)), DeletedAt(st, st.lastLsn))
    ensures var rows := MemRows(st, st.lastLsn);
            NoneDroppedTo(f.flat(rows, q, Min(k, |rows|)), DeletedAt(st, st.lastLsn), d)
  {
    var rows := MemRows(st, st.lastLsn);
    var raw := f.flat(rows, q, Min(k, |rows|));
    forall i | 0 <= i < |raw| && raw[i].dist <= d ensures raw[i].id >= 0 {
      RawMemoryHit(c, f, st, q, k, i);
    }
  }

  lemma UnfilteredIsUndisturbedTo(c: Config, f: Faiss, st: Lsm, q: Vec, k: nat, nprobe: nat, d: real)
    requires Layered(c, st) && Sound(f) && Unfiltered(f, st, q, k, nprobe, st.lastLsn)
    requires NoNegativeIn(f, View(st), q, d)
    ensures UndisturbedTo(f, st, q, k, nprobe, st.lastLsn, d)
  {
    forall j | 0 <= j < |st.segs| && NoneHidden(f.index(st.segs[j].rows, q, k, nprobe),
                                                HiddenFrom(st, st.lastLsn, st.segs[j]))
      ensures NoneDroppedTo(f.index(st.segs[j].rows, q, k, nprobe), HiddenFrom(st, st.lastLsn, st.segs[j]), d)
    {
      SegmentUndisturbedTo(c, f, st, q, k, nprobe, d, j);
    }
    var rows := MemRows(st, st.lastLsn);
    if NoneHidden(f.flat(rows, q, Min(k, |rows|)), DeletedAt(st, st.lastLsn)) {
      MemoryUndisturbedTo(c, f, st, q, k, d);
    }
  }

  // The searchable ids strictly nearer than d.
  ghost function NearerIn(f: Faiss, m: map<Id, Vec>, q: Vec, d: real): set<Id> {
    set x | x in m && x >= 0 && f.dist(q, m[x]) < d
  }

  // Each negative id has k searchable ids that are nearer.
  ghost predicate NegativesAreFarther(f: Faiss, m: map<Id, Vec>, q: Vec, k: nat) {
    forall x :: x in m && x < 0 ==> |NearerIn(f, m, q, f.dist(q, m[x]))| >= k
  }

  lemma {:induction false} Farthest(f: Faiss, m: map<Id, Vec>, q: Vec, ids: set<Id>) returns (x: Id)
    requires ids != {} && ids <= m.Keys
    ensures x in ids && forall y :: y in ids ==> f.dist(q, m[y]) <= f.dist(q, m[x])
    decreases |ids|
  {
    var z :| z in ids;
    if ids == {z} {
      x := z;
    } else {
      var w := Farthest(f, m, q, ids - {z});
      x := if f.dist(q, m[w]) < f.dist(q, m[z]) then z else w;
      assert ids == (ids - {z}) + {z};
    }
  }

  ghost function NegativesIn(f: Faiss, m: map<Id, Vec>, q: Vec, d: real): set<Id> {
    set x | x in m && x < 0 && f.dist(q, m[x]) <= d
  }

  // Then below the nearest negative id there are k searchable ones.
  lemma {:induction false} BelowNegatives(f: Faiss, m: map<Id, Vec>, q: Vec, k: nat, d: real) returns (e: real)
    requires NegativesAreFarther(f, m, q, k) && k > 0 && NegativesIn(f, m, q, d) != {}
    ensures e <= d && NoNegativeIn(f, m, q, e) && |NearIn(f, m, q, e)| >= k
    decreases |NegativesIn(f, m, q, d)|
  {
    var y :| y in NegativesIn(f, m, q, d);
    var nearer := NearerIn(f, m, q, f.dist(q, m[y]));
    var x := Farthest(f, m, q, nearer);
    e := f.dist(q, m[x]);
    SubsetSize(nearer, NearIn(f, m, q, e));
    if NegativesIn(f, m, q, e) != {} {
      assert y !in NegativesIn(f, m, q, e);
      SubsetSize(NegativesIn(f, m, q, e), NegativesIn(f, m, q, d));
      e := BelowNegatives(f, m, q, k, e);
    } else {
      forall z | z in m && z < 0 ensures f.dist(q, m[z]) > e {
        assert z !in NegativesIn(f, m, q, e);
      }
    }
  }

  // Within any distance an answer holds searchable ids that are there, at most k.
  lemma AnswerIsNear(c: Config, f: Faiss, st: Lsm, q: Vec, k: nat, nprobe: nat, d: real)
    requires Layered(c, st) && Sound(f)
    ensures var w := Within(Search(f, st, q, k, nprobe, st.lastLsn), {}, d); w <= Near(f, st, q, d) && |w| <= k
  {
    FoundIsNear(c, f, st, q, k, nprobe, d);
    MergedIsTopK(Flatten(SearchResults(f, st, q, k, nprobe, st.lastLsn)), k, DeletedAt(st, st.lastLsn), d);
  }

  lemma MoreWithin(top: seq<Hit>, e: real, d: real)
    requires e <= d
    ensures Within(top, {}, e) <= Within(top, {}, d) && |Within(top, {}, e)| <= |Within(top, {}, d)|
  {
    SubsetSize(Within(top, {}, e), Within(top, {}, d));
  }

  lemma CountsAll(c: Config, f: Faiss, st: Lsm, q: Vec, k: nat, nprobe: nat, d: real)
    requires Layered(c, st) && Sound(f) && Unfiltered(f, st, q, k, nprobe, st.lastLsn)
    requires NegativesAreFarther(f, View(st), q, k)
    ensures |Within(Search(f, st, q, k, nprobe, st.lastLsn), {}, d)| == Min(k, |AllIn(f, View(st), q, d)|)
  {
    var m, top := View(st), Search(f, st, q, k, nprobe, st.lastLsn);
    AnswerIsNear(c, f, st, q, k, nprobe, d);
    if NegativesIn(f, m, q, d) == {} {
      assert AllIn(f, m, q, d) == NearIn(f, m, q, d) by {
        assert forall x :: x in m && f.dist(q, m[x]) <= d ==> x !in NegativesIn(f, m, q, d);
      }
      assert forall x :: x in m && x < 0 ==> x !in NegativesIn(f, m, q, d);
      UnfilteredIsUndisturbedTo(c, f, st, q, k, nprobe, d);
      SearchIsExactTo(c, f, st, q, k, nprobe, d);
    } else if k > 0 {
      var e := BelowNegatives(f, m, q, k, d);
      UnfilteredIsUndisturbedTo(c, f, st, q, k, nprobe, e);
      SearchIsExactTo(c, f, st, q, k, nprobe, e);
      MoreWithin(top, e, d);
      SubsetSize(NearIn(f, m, q, e), AllIn(f, m, q, d));
    }
  }

  // Its answer is the exact top k of the whole logical map only if no negative id is among
  // the k nearest, and always if each has k searchable ids that are nearer;
  lemma SearchOfAll(c: Config, f: Faiss, st: Lsm, q: Vec, k: nat, nprobe: nat)
    requires Layered(c, st) && Sound(f) && Unfiltered(f, st, q, k, nprobe, st.lastLsn)
    ensures var exact := IsTopOfAll(f, View(st), q, k, Search(f, st, q, k, nprobe, st.lastLsn));
            && (exact ==> NegativesAreFar(f, View(st), q, k))
            && (NegativesAreFarther(f, View(st), q, k) ==> exact)
  {
    var m, top := View(st), Search(f, st, q, k, nprobe, st.lastLsn);
    SearchIsSound(c, f, st, q, k, nprobe);
    if IsTopOfAll(f, m, q, k, top) {
      forall x | x in m && x < 0 ensures |NearIn(f, m, q, f.dist(q, m[x]))| >= k {
        var d := f.dist(q, m[x]);
        OneMissing(f, m, q, d, x);
        AnswerIsNear(c, f, st, q, k, nprobe, d);
        SubsetSize(Within(top, {}, d), NearIn(f, m, q, d));
        assert |Within(top, {}, d)| == Min(k, |AllIn(f, m, q, d)|);
      }
    }
    if NegativesAreFarther(f, m, q, k) {
      forall d: real
        ensures Within(top, {}, d) <= AllIn(f, m, q, d) && |Within(top, {}, d)| == Min(k, |AllIn(f, m, q, d)|)
      {
        AnswerIsNear(c, f, st, q, k, nprobe, d);
        CountsAll(c, f, st, q, k, nprobe, d);
      }
    }
  }

  // No negative id is as near as a searchable one.
  ghost predicate Untied(f: Faiss, m: map<Id, Vec>, q: Vec) {
    forall x, y :: x in m && y in m && x < 0 <= y ==> f.dist(q, m[x]) != f.dist(q, m[y])
  }

  // which is one condition where no negative id ties with a searchable one,
  lemma SearchOfAllIff(c: Config, f: Faiss, st: Lsm, q: Vec, k: nat, nprobe: nat)
    requires Layered(c, st) && Sound(f) && Unfiltered(f, st, q, k, nprobe, st.lastLsn) && Untied(f, View(st), q)
    ensures IsTopOfAll(f, View(st), q, k, Search(f, st, q, k, nprobe, st.lastLsn)) <==>
            NegativesAreFar(f, View(st), q, k)
  {
    var m := View(st);
    SearchOfAll(c, f, st, q, k, nprobe);
    if NegativesAreFar(f, m, q, k) {
      forall x | x in m && x < 0 ensures |NearerIn(f, m, q, f.dist(q, m[x]))| >= k {
        assert NearerIn(f, m, q, f.dist(q, m[x])) == NearIn(f, m, q, f.dist(q, m[x]));
      }
    }
  }

  // and, ties or not, where filtering lost no hit at all.
  lemma UnobstructedOfAllIff(c: Config, f: Faiss, st: Lsm, q: Vec, k: nat, nprobe: nat)
    requires Layered(c, st) && Sound(f) && Unobstructed(f, st, q, k, nprobe, st.lastLsn)
    ensures IsTopOfAll(f, View(st), q, k, Search(f, st, q, k, nprobe, st.lastLsn)) <==>
            NegativesAreFar(f, View(st), q, k)
  {
    UnobstructedIsUndisturbed(f, st, q, k, nprobe, st.lastLsn);
    SearchIsTop(c, f, st, q, k, nprobe);
    TopOfAllIff(f, View(st), q, k, Search(f, st, q, k, nprobe, st.lastLsn));
  }

  ghost function ReturnedIds(top: seq<Hit>): set<Id> {
    set h | h in top :: h.id
  }

  // An exact top k of no more than k ids holds all that are searchable.
  lemma AllIsReturned(f: Faiss, m: map<Id, Vec>, q: Vec, k: nat, top: seq<Hit>)
    requires IsTopOf(f, m, q, k, top) && |m| <= k
    ensures ReturnedIds(top) == set x | x in m && x >= 0
  {
    forall x | x in m && x >= 0 ensures x in ReturnedIds(top) {
      var d := f.dist(q, m[x]);
      var near, found := NearIn(f, m, q, d), Within(top, {}, d);
      assert found <= near && |found| == Min(k, |near|);
      assert near <= m.Keys;
      SubsetSize(near, m.Keys);
      assert |m.Keys| == |m|;
      SubsetSize(found, near);
      assert x in found;
    }
    forall x | x in ReturnedIds(top) ensures x in m && x >= 0 {
      var h: Hit :| h in top && h.id == x;
      assert x in Within(top, {}, h.dist);
      assert Within(top, {}, h.dist) <= NearIn(f, m, q, h.dist);
    }
  }

  lemma NoNegativesIsTop(c: Config, f: Faiss, st: Lsm, q: Vec, k: nat, nprobe: nat)
    requires Layered(c, st) && Sound(f) && Unfiltered(f, st, q, k, nprobe, st.lastLsn)
    requires forall x :: x in View(st) ==> x >= 0
    ensures IsTopOf(f, View(st), q, k, Search(f, st, q, k, nprobe, st.lastLsn))
  {
    SearchIsSound(c, f, st, q, k, nprobe);
    var top := Search(f, st, q, k, nprobe, st.lastLsn);
    forall d: real
      ensures var near := NearIn(f, View(st), q, d);
              Within(top, {}, d) <= near && |Within(top, {}, d)| == Min(k, |near|)
    {
      UnfilteredIsUndisturbedTo(c, f, st, q, k, nprobe, d);
      SearchIsExactTo(c, f, st, q, k, nprobe, d);
    }
  }

  // Asked for as many hits as there are ids, the engine returns them all exactly when none
  // is negative.
  lemma FindsAllIff(c: Config, f: Faiss, st: Lsm, q: Vec, k: nat, nprobe: nat)
    requires Layered(c, st) && Sound(f) && Unfiltered(f, st, q, k, nprobe, st.lastLsn) && |View(st)| <= k
    ensures ReturnedIds(Search(f, st, q, k, nprobe, st.lastLsn)) == View(st).Keys <==>
            forall x :: x in View(st) ==> x >= 0
  {
    var top := Search(f, st, q, k, nprobe, st.lastLsn);
    if forall x :: x in View(st) ==> x >= 0 {
      NoNegativesIsTop(c, f, st, q, k, nprobe);
      AllIsReturned(f, View(st), q, k, top);
      assert View(st).Keys == set x | x in View(st) && x >= 0;
    }
    forall x | x in ReturnedIds(top) ensures x >= 0 {
      var h: Hit :| h in top && h.id == x;
      var i :| 0 <= i < |top| && top[i] == h;
      NegativeIsNeverFound(c, f, st, q, k, nprobe, i);
    }
  }

  // What a caller can see to before searching: each source has at most k rows, or none
  // that is hidden.
  ghost predicate Unshadowed(f: Faiss, st: Lsm, q: Vec, k: nat, nprobe: nat, snapshot: nat) {
    && (forall i :: 0 <= i < |st.segs| ==>
          var g := st.segs[i];
          && NearestHits(f.dist, g.rows, q, k, f.index(g.rows, q, k, nprobe))
          && (|g.rows| <= k || ToMap(g.rows).Keys !! HiddenFrom(st, snapshot, g)))
    && (var rows := MemRows(st, snapshot);
        |rows| <= k || ToMap(rows).Keys !! DeletedAt(st, snapshot))
  }

  lemma SourceIsUnfiltered(dist: (Vec, Vec) -> real, rows: Rows, q: Vec, k: nat, n: nat, raw: seq<Hit>,
      hidden: set<Id>)
    requires NearestHits(dist, rows, q, n, raw) && (n == k || n == Min(k, |rows|))
    requires |rows| <= k || ToMap(rows).Keys !! hidden
    ensures Covers(rows, raw) || NoneHidden(raw, hidden)
  {
    if |rows| <= k {
      AllFound(dist, rows, q, n, raw);
    } else {
      assert TrueHits(dist, rows, q, n, raw);
      forall i | 0 <= i < |raw| ensures raw[i].id !in hidden {
        assert raw[i].id in ToMap(rows).Keys;
      }
    }
  }

  lemma UnshadowedIsUnfiltered(f: Faiss, st: Lsm, q: Vec, k: nat, nprobe: nat, snapshot: nat)
    requires Sound(f) && Unshadowed(f, st, q, k, nprobe, snapshot)
    ensures Unfiltered(f, st, q, k, nprobe, snapshot)
  {
    forall i | 0 <= i < |st.segs|
      ensures var g := st.segs[i];
              var raw := f.index(g.rows, q, k, nprobe);
              Covers(g.rows, raw) || NoneHidden(raw, HiddenFrom(st, snapshot, g))
    {
      var g := st.segs[i];
      SourceIsUnfiltered(f.dist, g.rows, q, k, k, f.index(g.rows, q, k, nprobe), HiddenFrom(st, snapshot, g));
    }
    var rows := MemRows(st, snapshot);
    SourceIsUnfiltered(f.dist, rows, q, k, Min(k, |rows|), f.flat(rows, q, Min(k, |rows|)), DeletedAt(st, snapshot));
  }

  // ---- a missed neighbour -----------------------------------------------------------------------

  // Where exactness fails: one segment, two rows, the nearer one deleted. Asked for one hit, an
  // exact index returns the deleted row, filtering takes it out, and the live row at
  // the same or a larger distance is never seen.
  lemma DeletedNearestHidesLiveOne(c: Config, f: Faiss, st: Lsm, q: Vec, nprobe: nat, x: Id, y: Id, v: Vec, w: Vec)
    requires Layered(c, st) && Sound(f) && x != y && y >= 0 && f.dist(q, v) < f.dist(q, w)
    requires |st.segs| == 1 && ToMap(st.segs[0].rows) == map[x := v, y := w]
    requires NearestHits(f.dist, st.segs[0].rows, q, 1, f.index(st.segs[0].rows, q, 1, nprobe))
    requires LiveOf(ToMap(st.mem), None) == map[] && x in st.tombs && y !in st.tombs && y !in ToMap(st.mem)
    ensures Search(f, st, q, 1, nprobe, st.lastLsn) == []
    ensures y in Near(f, st, q, f.dist(q, w))
  {
    var hits := Flatten(SearchResults(f, st, q, 1, nprobe, st.lastLsn));
    forall h: Hit ensures h !in hits {
      NoSurvivor(c, f, st, q, nprobe, x, y, v, w, h);
    }
    NothingMerged(hits, 1, DeletedAt(st, st.lastLsn));
    OnlyStored(st, y);
  }

  lemma OnlyStored(st: Lsm, y: Id)
    requires |st.segs| == 1 && y in ToMap(st.segs[0].rows) && y !in st.tombs && y !in ToMap(st.mem)
    ensures y in View(st) && View(st)[y] == ToMap(st.segs[0].rows)[y]
  {
    StoredOne(st.segs[0]);
    assert st.segs == [st.segs[0]];
  }

  lemma NothingMerged(hits: seq<Hit>, k: nat, deleted: set<Id>)
    requires forall h: Hit :: h !in hits
    ensures Merged(hits, k, deleted) == []
  {
    if hits != [] {
      FirstIsMember(hits);
      assert false;
    }
  }

  lemma NearestIs(f: Faiss, rows: Rows, q: Vec, nprobe: nat, x: Id, y: Id, v: Vec, w: Vec, h: Hit)
    requires x != y && f.dist(q, v) < f.dist(q, w) && ToMap(rows) == map[x := v, y := w]
    requires NearestHits(f.dist, rows, q, 1, f.index(rows, q, 1, nprobe))
    requires h in SegmentHits(f, rows, q, 1, nprobe)
    ensures h.id == x
  {
    var raw := f.index(rows, q, 1, nprobe);
    NonNegativeMembers(raw);
    assert |raw| <= 1;
    assert h == raw[0];
    var first, nearer := raw[0].dist, f.dist(q, ToMap(rows)[x]);
    assert raw[0].id != x ==> first <= nearer;
  }

  lemma NoSurvivor(c: Config, f: Faiss, st: Lsm, q: Vec, nprobe: nat, x: Id, y: Id, v: Vec, w: Vec, h: Hit)
    requires Layered(c, st) && Sound(f) && x != y && f.dist(q, v) < f.dist(q, w)
    requires |st.segs| == 1 && ToMap(st.segs[0].rows) == map[x := v, y := w]
    requires NearestHits(f.dist, st.segs[0].rows, q, 1, f.index(st.segs[0].rows, q, 1, nprobe))
    requires LiveOf(ToMap(st.mem), None) == map[] && x in st.tombs
    ensures h !in Flatten(SearchResults(f, st, q, 1, nprobe, st.lastLsn))
  {
    CurrentSnapshot(c, st, st.lastLsn);
    HitSource(f, st, q, 1, nprobe, st.lastLsn, h);
    if h in MemHits(f, st.mem, q, 1, Some(st.lastLsn)) {
      MemHitIsTrue(f, st.mem, q, 1, Some(st.lastLsn), h);
      NothingLiveAt(ToMap(st.mem), st.lastLsn);
    } else if h in SegmentHits(f, st.segs[0].rows, q, 1, nprobe) {
      NearestIs(f, st.segs[0].rows, q, nprobe, x, y, v, w, h);
      DeletedIsHidden(st, st.lastLsn, st.segs[0]);
    }
  }

  lemma NothingLiveAt(m: map<Id, Entry>, s: nat)
    requires LiveOf(m, None) == map[]
    ensures LiveOf(m, Some(s)) == map[]
  {
    assert forall x :: x in LiveOf(m, Some(s)) ==> x in LiveOf(m, None);
  }

  // ---- old snapshots ----------------------------------------------------------------------------

  lemma {:induction false} VisibleAt(snapshot: nat, segs: seq<Segment>, i: nat) returns (j: nat)
    requires i < |VisibleSegments(snapshot, segs)|
    ensures j < |segs| && VisibleSegments(snapshot, segs)[i] == segs[j] && segs[j].snap <= snapshot
  {
    var n := |segs| - 1;
    if i < |VisibleSegments(snapshot, segs[..n])| {
      j := VisibleAt(snapshot, segs[..n], i);
    } else {
      j := n;
    }
  }

  // No future leak: a search at a snapshot returns only vectors written at or before it.
  lemma NoFutureLeak(c: Config, f: Faiss, st: Lsm, history: seq<Record>, q: Vec, k: nat, nprobe: nat,
      snapshot: nat, i: nat)
    requires Traced(c, st, history) && Sound(f)
    requires i < |Search(f, st, q, k, nprobe, snapshot)|
    ensures var h := Search(f, st, q, k, nprobe, snapshot)[i];
            exists v :: WrittenBy(history, h.id, v, snapshot) && h.dist == f.dist(q, v)
  {
    var h := Search(f, st, q, k, nprobe, snapshot)[i];
    MergedIsWellFormed(Flatten(SearchResults(f, st, q, k, nprobe, snapshot)), k, DeletedAt(st, snapshot));
    HitSource(f, st, q, k, nprobe, snapshot, h);
    if h in MemHits(f, st.mem, q, k, Some(snapshot)) {
      MemHitIsTrue(f, st.mem, q, k, Some(snapshot), h);
      var e := ToMap(st.mem)[h.id];
      assert Wrote(history, h.id, e.vec, e.lsn);
      assert WrittenBy(history, h.id, e.vec, snapshot);
    } else {
      var segs := VisibleSegments(snapshot, st.segs);
      var l :| 0 <= l < |segs| && h in SegmentHits(f, segs[l].rows, q, k, nprobe)
                               && h.id !in HiddenFrom(st, snapshot, segs[l]);
      var j := VisibleAt(snapshot, st.segs, l);
      var rows := ToMap(st.segs[j].rows);
      SegmentHitIsTrue(f, st.segs[j].rows, q, k, nprobe, h);
      assert RowsTraced(history, rows, st.segs[j].snap);
      var lsn: nat :| lsn <= st.segs[j].snap && Wrote(history, h.id, rows[h.id], lsn);
      assert WrittenBy(history, h.id, rows[h.id], snapshot);
    }
  }

  // ---- count -------------------------------------------------------------------------------------

  lemma {:induction false} SegmentIdsAre(segs: seq<Segment>)
    ensures SegmentIds(segs) == Stored(segs).Keys
  {
    if segs != [] {
      SegmentIdsAre(segs[..|segs| - 1]);
      RowIdsAre(segs[|segs| - 1].rows);
    }
  }

  lemma CountedAreVisible(st: Lsm, stored: set<Id>, live: set<Id>, deleted: set<Id>)
    requires stored == Stored(st.segs).Keys && live == LiveOf(ToMap(st.mem), None).Keys
    requires deleted == set x | x in ToMap(st.mem) && AtMost(ToMap(st.mem)[x], None) && ToMap(st.mem)[x].Deleted?
    ensures (stored + live) - (deleted + st.tombs) == View(st).Keys
  {
    forall x: Id ensures x in (stored + live) - (deleted + st.tombs) <==> x in View(st) {
    }
  }

  // `ntotal` counts the logical map.
  lemma NtotalIsSize(st: Lsm)
    ensures Ntotal(st) == |View(st)|
  {
    SegmentIdsAre(st.segs);
    LiveRowsAre(st.mem, None);
    RowIdsAre(LiveRows(st.mem, None));
    DeletedIdsAre(st.mem, None);
    CountedAreVisible(st, Stored(st.segs).Keys, LiveOf(ToMap(st.mem), None).Keys, DeletedIds(st.mem, None));
    assert |View(st).Keys| == |View(st)|;
  }
}
