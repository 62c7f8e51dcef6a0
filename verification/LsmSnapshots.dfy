// Searches at old snapshots: what they can return, and when an operation leaves it
// alone. Tombstones carry no LSN, the memtable keeps one version of an id, and a
// flush or a merge stamps all its rows with one snapshot; each can change it.
module LsmSnapshots {
  import opened Wrappers
  import opened WalCodec
  import opened Dicts
  import opened MergeResults
  import opened Segments
  import opened MemTables
  import opened LsmModel
  import opened LsmMaps
  import opened LsmInvariants
  import opened LsmRuns
  import opened LsmSearch

  // ---- what a snapshot shows ------------------------------------------------------------

  ghost function Until(m: map<Id, Entry>, s: nat): map<Id, Entry> {
    map x | x in m && m[x].lsn <= s :: m[x]
  }

  function EntriesUntil(mem: seq<(Id, Entry)>, s: nat): seq<(Id, Entry)> {
    if mem == [] then []
    else (if mem[0].1.lsn <= s then [mem[0]] else []) + EntriesUntil(mem[1..], s)
  }

  lemma {:induction false} EntriesUntilAre(mem: Entries, s: nat)
    ensures DistinctKeys(EntriesUntil(mem, s)) && ToMap(EntriesUntil(mem, s)) == Until(ToMap(mem), s)
  {
    if mem != [] {
      var (x, e) := mem[0];
      EntriesUntilAre(mem[1..], s);
      ConsDict(EntriesUntil(mem[1..], s), x, e);
      assert [] + EntriesUntil(mem[1..], s) == EntriesUntil(mem[1..], s);
      UntilNew(ToMap(mem[1..]), x, e, s);
    }
  }

  lemma UntilNew(m: map<Id, Entry>, x: Id, e: Entry, s: nat)
    requires x !in m
    ensures Until(m[x := e], s) == if e.lsn <= s then Until(m, s)[x := e] else Until(m, s)
  {
  }

  // The state with everything newer than the snapshot left out.
  function Frozen(st: Lsm, s: nat): Lsm {
    EntriesUntilAre(st.mem, s);
    st.(mem := EntriesUntil(st.mem, s), segs := VisibleSegments(s, st.segs))
  }

  // What a search at snapshot s can return, with the vectors it uses.
  ghost function ViewAt(st: Lsm, s: nat): map<Id, Vec> {
    View(Frozen(st, s))
  }

  ghost function StoredAt(st: Lsm, s: nat): map<Id, Vec> {
    Stored(VisibleSegments(s, st.segs))
  }

  ghost function MapsAt(st: Lsm, s: nat): Maps {
    Maps(Until(ToMap(st.mem), s), StoredAt(st, s), st.tombs, st.diskTombs, map[], 0, {})
  }

  lemma ViewAtIs(st: Lsm, s: nat)
    ensures ViewAt(st, s) == Visible(MapsAt(st, s))
  {
    EntriesUntilAre(st.mem, s);
  }

  // ---- a search at a snapshot ---------------------------------------------------------------

  lemma {:induction false} VisibleConcat(s: nat, a: seq<Segment>, b: seq<Segment>)
    ensures VisibleSegments(s, a + b) == VisibleSegments(s, a) + VisibleSegments(s, b)
  {
    if b == [] {
      assert a + b == a;
    } else {
      var n := |b| - 1;
      VisibleConcat(s, a, b[..n]);
      assert (a + b)[..|a| + n] == a + b[..n];
    }
  }

  lemma {:induction false} NoneVisible(s: nat, segs: seq<Segment>)
    requires forall i :: 0 <= i < |segs| ==> segs[i].snap > s
    ensures VisibleSegments(s, segs) == []
  {
    if segs != [] {
      NoneVisible(s, segs[..|segs| - 1]);
    }
  }

  // In ascending segments a snapshot sees a prefix.
  lemma {:induction false} VisiblePrefix(s: nat, segs: seq<Segment>) returns (n: nat)
    requires Segments.Ascending(segs)
    ensures n <= |segs| && VisibleSegments(s, segs) == segs[..n]
    ensures forall i :: 0 <= i < |segs| ==> (segs[i].snap <= s <==> i < n)
  {
    if segs == [] {
      n := 0;
    } else {
      var k := |segs| - 1;
      n := VisiblePrefix(s, segs[..k]);
      if segs[k].snap <= s {
        assert n == k;
        n := |segs|;
        assert segs == segs[..k] + [segs[k]];
      } else {
        assert segs[..k][..n] == segs[..n];
      }
    }
  }

  lemma MaxSnapOfPrefix(segs: seq<Segment>, n: nat)
    requires n <= |segs|
    ensures MaxSnap(segs[..n]) <= MaxSnap(segs)
  {
    forall i | 0 <= i < n ensures segs[..n][i].snap <= MaxSnap(segs) {
      MaxSnapBounds(segs, i);
    }
    MaxSnapAtMost(segs[..n], MaxSnap(segs));
  }

  lemma FrozenLayered(c: Config, st: Lsm, s: nat)
    requires Layered(c, st)
    ensures Layered(c, Frozen(st, s))
  {
    EntriesUntilAre(st.mem, s);
    var n := VisiblePrefix(s, st.segs);
    MaxSnapOfPrefix(st.segs, n);
  }

  lemma {:induction false} RowsUntil(mem: seq<(Id, Entry)>, s: nat, at: nat)
    requires forall i :: 0 <= i < |mem| ==> mem[i].1.lsn <= at
    ensures LiveRows(EntriesUntil(mem, s), Some(at)) == LiveRows(mem, Some(s))
    ensures DeletedIds(EntriesUntil(mem, s), Some(at)) == DeletedIds(mem, Some(s))
  {
    if mem != [] {
      var rest := EntriesUntil(mem[1..], s);
      RowsUntil(mem[1..], s, at);
      if mem[0].1.lsn <= s {
        assert ([mem[0]] + rest)[1..] == rest;
      } else {
        assert [] + rest == rest;
        assert [] + LiveRows(mem[1..], Some(s)) == LiveRows(mem[1..], Some(s));
        assert {} + DeletedIds(mem[1..], Some(s)) == DeletedIds(mem[1..], Some(s));
      }
    }
  }

  lemma EntryLsns(c: Config, st: Lsm)
    requires Layered(c, st)
    ensures forall i :: 0 <= i < |st.mem| ==> st.mem[i].1.lsn <= st.lastLsn
  {
    forall i | 0 <= i < |st.mem| ensures st.mem[i].1.lsn <= st.lastLsn {
      EntryAt(st.mem, i);
    }
  }

  // A search at a snapshot is the current search of the frozen state.
  lemma SearchAtIs(c: Config, f: Faiss, st: Lsm, q: Vec, k: nat, nprobe: nat, s: nat)
    requires Layered(c, st)
    ensures Search(f, st, q, k, nprobe, s) == Search(f, Frozen(st, s), q, k, nprobe, st.lastLsn)
  {
    var b := Frozen(st, s);
    EntryLsns(c, st);
    RowsUntil(st.mem, s, st.lastLsn);
    FrozenLayered(c, st, s);
    AllVisible(b.segs, st.lastLsn);
    assert MemHits(f, st.mem, q, k, Some(s)) == MemHits(f, b.mem, q, k, Some(st.lastLsn));
  }

  // So a search at any snapshot returns live ids of its view, at the distances of the
  // view's vectors, once, nearest first;
  lemma SearchAtIsSound(c: Config, f: Faiss, st: Lsm, q: Vec, k: nat, nprobe: nat, s: nat)
    requires Layered(c, st) && Sound(f)
    ensures var r := Search(f, st, q, k, nprobe, s);
            && |r| <= k && MergeResults.Ascending(r) && DistinctIds(r)
            && forall i :: 0 <= i < |r| ==>
                 r[i].id in ViewAt(st, s) && r[i].dist == f.dist(q, ViewAt(st, s)[r[i].id]) && r[i].id >= 0
  {
    FrozenLayered(c, st, s);
    SearchAtIs(c, f, st, q, k, nprobe, s);
    SearchIsSound(c, f, Frozen(st, s), q, k, nprobe);
  }

  // and, where no source lost a hit to filtering, the exact top k of its view.
  lemma SearchAtIsExact(c: Config, f: Faiss, st: Lsm, q: Vec, k: nat, nprobe: nat, s: nat, d: real)
    requires Layered(c, st) && Sound(f) && Undisturbed(f, Frozen(st, s), q, k, nprobe, st.lastLsn)
    ensures var near := set x | x in ViewAt(st, s) && x >= 0 && f.dist(q, ViewAt(st, s)[x]) <= d;
            var found := Within(Search(f, st, q, k, nprobe, s), {}, d);
            found <= near && |found| == Min(k, |near|)
  {
    FrozenLayered(c, st, s);
    SearchAtIs(c, f, st, q, k, nprobe, s);
    SearchIsExact(c, f, Frozen(st, s), q, k, nprobe, d);
    assert Near(f, Frozen(st, s), q, d) == set x | x in ViewAt(st, s) && x >= 0 && f.dist(q, ViewAt(st, s)[x]) <= d;
  }

  // A new snapshot shows the logical map.
  lemma CurrentView(c: Config, st: Lsm, s: nat)
    requires Layered(c, st) && st.meta <= s
    ensures ViewAt(st, s) == View(st)
  {
    ViewAtIs(st, s);
    AllVisible(st.segs, s);
    assert Until(ToMap(st.mem), s) == ToMap(st.mem);
    ViewIsVisible(st);
  }

  // ---- delete -----------------------------------------------------------------------------------

  lemma Overwritten(m: map<Id, Entry>, n: map<Id, Entry>, s: nat)
    requires forall x :: x in n ==> n[x].lsn > s
    ensures Until(m + n, s) == Until(m, s) - n.Keys
  {
  }

  lemma DeletedByMaps(a: Maps, b: Maps, ids: set<Id>)
    requires b.entries == a.entries - ids && b.rows == a.rows && b.tombs == a.tombs + ids
    ensures Visible(b) == Visible(a) - ids
  {
  }

  // The new markers are too new for the snapshot, but they replace what it saw, and
  // tombstones hide an id from every snapshot.
  lemma DeleteAt(c: Config, st: Lsm, ids: seq<Id>, s: nat)
    requires Packable(st.lastLsn + 1, |ids|) && s <= st.lastLsn
    ensures ViewAt(Delete(c, st, ids), s) == ViewAt(st, s) - IdSet(ids)
  {
    var b := Delete(c, st, ids);
    DeleteFields(c, st, ids);
    DeletedEntries(c, st, ids);
    Overwritten(ToMap(st.mem), Markers(IdSet(ids), st.lastLsn + 1), s);
    DeletedByMaps(MapsAt(st, s), MapsAt(b, s), IdSet(ids));
    ViewAtIs(st, s);
    ViewAtIs(b, s);
  }

  // A delete leaves a snapshot alone exactly when the snapshot shows none of its ids.
  lemma DeleteKeepsSnapshotIff(c: Config, st: Lsm, ids: seq<Id>, s: nat)
    requires Packable(st.lastLsn + 1, |ids|) && s <= st.lastLsn
    ensures ViewAt(Delete(c, st, ids), s) == ViewAt(st, s) <==> forall x :: x in ids ==> x !in ViewAt(st, s)
  {
    DeleteAt(c, st, ids, s);
    var m := ViewAt(st, s);
    if forall x :: x in ids ==> x !in m {
      assert m - IdSet(ids) == m;
    } else {
      var x :| x in ids && x in m;
      assert x !in m - IdSet(ids);
    }
  }

  // ---- insert -----------------------------------------------------------------------------------

  // What the snapshot shows of x is its stored row: no marker or tombstone hides one,
  // and no memtable entry differs from it.
  ghost predicate ShowsStored(a: Maps, x: Id) {
    if x in a.tombs || (x in a.entries && a.entries[x].Deleted?) then x !in a.rows
    else x in a.entries ==> x in a.rows && a.rows[x] == a.entries[x].vec
  }

  lemma OverwrittenIff(a: Maps, b: Maps, ids: set<Id>)
    requires b.entries == a.entries - ids && b.rows == a.rows && b.tombs == a.tombs - ids
    ensures Visible(b) == Visible(a) <==> forall x :: x in ids ==> ShowsStored(a, x)
  {
    forall x: Id ensures SameAt(Visible(b), Visible(a), x) <==> (x in ids ==> ShowsStored(a, x)) {
    }
    SameEverywhere(Visible(b), Visible(a));
  }

  // The rows of an insert leave an older snapshot alone exactly when it shows the stored
  // row of each id, if any: the memtable entry it may have shown is overwritten, and
  // the tombstone that may have hidden the stored row is cleared.
  lemma InsertKeepsSnapshotIff(c: Config, st: Lsm, ids: seq<Id>, vectors: seq<Vec>, s: nat)
    requires ShapeOk(c.dim, ids, vectors) && Packable(st.lastLsn + 1, |ids|) && s <= st.lastLsn
    ensures ViewAt(InsertRows(c, st, ids, vectors), s) == ViewAt(st, s) <==>
            forall x :: x in ids ==> ShowsStored(MapsAt(st, s), x)
  {
    var b := InsertRows(c, st, ids, vectors);
    InsertedAt(c, st, ids, vectors, s);
    ViewAtIs(st, s);
    ViewAtIs(b, s);
    OverwrittenIff(MapsAt(st, s), MapsAt(b, s), IdSet(ids));
  }

  lemma InsertedAt(c: Config, st: Lsm, ids: seq<Id>, vectors: seq<Vec>, s: nat)
    requires ShapeOk(c.dim, ids, vectors) && Packable(st.lastLsn + 1, |ids|) && s <= st.lastLsn
    ensures var a, b := MapsAt(st, s), MapsAt(InsertRows(c, st, ids, vectors), s);
            b.entries == a.entries - IdSet(ids) && b.rows == a.rows && b.tombs == a.tombs - IdSet(ids)
  {
    InsertRowsFields(c, st, ids, vectors);
    InsertedEntries(st, ids, vectors);
    InsertedTombs(c, st, ids, vectors);
    WrittenKeys(ids, vectors);
    Overwritten(ToMap(st.mem), Lives(Written(Zip(ids, vectors)), st.lastLsn + 1), s);
  }

  // ---- flush --------------------------------------------------------------------------------------

  // The memtable goes, and its markers, newer ones included, become tombstones.
  lemma DroppedIff(a: Maps, markers: set<Id>)
    requires forall x :: x in a.entries ==> (x in markers <==> a.entries[x].Deleted?)
    ensures var b := a.(entries := map[], tombs := a.tombs + markers);
            Visible(b) == Visible(a) <==>
            && (forall x :: x in a.entries && a.entries[x].Live? && x !in a.tombs ==>
                  x in a.rows && a.rows[x] == a.entries[x].vec)
            && (forall x :: x in markers && x !in a.entries && x in a.rows ==> x in a.tombs)
  {
    var b := a.(entries := map[], tombs := a.tombs + markers);
    forall x: Id
      ensures SameAt(Visible(b), Visible(a), x) <==>
              && (x in a.entries && a.entries[x].Live? && x !in a.tombs ==>
                    x in a.rows && a.rows[x] == a.entries[x].vec)
              && (x in markers && x !in a.entries && x in a.rows ==> x in a.tombs)
    {
      DroppedAt(a, b, markers, x);
    }
    SameEverywhere(Visible(b), Visible(a));
  }

  lemma DroppedAt(a: Maps, b: Maps, markers: set<Id>, x: Id)
    requires b.entries == map[] && b.rows == a.rows && b.tombs == a.tombs + markers
    requires x in a.entries ==> (x in markers <==> a.entries[x].Deleted?)
    ensures SameAt(Visible(b), Visible(a), x) <==>
            && (x in a.entries && a.entries[x].Live? && x !in a.tombs ==> x in a.rows && a.rows[x] == a.entries[x].vec)
            && (x in markers && x !in a.entries && x in a.rows ==> x in a.tombs)
  {
    if x in a.entries {
      assert x in Visible(a) <==> a.entries[x].Live? && x !in a.tombs;
    } else {
      assert x in Visible(a) <==> x in a.rows && x !in a.tombs;
    }
    assert x in Visible(b) <==> x in a.rows && x !in a.tombs + markers;
  }

  // No buffered row the snapshot shows is missing from its segments, and no marker newer
  // than the snapshot hides a row it shows.
  ghost predicate Expendable(st: Lsm, s: nat) {
    var a := MapsAt(st, s);
    && (forall x :: x in a.entries && a.entries[x].Live? && x !in a.tombs ==>
          x in a.rows && a.rows[x] == a.entries[x].vec)
    && (forall x :: x in Deletions(ToMap(st.mem)) && x !in a.entries && x in a.rows ==> x in a.tombs)
  }

  lemma FlushedOutOfSight(c: Config, st: Lsm, segId: string, s: nat)
    requires Layered(c, st) && Flushable(st) && MaxLsn(st.mem) > s
    ensures StoredAt(FlushMem(c, st, segId), s) == StoredAt(st, s)
  {
    var g := FlushedSegment(c, st, segId);
    Listed(c, st, segId);
    FlushedFields(c, st, segId);
    VisibleConcat(s, st.segs, [g]);
    NoneVisible(s, [g]);
    assert VisibleSegments(s, st.segs) + [] == VisibleSegments(s, st.segs);
  }

  lemma FlushedTombs(c: Config, st: Lsm, segId: string)
    ensures FlushMem(c, st, segId).tombs == st.tombs + Deletions(ToMap(st.mem)) && FlushMem(c, st, segId).mem == []
  {
    DeletedIdsAre(st.mem, None);
    assert DeletedIds(st.mem, None) == Deletions(ToMap(st.mem));
    if Flushable(st) {
      FlushedFields(c, st, segId);
    }
    assert st.tombs + {} == st.tombs;
  }

  // A flush whose newest row is newer than the snapshot takes all buffered rows from it.
  lemma FlushByMaps(st: Lsm, b: Lsm, s: nat)
    requires b.mem == [] && b.tombs == st.tombs + Deletions(ToMap(st.mem)) && StoredAt(b, s) == StoredAt(st, s)
    ensures ViewAt(b, s) == ViewAt(st, s) <==> Expendable(st, s)
  {
    var a, m := MapsAt(st, s), Deletions(ToMap(st.mem));
    ViewAtIs(st, s);
    ViewAtIs(b, s);
    assert Visible(MapsAt(b, s)) == Visible(a.(entries := map[], tombs := a.tombs + m));
    DroppedIff(a, m);
  }

  lemma FlushedByMaps(a: Maps, b: Maps)
    requires b.entries == map[] && b.rows == a.rows + LiveOf(a.entries, None)
    requires b.tombs == a.tombs + Deletions(a.entries)
    ensures Visible(b) == Visible(a)
  {
  }

  lemma FlushedAt(c: Config, st: Lsm, segId: string, s: nat)
    requires Layered(c, st) && Flushable(st) && MaxLsn(st.mem) <= s
    ensures var a, b := MapsAt(st, s), MapsAt(FlushMem(c, st, segId), s);
            && a.entries == ToMap(st.mem) && b.entries == map[]
            && b.rows == a.rows + LiveOf(a.entries, None) && b.tombs == a.tombs + Deletions(a.entries)
  {
    var b := FlushMem(c, st, segId);
    FlushableTop(c, st);
    Listed(c, st, segId);
    FlushedFields(c, st, segId);
    FlushedTombs(c, st, segId);
    MaxSnapsVisible(st.segs, s);
    MaxSnapsVisible(b.segs, s);
    AllUntil(ToMap(st.mem), s);
  }

  lemma AllUntil(m: map<Id, Entry>, s: nat)
    requires forall x :: x in m ==> m[x].lsn <= s
    ensures Until(m, s) == m
  {
  }

  lemma FlushedInSight(c: Config, st: Lsm, segId: string, s: nat)
    requires Layered(c, st) && Flushable(st) && MaxLsn(st.mem) <= s
    ensures ViewAt(FlushMem(c, st, segId), s) == ViewAt(st, s)
  {
    FlushedAt(c, st, segId, s);
    FlushedByMaps(MapsAt(st, s), MapsAt(FlushMem(c, st, segId), s));
    ViewAtIs(st, s);
    ViewAtIs(FlushMem(c, st, segId), s);
  }

  lemma MaxSnapsVisible(segs: seq<Segment>, s: nat)
    requires MaxSnap(segs) <= s
    ensures VisibleSegments(s, segs) == segs
  {
    forall i | 0 <= i < |segs| ensures segs[i].snap <= s {
      MaxSnapBounds(segs, i);
    }
    AllVisible(segs, s);
  }

  // Moving the memtable into a segment leaves a snapshot alone exactly when the segment
  // is visible at it, or it shows nothing that only the memtable holds.
  lemma FlushKeepsSnapshotIff(c: Config, st: Lsm, segId: string, s: nat)
    requires Layered(c, st)
    ensures ViewAt(FlushMem(c, st, segId), s) == ViewAt(st, s) <==>
            (Flushable(st) && MaxLsn(st.mem) <= s) || Expendable(st, s)
  {
    FlushedTombs(c, st, segId);
    if !Flushable(st) {
      FlushByMaps(st, FlushMem(c, st, segId), s);
    } else if MaxLsn(st.mem) <= s {
      FlushedInSight(c, st, segId, s);
    } else {
      FlushedOutOfSight(c, st, segId, s);
      FlushByMaps(st, FlushMem(c, st, segId), s);
    }
  }

  // ---- merge --------------------------------------------------------------------------------------

  // What the snapshot sees of the segments a merge leaves out.
  ghost function RestAt(c: Config, st: Lsm, s: nat): map<Id, Vec>
    requires |st.segs| >= c.mergeThreshold
  {
    Stored(VisibleSegments(s, st.segs[c.mergeThreshold..]))
  }

  // The merged segment is visible at the snapshot, and no dropped tombstone hid anything
  // else from it; or it is not, and the snapshot shows no stored row.
  ghost predicate MergeSpares(c: Config, st: Lsm, s: nat) {
    |st.segs| >= c.mergeThreshold ==>
      if MaxSnap(st.segs[..c.mergeThreshold]) <= s then MergeSafe(MapsAt(st, s), Oldest(c, st), RestAt(c, st, s))
      else StoredAt(st, s).Keys <= st.tombs
  }

  lemma MergedList(c: Config, st: Lsm, mergedId: string)
    requires Layered(c, st) && |st.segs| >= c.mergeThreshold
    ensures var t, b := c.mergeThreshold, MergeOldest(c, st, mergedId);
            var rows := MergedRows(st.segs[..t], st.tombs);
            && DistinctKeys(rows) && ToMap(rows) == Oldest(c, st) - st.tombs
            && b.segs ==
               (if rows == [] then [] else [Segment(mergedId, c.shard, MaxSnap(st.segs[..t]), rows)]) + st.segs[t..]
            && b.tombs == st.tombs - Oldest(c, st).Keys * st.tombs && b.mem == st.mem
  {
    var t := c.mergeThreshold;
    var rows := MergedRows(st.segs[..t], st.tombs);
    RowsAndTombs(c, st);
    if rows != [] {
      MergedFirst(c.shard, st.segs, t, Segment(mergedId, c.shard, MaxSnap(st.segs[..t]), rows), st.meta);
    }
  }

  lemma SplitAt(c: Config, st: Lsm, s: nat)
    requires |st.segs| >= c.mergeThreshold
    ensures StoredAt(st, s) == Stored(VisibleSegments(s, st.segs[..c.mergeThreshold])) + RestAt(c, st, s)
  {
    var t := c.mergeThreshold;
    assert st.segs == st.segs[..t] + st.segs[t..];
    VisibleConcat(s, st.segs[..t], st.segs[t..]);
    StoredConcat(VisibleSegments(s, st.segs[..t]), VisibleSegments(s, st.segs[t..]));
  }

  lemma OneOrNone(rows: Rows, id: string, shard: nat, snap: nat, s: nat)
    ensures var one := if rows == [] then [] else [Segment(id, shard, snap, rows)];
            Stored(VisibleSegments(s, one)) == if snap <= s then ToMap(rows) else map[]
  {
    var g := Segment(id, shard, snap, rows);
    assert [g][..0] == [];
    StoredOne(g);
    assert [] + [g] == [g];
  }

  lemma MergedStoredAt(c: Config, st: Lsm, mergedId: string, s: nat)
    requires Layered(c, st) && |st.segs| >= c.mergeThreshold
    ensures StoredAt(MergeOldest(c, st, mergedId), s) ==
            (if MaxSnap(st.segs[..c.mergeThreshold]) <= s then Oldest(c, st) - st.tombs else map[]) + RestAt(c, st, s)
  {
    var t := c.mergeThreshold;
    var rows := MergedRows(st.segs[..t], st.tombs);
    MergedList(c, st, mergedId);
    var one := if rows == [] then [] else [Segment(mergedId, c.shard, MaxSnap(st.segs[..t]), rows)];
    VisibleConcat(s, one, st.segs[t..]);
    StoredConcat(VisibleSegments(s, one), VisibleSegments(s, st.segs[t..]));
    OneOrNone(rows, mergedId, c.shard, MaxSnap(st.segs[..t]), s);
  }

  // Below the newest merged segment a snapshot sees neither the rest nor the memtable.
  lemma BelowMerged(c: Config, st: Lsm, s: nat)
    requires Layered(c, st) && |st.segs| >= c.mergeThreshold && MaxSnap(st.segs[..c.mergeThreshold]) > s
    ensures RestAt(c, st, s) == map[] && Until(ToMap(st.mem), s) == map[]
  {
    var t := c.mergeThreshold;
    AscendingMax(st.segs[..t]);
    MaxSnapOfPrefix(st.segs, t);
    NoneVisible(s, st.segs[t..]);
  }

  lemma MergedInSight(c: Config, st: Lsm, mergedId: string, s: nat)
    requires Layered(c, st) && |st.segs| >= c.mergeThreshold && MaxSnap(st.segs[..c.mergeThreshold]) <= s
    ensures ViewAt(MergeOldest(c, st, mergedId), s) == ViewAt(st, s) <==>
            MergeSafe(MapsAt(st, s), Oldest(c, st), RestAt(c, st, s))
  {
    var b, a := MergeOldest(c, st, mergedId), MapsAt(st, s);
    MergedList(c, st, mergedId);
    MergedStoredAt(c, st, mergedId, s);
    SplitAt(c, st, s);
    MaxSnapsVisible(st.segs[..c.mergeThreshold], s);
    ViewAtIs(st, s);
    ViewAtIs(b, s);
    assert Visible(MapsAt(b, s)) == Visible(MergeStep(a, Oldest(c, st), RestAt(c, st, s), 0));
    MergeKeepsVisibleIff(a, Oldest(c, st), RestAt(c, st, s), 0);
  }

  lemma MergedOutOfSight(c: Config, st: Lsm, mergedId: string, s: nat)
    requires Layered(c, st) && |st.segs| >= c.mergeThreshold && MaxSnap(st.segs[..c.mergeThreshold]) > s
    ensures ViewAt(MergeOldest(c, st, mergedId), s) == map[]
    ensures ViewAt(st, s) == StoredAt(st, s) - st.tombs
  {
    var b := MergeOldest(c, st, mergedId);
    MergedList(c, st, mergedId);
    MergedStoredAt(c, st, mergedId, s);
    BelowMerged(c, st, s);
    assert StoredAt(b, s) == map[];
    OnlyRowsAt(st, s);
    OnlyRowsAt(b, s);
  }

  lemma OnlyRowsAt(st: Lsm, s: nat)
    requires Until(ToMap(st.mem), s) == map[]
    ensures ViewAt(st, s) == StoredAt(st, s) - st.tombs
  {
    ViewAtIs(st, s);
  }

  // A merge leaves a snapshot alone exactly when it spares what the snapshot shows.
  lemma MergeKeepsSnapshotIff(c: Config, st: Lsm, mergedId: string, s: nat)
    requires Layered(c, st)
    ensures ViewAt(LsmModel.Merge(c, st, mergedId), s) == ViewAt(st, s) <==> MergeSpares(c, st, s)
  {
    if |st.segs| >= c.mergeThreshold {
      if MaxSnap(st.segs[..c.mergeThreshold]) <= s {
        MergedInSight(c, st, mergedId, s);
      } else {
        MergedOutOfSight(c, st, mergedId, s);
        NothingLeftIff(StoredAt(st, s), st.tombs);
      }
    }
  }

  lemma NothingLeftIff(m: map<Id, Vec>, hidden: set<Id>)
    ensures m - hidden == map[] <==> m.Keys <= hidden
  {
    if x :| x in m && x !in hidden {
      assert x in m - hidden;
    } else {
      assert m - hidden == map[];
    }
  }

  // ---- runs of one process ------------------------------------------------------------------------

  // What each operation must meet to leave the snapshot alone. A restart ends all snapshots.
  ghost predicate FlushSpares(c: Config, st: Lsm, segId: string, s: nat) {
    && ((Flushable(st) && MaxLsn(st.mem) <= s) || Expendable(st, s))
    && (Flushable(st) ==> MergeSpares(c, FlushMem(c, st, segId), s))
  }

  ghost predicate Spares(c: Config, st: Lsm, op: Op, s: nat) {
    match op
    case DoInsert(ids, vectors, segId, _) =>
      var a := InsertRows(c, st, ids, vectors);
      Accepted(c, op) && Packable(st.lastLsn + 1, |ids|) ==>
        (forall x :: x in ids ==> ShowsStored(MapsAt(st, s), x)) && (ShouldFlush(c, a) ==> FlushSpares(c, a, segId, s))
    case DoDelete(ids) => Packable(st.lastLsn + 1, |ids|) ==> forall x :: x in ids ==> x !in ViewAt(st, s)
    case DoFlush(segId, _) => FlushSpares(c, st, segId, s)
    case DoMerge(_) => MergeSpares(c, st, s)
    case _ => false
  }

  lemma FlushKeepsSnapshot(c: Config, st: Lsm, segId: string, mergedId: string, s: nat)
    requires Layered(c, st) && FlushSpares(c, st, segId, s)
    ensures ViewAt(Flush(c, st, segId, mergedId), s) == ViewAt(st, s)
  {
    FlushKeepsSnapshotIff(c, st, segId, s);
    FlushMemLayered(c, st, segId);
    MergeKeepsSnapshotIff(c, FlushMem(c, st, segId), mergedId, s);
  }

  lemma SameViewAt(a: Lsm, b: Lsm, s: nat)
    requires a.mem == b.mem && a.segs == b.segs && a.tombs == b.tombs
    ensures ViewAt(a, s) == ViewAt(b, s)
  {
    SameVisible(Frozen(a, s), Frozen(b, s));
  }

  lemma InsertKeepsSnapshot(c: Config, st: Lsm, op: Op, s: nat)
    requires Layered(c, st) && s <= st.lastLsn && op.DoInsert? && Spares(c, st, op, s)
    ensures ViewAt(Step(c, st, op), s) == ViewAt(st, s)
  {
    var a := InsertRows(c, st, op.ids, op.vectors);
    if Accepted(c, op) {
      InsertRowsLayered(c, st, op.ids, op.vectors);
      if !Packable(st.lastLsn + 1, |op.ids|) {
        SameViewAt(a, st, s);
      } else {
        InsertKeepsSnapshotIff(c, st, op.ids, op.vectors, s);
        if ShouldFlush(c, a) {
          FlushKeepsSnapshot(c, a, op.segId, op.mergedId, s);
        }
      }
    }
  }

  lemma StepKeepsSnapshot(c: Config, st: Lsm, op: Op, s: nat)
    requires Layered(c, st) && s <= st.lastLsn && Spares(c, st, op, s)
    ensures ViewAt(Step(c, st, op), s) == ViewAt(st, s)
  {
    match op
    case DoInsert(_, _, _, _) => InsertKeepsSnapshot(c, st, op, s);
    case DoDelete(ids) =>
      if Packable(st.lastLsn + 1, |ids|) {
        DeleteKeepsSnapshotIff(c, st, ids, s);
      } else {
        SameViewAt(Delete(c, st, ids), st, s);
      }
    case DoFlush(segId, mergedId) => FlushKeepsSnapshot(c, st, segId, mergedId, s);
    case DoMerge(mergedId) => MergeKeepsSnapshotIff(c, st, mergedId, s);
  }

  lemma CounterGrows(c: Config, st: Lsm, op: Op, s: nat)
    requires Layered(c, st) && Spares(c, st, op, s)
    ensures st.lastLsn <= Step(c, st, op).lastLsn && Layered(c, Step(c, st, op))
  {
    match op
    case DoInsert(ids, vectors, segId, mergedId) =>
      FlushCounter(c, InsertRows(c, st, ids, vectors), segId, mergedId);
      InsertLayered(c, st, ids, vectors, segId, mergedId);
    case DoDelete(ids) => DeleteLayered(c, st, ids);
    case DoFlush(segId, mergedId) =>
      FlushCounter(c, st, segId, mergedId);
      FlushLayered(c, st, segId, mergedId);
    case DoMerge(mergedId) => MergeLayered(c, st, mergedId);
  }

  // Every operation of `later`, which follow `ops`, spares the snapshot.
  ghost predicate AllSpare(c: Config, ops: seq<Op>, later: seq<Op>, s: nat) {
    later == [] ||
    (var front, op := later[..|later| - 1], later[|later| - 1];
     AllSpare(c, ops, front, s) && Spares(c, Run(c, ops + front), op, s))
  }

  // A snapshot is stable while every operation spares it: what a search at it can return
  // is what it showed when it was taken.
  lemma {:induction false} SnapshotIsStable(c: Config, ops: seq<Op>, later: seq<Op>, s: nat)
    requires s <= Run(c, ops).lastLsn && AllSpare(c, ops, later, s)
    ensures ViewAt(Run(c, ops + later), s) == ViewAt(Run(c, ops), s) && s <= Run(c, ops + later).lastLsn
  {
    if later == [] {
      assert ops + later == ops;
    } else {
      var front, op := later[..|later| - 1], later[|later| - 1];
      SnapshotIsStable(c, ops, front, s);
      EveryRunIsGood(c, ops + front);
      StepKeepsSnapshot(c, Run(c, ops + front), op, s);
      CounterGrows(c, Run(c, ops + front), op, s);
      assert (ops + later)[..|ops + later| - 1] == ops + front;
    }
  }

  // ---- whole operations, below the merge threshold ---------------------------------------------------

  // With fewer segments than the merge threshold, as between the operations of every
  // crash-free run, a flush that merges takes everything into one segment.
  ghost predicate FlushSparesExactly(c: Config, st: Lsm, s: nat) {
    if Flushable(st) && MaxLsn(st.mem) <= s then true
    else if Flushable(st) && |st.segs| + 1 >= c.mergeThreshold then ViewAt(st, s) == map[]
    else Expendable(st, s)
  }

  lemma MergedWhole(c: Config, st: Lsm, segId: string, mergedId: string, s: nat)
    requires Layered(c, st) && Flushable(st) && |st.segs| + 1 == c.mergeThreshold
    ensures var v := ViewAt(Flush(c, st, segId, mergedId), s);
            v == if MaxLsn(st.mem) <= s then ViewAt(st, s) else map[]
  {
    var b, t := FlushMem(c, st, segId), c.mergeThreshold;
    FlushMemLayered(c, st, segId);
    Listed(c, st, segId);
    FlushedFields(c, st, segId);
    assert b.segs[..t] == b.segs && b.segs[t..] == [];
    AscendingMax(b.segs);
    if MaxLsn(st.mem) <= s {
      FlushedInSight(c, st, segId, s);
      MergedInSight(c, b, mergedId, s);
    } else {
      MergedOutOfSight(c, b, mergedId, s);
    }
  }

  lemma WholeFlushIff(c: Config, st: Lsm, segId: string, mergedId: string, s: nat)
    requires Layered(c, st) && |st.segs| < c.mergeThreshold
    ensures ViewAt(Flush(c, st, segId, mergedId), s) == ViewAt(st, s) <==> FlushSparesExactly(c, st, s)
  {
    if Flushable(st) && |st.segs| + 1 == c.mergeThreshold {
      MergedWhole(c, st, segId, mergedId, s);
    } else {
      FlushKeepsSnapshotIff(c, st, segId, s);
      FlushMemCount(c, st, segId);
    }
  }

  // The rows of an insert can be flushed at once, and are newer than the snapshot.
  lemma InsertedOutOfSight(c: Config, st: Lsm, ids: seq<Id>, vectors: seq<Vec>, s: nat)
    requires ShapeOk(c.dim, ids, vectors) && Packable(st.lastLsn + 1, |ids|) && s <= st.lastLsn && ids != []
    ensures var a := InsertRows(c, st, ids, vectors);
            Flushable(a) && MaxLsn(a.mem) > s && forall x :: x in ids ==> x in ToMap(a.mem) && ToMap(a.mem)[x].Live?
  {
    var a, lives := InsertRows(c, st, ids, vectors), Lives(Written(Zip(ids, vectors)), st.lastLsn + 1);
    InsertRowsFields(c, st, ids, vectors);
    InsertedEntries(st, ids, vectors);
    WrittenKeys(ids, vectors);
    MaxLsnIs(a.mem);
    LiveRowsAre(a.mem, None);
    assert ids[0] in IdSet(ids) && ids[0] in lives;
    assert ToMap(a.mem)[ids[0]] == lives[ids[0]];
    assert ids[0] in LiveOf(ToMap(a.mem), None);
  }

  // An insert changes what the snapshot shows of its own ids, a flush out of its sight
  // only what it shows of others, so neither can undo the other.
  lemma InsertedThenDropped(a: Maps, b: Maps, d: Maps, ids: set<Id>)
    requires b.entries == a.entries - ids && b.rows == a.rows && b.tombs == a.tombs - ids
    requires d.entries == map[] && d.rows == b.rows && b.tombs <= d.tombs && d.tombs !! ids
    ensures Visible(d) == Visible(a) <==> Visible(b) == Visible(a) && Visible(d) == Visible(b)
  {
    if Visible(d) == Visible(a) {
      forall x: Id ensures SameAt(Visible(b), Visible(a), x) {
        InsertedThenDroppedAt(a, b, d, ids, x);
      }
      SameEverywhere(Visible(b), Visible(a));
    }
  }

  lemma InsertedThenDroppedAt(a: Maps, b: Maps, d: Maps, ids: set<Id>, x: Id)
    requires b.entries == a.entries - ids && b.rows == a.rows && b.tombs == a.tombs - ids
    requires d.entries == map[] && d.rows == b.rows && d.tombs !! ids && Visible(d) == Visible(a)
    ensures SameAt(Visible(b), Visible(a), x)
  {
    if x in ids {
      assert SameAt(Visible(d), Visible(a), x) && x !in b.entries && x !in b.tombs && x !in d.tombs;
    } else {
      assert x in b.entries <==> x in a.entries;
    }
  }

  lemma InsertedThenFlushed(c: Config, st: Lsm, a: Lsm, ids: seq<Id>, vectors: seq<Vec>, segId: string, s: nat)
    requires Layered(c, st) && ShapeOk(c.dim, ids, vectors) && Packable(st.lastLsn + 1, |ids|) && s <= st.lastLsn
    requires a == InsertRows(c, st, ids, vectors) && ids != []
    ensures ViewAt(FlushMem(c, a, segId), s) == ViewAt(st, s) <==>
            && (forall x :: x in ids ==> ShowsStored(MapsAt(st, s), x)) && Expendable(a, s)
  {
    var b := FlushMem(c, a, segId);
    InsertRowsLayered(c, st, ids, vectors);
    InsertedAt(c, st, ids, vectors, s);
    InsertedOutOfSight(c, st, ids, vectors, s);
    FlushedTombs(c, a, segId);
    FlushedOutOfSight(c, a, segId, s);
    InsertedThenDropped(MapsAt(st, s), MapsAt(a, s), MapsAt(b, s), IdSet(ids));
    InsertKeepsSnapshotIff(c, st, ids, vectors, s);
    FlushKeepsSnapshotIff(c, a, segId, s);
    ViewAtIs(st, s);
    ViewAtIs(a, s);
    ViewAtIs(b, s);
  }

  ghost predicate InsertSparesExactly(c: Config, st: Lsm, ids: seq<Id>, vectors: seq<Vec>, s: nat) {
    var a := InsertRows(c, st, ids, vectors);
    if !ShouldFlush(c, a) then forall x :: x in ids ==> ShowsStored(MapsAt(st, s), x)
    else if ids == [] then FlushSparesExactly(c, a, s)
    else if |st.segs| + 1 >= c.mergeThreshold then ViewAt(st, s) == map[]
    else (forall x :: x in ids ==> ShowsStored(MapsAt(st, s), x)) && Expendable(a, s)
  }

  lemma InsertedNothing(c: Config, st: Lsm, vectors: seq<Vec>, s: nat)
    requires ShapeOk(c.dim, [], vectors) && Packable(st.lastLsn + 1, 0) && s <= st.lastLsn
    ensures ViewAt(InsertRows(c, st, [], vectors), s) == ViewAt(st, s)
  {
    InsertKeepsSnapshotIff(c, st, [], vectors, s);
  }

  lemma InsertRowsSegs(c: Config, st: Lsm, ids: seq<Id>, vectors: seq<Vec>)
    ensures InsertRows(c, st, ids, vectors).segs == st.segs
  {
  }

  lemma WholeInsertIff(c: Config, st: Lsm, op: Op, s: nat)
    requires Layered(c, st) && s <= st.lastLsn && |st.segs| < c.mergeThreshold
    requires op.DoInsert? && Accepted(c, op) && Packable(st.lastLsn + 1, |op.ids|)
    ensures ViewAt(Step(c, st, op), s) == ViewAt(st, s) <==> InsertSparesExactly(c, st, op.ids, op.vectors, s)
  {
    var a := InsertRows(c, st, op.ids, op.vectors);
    InsertRowsLayered(c, st, op.ids, op.vectors);
    InsertRowsSegs(c, st, op.ids, op.vectors);
    if !ShouldFlush(c, a) {
      InsertKeepsSnapshotIff(c, st, op.ids, op.vectors, s);
    } else if op.ids == [] {
      InsertedNothing(c, st, op.vectors, s);
      WholeFlushIff(c, a, op.segId, op.mergedId, s);
    } else {
      InsertedOutOfSight(c, st, op.ids, op.vectors, s);
      if |st.segs| + 1 == c.mergeThreshold {
        MergedWhole(c, a, op.segId, op.mergedId, s);
      } else {
        InsertedThenFlushed(c, st, a, op.ids, op.vectors, op.segId, s);
        FlushMemCount(c, a, op.segId);
      }
    }
  }

  // What each operation must meet, exactly; a merge called by itself does nothing.
  ghost predicate SparesExactly(c: Config, st: Lsm, op: Op, s: nat) {
    match op
    case DoInsert(ids, vectors, _, _) =>
      Accepted(c, op) && Packable(st.lastLsn + 1, |ids|) ==> InsertSparesExactly(c, st, ids, vectors, s)
    case DoDelete(ids) => Packable(st.lastLsn + 1, |ids|) ==> forall x :: x in ids ==> x !in ViewAt(st, s)
    case DoFlush(_, _) => FlushSparesExactly(c, st, s)
    case _ => true
  }

  // An operation, with the flush and the merge it sets off, leaves an older snapshot
  // alone exactly when it meets that.
  lemma OperationKeepsSnapshotIff(c: Config, st: Lsm, op: Op, s: nat)
    requires Layered(c, st) && s <= st.lastLsn && |st.segs| < c.mergeThreshold
    requires CrashFree(op) && !op.DoReopen?
    ensures ViewAt(Step(c, st, op), s) == ViewAt(st, s) <==> SparesExactly(c, st, op, s)
  {
    match op
    case DoInsert(ids, vectors, _, _) =>
      if Accepted(c, op) {
        if Packable(st.lastLsn + 1, |ids|) {
          WholeInsertIff(c, st, op, s);
        } else {
          SameViewAt(InsertRows(c, st, ids, vectors), st, s);
        }
      }
    case DoDelete(ids) =>
      if Packable(st.lastLsn + 1, |ids|) {
        DeleteKeepsSnapshotIff(c, st, ids, s);
      } else {
        SameViewAt(Delete(c, st, ids), st, s);
      }
    case DoFlush(segId, mergedId) => WholeFlushIff(c, st, segId, mergedId, s);
    case DoMerge(_) =>
  }
}
