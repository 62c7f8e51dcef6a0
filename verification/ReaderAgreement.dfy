// A refreshed reader and the engine answer alike, although one filters with
// precomputed hidden sets and the other recomputes them for every query.
module ReaderAgreement {
  import opened Wrappers
  import opened WalCodec
  import opened Dicts
  import opened Sorting
  import opened MergeResults
  import opened ScatterGather
  import opened Segments
  import opened MemTables
  import opened LsmModel
  import opened LsmMaps
  import opened LsmInvariants
  import opened LsmSearch
  import opened SegmentCaches
  import opened Registry
  import opened LsmRuns
  import opened SegmentNames

  // The engine's segments as cache entries, oldest first.
  function Entries(segs: seq<Segment>): (d: seq<(string, Segment)>)
    ensures |d| == |segs|
    ensures forall i :: 0 <= i < |d| ==> d[i] == (segs[i].id, segs[i])
  {
    seq(|segs|, i requires 0 <= i < |segs| => (segs[i].id, segs[i]))
  }

  // ---- the refreshed cache holds the engine's segments in the engine's order ---------------

  ghost predicate SnapsAscend(ms: seq<(string, Meta)>) {
    forall i, j :: 0 <= i < j < |ms| ==> ms[i].1.snap < ms[j].1.snap
  }

  lemma {:induction false} SnapsFixOrder(a: seq<(string, Meta)>, b: seq<(string, Meta)>)
    requires SnapsAscend(a) && SnapsAscend(b) && forall e :: e in a <==> e in b
    ensures a == b
  {
    if a == [] || b == [] {
      if a == [] {
        NoMembers(a, b);
      } else {
        NoMembers(b, a);
      }
    } else {
      SameNewest(a, b);
      var n, m := |a| - 1, |b| - 1;
      forall e ensures e in a[..n] <==> e in b[..m] {
        InPrefix(a, e);
        InPrefix(b, e);
      }
      SnapsFixOrder(a[..n], b[..m]);
      AddBack(a, b);
    }
  }

  lemma NoMembers<T>(a: seq<T>, b: seq<T>)
    requires a == [] && forall e :: e in b ==> e in a
    ensures b == []
  {
    if b != [] {
      FirstIsMember(b);
      assert false;
    }
  }

  lemma SameNewest(a: seq<(string, Meta)>, b: seq<(string, Meta)>)
    requires SnapsAscend(a) && SnapsAscend(b) && a != [] && b != [] && forall e :: e in a <==> e in b
    ensures a[|a| - 1] == b[|b| - 1]
  {
    var x, y := a[|a| - 1], b[|b| - 1];
    assert x in b && y in a;
    var i :| 0 <= i < |b| && b[i] == x;
    var j :| 0 <= j < |a| && a[j] == y;
  }

  lemma InPrefix(a: seq<(string, Meta)>, e: (string, Meta))
    requires SnapsAscend(a) && a != []
    ensures e in a[..|a| - 1] <==> e in a && e != a[|a| - 1]
  {
  }

  lemma SameEntries<K(!new), V(!new)>(a: Dict<K, V>, b: Dict<K, V>, e: (K, V))
    requires ToMap(a) == ToMap(b)
    ensures e in a <==> e in b
  {
    if e in a {
      var i :| 0 <= i < |a| && a[i] == e;
      EntryAt(a, i);
      var j := IndexFor(b, e.0);
    }
    if e in b {
      var i :| 0 <= i < |b| && b[i] == e;
      EntryAt(b, i);
      var j := IndexFor(a, e.0);
    }
  }

  // Entries with the same keys and values as an ascending list, sorted, ascend.
  lemma SortedEntriesAscend(w: Dict<string, Meta>, segs: seq<Segment>)
    requires Sorted(MetaLe, w) && Segments.Ascending(segs) && DistinctSegIds(segs)
    requires ToMap(w) == LocalEntries(segs)
    ensures SnapsAscend(w)
  {
    forall i, j | 0 <= i < j < |w| ensures w[i].1.snap < w[j].1.snap {
      EntryAt(w, i);
      EntryAt(w, j);
      DistinctAt(w, i, j);
      var k := LocalEntryFor(segs, w[i].0);
      var l := LocalEntryFor(segs, w[j].0);
      assert MetaLe(w[i], w[j]);
    }
  }

  // A registry listing whose own-shard part is exactly the engine's segments
  // makes the reader want exactly them, oldest first.
  lemma WantedIsLocal(shard: nat, metas: seq<Meta>, segs: seq<Segment>)
    requires Segments.Ascending(segs) && DistinctSegIds(segs)
    requires ToMap(VisibleMetas(shard, false, metas)) == LocalEntries(segs)
    ensures Wanted(shard, false, metas) == LocalPairs(segs)
  {
    var w := Wanted(shard, false, metas);
    WantedIsOrdered(shard, false, metas);
    PairsAreDistinct(segs);
    SortedEntriesAscend(w, segs);
    forall e ensures e in w <==> e in LocalPairs(segs) {
      SameEntries(w, LocalPairs(segs), e);
    }
    SnapsFixOrder(w, LocalPairs(segs));
  }

  // The `visible` dictionary of a listing with one entry per id.
  lemma {:induction false} VisibleOfListing(shard: nat, d: Dict<string, Meta>)
    requires forall k :: k in ToMap(d) ==> ToMap(d)[k].id == k
    ensures ToMap(VisibleMetas(shard, false, Values(d))) ==
            map k | k in ToMap(d) && ToMap(d)[k].shard == shard :: ToMap(d)[k]
  {
    if d != [] {
      var n := |d| - 1;
      LastIsNew(d);
      SnocDict(d[..n], d[n].0, d[n].1);
      assert d == d[..n] + [(d[n].0, d[n].1)];
      EntryAt(d, n);
      assert Values(d)[..n] == Values(d[..n]);
      forall k | k in ToMap(d[..n]) ensures ToMap(d[..n])[k].id == k {
        PrefixMap(d, n, k);
      }
      VisibleOfListing(shard, d[..n]);
    }
  }

  // After reconciliation and a refresh that fits, the cache is the segment list.
  lemma RefreshedCacheIsLocal(u: Universe, shard: nat, d: Dict<string, Meta>, segs: seq<Segment>, max: nat)
    requires Segments.Ascending(segs) && DistinctSegIds(segs) && |segs| <= max
    requires forall k :: k in ToMap(d) ==> ToMap(d)[k].id == k
    requires (map k | k in ToMap(d) && ToMap(d)[k].shard == shard :: ToMap(d)[k]) == LocalEntries(segs)
    requires forall i :: 0 <= i < |segs| ==> u(segs[i].id) == segs[i]
    ensures Newest(u, Wanted(shard, false, Values(d)), max) == Entries(segs)
  {
    VisibleOfListing(shard, d);
    WantedIsLocal(shard, Values(d), segs);
    assert LocalPairs(segs)[0..] == LocalPairs(segs);
  }

  // ---- the two filters agree ------------------------------------------------------------------

  lemma {:induction false} AllReady(d: seq<(string, Segment)>, snapshot: nat)
    requires forall i :: 0 <= i < |d| ==> d[i].1.snap <= snapshot
    ensures Ready(d, snapshot) == d
  {
    if d != [] {
      AllReady(d[..|d| - 1], snapshot);
      assert d == d[..|d| - 1] + [d[|d| - 1]];
    }
  }

  lemma {:induction false} CacheResultsAt(f: Faiss, d: seq<(string, Segment)>, tombs: set<Id>,
      hidden: map<string, set<Id>>, q: Vec, k: nat, nprobe: nat)
    ensures var rs := CacheResults(f, d, tombs, hidden, q, k, nprobe);
            && |rs| == |d|
            && forall i :: 0 <= i < |d| ==>
                 rs[i] == Unhidden(SegmentHits(f, d[i].1.rows, q, k, nprobe), tombs + HiddenFor(hidden, d[i].0))
  {
    if d != [] {
      CacheResultsAt(f, d[..|d| - 1], tombs, hidden, q, k, nprobe);
    }
  }

  lemma EntriesAreDistinct(segs: seq<Segment>)
    requires DistinctSegIds(segs)
    ensures DistinctKeys(Entries(segs))
  {
    DistinctFromIndices(Entries(segs));
  }

  // A row's id is in the reader's hidden set for its segment exactly when the
  // engine finds a newer segment with it.
  lemma SameRowsHidden(segs: seq<Segment>, i: nat, x: Id)
    requires Segments.Ascending(segs) && DistinctSegIds(segs) && i < |segs| && x in ToMap(segs[i].rows)
    ensures segs[i].id in ToMap(Entries(segs))
    ensures x in HiddenIn(ToMap(Entries(segs)), segs[i].id) <==> x in Newer(LatestSnap(segs), segs[i].snap)
  {
    EntriesAreDistinct(segs);
    var d: Cached := Entries(segs);
    var m := ToMap(d);
    EntryAt(d, i);
    if x in HiddenIn(m, segs[i].id) {
      var k :| k in m && x in RowsOf(m[k]) && m[k].snap > segs[i].snap;
      var j := IndexFor(d, k);
      SnapIsAtMostLatest(segs, j, x);
    }
    if x in Newer(LatestSnap(segs), segs[i].snap) {
      HeldIsStored(segs, i, x);
      var j := NewestHolder(segs, x);
      EntryAt(d, j);
      assert x in RowsOf(m[segs[j].id]) && m[segs[j].id].snap > segs[i].snap;
    }
  }

  lemma SameSegmentHits(f: Faiss, segs: seq<Segment>, i: nat, tombs: set<Id>, q: Vec, k: nat, nprobe: nat)
    requires Sound(f) && Segments.Ascending(segs) && DistinctSegIds(segs) && i < |segs|
    ensures var hits := SegmentHits(f, segs[i].rows, q, k, nprobe);
            Unhidden(hits, tombs + HiddenFor(HiddenIndex(ToMap(Entries(segs))), segs[i].id)) ==
            Unhidden(hits, tombs + Newer(LatestSnap(segs), segs[i].snap))
  {
    var hits := SegmentHits(f, segs[i].rows, q, k, nprobe);
    var a := tombs + HiddenFor(HiddenIndex(ToMap(Entries(segs))), segs[i].id);
    var b := tombs + Newer(LatestSnap(segs), segs[i].snap);
    forall j | 0 <= j < |hits| ensures hits[j].id in a <==> hits[j].id in b {
      SegmentHitIsTrue(f, segs[i].rows, q, k, nprobe, hits[j]);
      SameRowsHidden(segs, i, hits[j].id);
    }
    SameHidden(hits, a, b);
  }

  // What a reader knows of a shard: its segments, and the tombstones in the file.
  function AsRead(st: Lsm, file: set<Id>): Lsm {
    Lsm([], st.segs, file, file, [], st.meta, st.lastLsn)
  }

  lemma AsReadLayered(c: Config, st: Lsm, file: set<Id>)
    requires Layered(c, st)
    ensures Layered(c, AsRead(st, file))
    ensures View(AsRead(st, file)) == Stored(st.segs) - file
  {
  }

  // The search of an engine with nothing buffered.
  lemma EmptyMemSearch(c: Config, f: Faiss, st: Lsm, q: Vec, k: nat, nprobe: nat)
    requires Layered(c, st) && st.mem == []
    ensures SearchResults(f, st, q, k, nprobe, st.lastLsn) ==
            SegmentResults(f, st.segs, q, k, nprobe, st.tombs, LatestSnap(st.segs))
    ensures DeletedAt(st, st.lastLsn) == st.tombs
  {
    AllVisible(st.segs, st.lastLsn);
    assert MemHits(f, st.mem, q, k, Some(st.lastLsn)) == [];
    assert DeletedIds(st.mem, Some(st.lastLsn)) == {} && RowIds(LiveRows(st.mem, Some(st.lastLsn))) == {};
    assert {} + st.tombs + {} == st.tombs && {} + st.tombs == st.tombs;
    var rs := SegmentResults(f, st.segs, q, k, nprobe, st.tombs, LatestSnap(st.segs));
    assert rs + [] == rs;
  }

  lemma SameResults(f: Faiss, segs: seq<Segment>, tombs: set<Id>, q: Vec, k: nat, nprobe: nat)
    requires Sound(f) && Segments.Ascending(segs) && DistinctSegIds(segs)
    ensures CacheResults(f, Entries(segs), tombs, HiddenIndex(ToMap(Entries(segs))), q, k, nprobe)
         == SegmentResults(f, segs, q, k, nprobe, tombs, LatestSnap(segs))
  {
    var hidden := HiddenIndex(ToMap(Entries(segs)));
    CacheResultsAt(f, Entries(segs), tombs, hidden, q, k, nprobe);
    SegmentResultsAt(f, segs, q, k, nprobe, tombs, LatestSnap(segs));
    var a := CacheResults(f, Entries(segs), tombs, hidden, q, k, nprobe);
    var b := SegmentResults(f, segs, q, k, nprobe, tombs, LatestSnap(segs));
    forall i | 0 <= i < |a| ensures a[i] == b[i] {
      SameSegmentHits(f, segs, i, tombs, q, k, nprobe);
    }
    assert a == b;
  }

  // A reader whose cache is a shard's segments, with a coherent index, returns entry for
  // entry, ties included, what an engine would that knew no more than the reader does.
  lemma ReaderIsEngineAsRead(c: Config, f: Faiss, st: Lsm, file: set<Id>, snapshot: nat, q: Vec, k: nat, nprobe: nat)
    requires Layered(c, st) && Sound(f) && DistinctSegIds(st.segs)
    requires forall i :: 0 <= i < |st.segs| ==> st.segs[i].snap <= snapshot
    ensures CacheSearch(f, Entries(st.segs), file, HiddenIndex(ToMap(Entries(st.segs))), q, k, nprobe, snapshot)
         == Search(f, AsRead(st, file), q, k, nprobe, st.lastLsn)
  {
    AsReadLayered(c, st, file);
    AllReady(Entries(st.segs), snapshot);
    EmptyMemSearch(c, f, AsRead(st, file), q, k, nprobe);
    SameResults(f, st.segs, file, q, k, nprobe);
  }

  // With no live row buffered, a reader sees what the engine does exactly when the file
  // names the same stored ids as the engine's tombstones and delete markers.
  lemma ReaderSeesIff(st: Lsm, file: set<Id>)
    requires forall x :: x in ToMap(st.mem) ==> ToMap(st.mem)[x].Deleted?
    ensures View(AsRead(st, file)) == View(st) <==>
            Stored(st.segs).Keys * (st.tombs + Deletions(ToMap(st.mem))) == Stored(st.segs).Keys * file
  {
    var rows, hidden := Stored(st.segs), st.tombs + Deletions(ToMap(st.mem));
    assert View(AsRead(st, file)) == rows - file && View(st) == rows - hidden;
    MinusSameIff(rows, hidden, file);
  }

  lemma MinusSameIff(m: map<Id, Vec>, a: set<Id>, b: set<Id>)
    ensures m - b == m - a <==> m.Keys * a == m.Keys * b
  {
    if m.Keys * a == m.Keys * b {
      forall x | x in m ensures x in a <==> x in b {
        assert x in m.Keys * a <==> x in m.Keys * b;
      }
    }
    if m - b == m - a {
      forall x | x in m ensures x in a <==> x in b {
        assert x in m - a <==> x in m - b;
      }
    }
  }

  // ---- tombstones of ids that are not stored make no difference ----------------------------------

  lemma {:induction false} SameSeen(hits: seq<Hit>, a: set<Id>, b: set<Id>)
    requires forall h :: h in hits ==> (h.id in a <==> h.id in b)
    ensures SeenOf(hits, a) == SeenOf(hits, b)
  {
    if hits != [] {
      SameSeen(hits[..|hits| - 1], a, b);
      assert hits[|hits| - 1] in hits;
    }
  }

  lemma SameShown(f: Faiss, segs: seq<Segment>, i: nat, a: set<Id>, b: set<Id>, q: Vec, k: nat, nprobe: nat)
    requires Sound(f) && i < |segs| && Stored(segs).Keys * a == Stored(segs).Keys * b
    ensures var hits, newer := SegmentHits(f, segs[i].rows, q, k, nprobe), Newer(LatestSnap(segs), segs[i].snap);
            Unhidden(hits, a + newer) == Unhidden(hits, b + newer)
  {
    var hits, newer := SegmentHits(f, segs[i].rows, q, k, nprobe), Newer(LatestSnap(segs), segs[i].snap);
    forall j | 0 <= j < |hits| ensures hits[j].id in a + newer <==> hits[j].id in b + newer {
      SegmentHitIsTrue(f, segs[i].rows, q, k, nprobe, hits[j]);
      HeldIsStored(segs, i, hits[j].id);
      assert hits[j].id in Stored(segs).Keys * a <==> hits[j].id in Stored(segs).Keys * b;
    }
    SameHidden(hits, a + newer, b + newer);
  }

  lemma SameSegmentResults(f: Faiss, segs: seq<Segment>, a: set<Id>, b: set<Id>, q: Vec, k: nat, nprobe: nat)
    requires Sound(f) && Stored(segs).Keys * a == Stored(segs).Keys * b
    ensures SegmentResults(f, segs, q, k, nprobe, a, LatestSnap(segs)) ==
            SegmentResults(f, segs, q, k, nprobe, b, LatestSnap(segs))
  {
    var r, s := SegmentResults(f, segs, q, k, nprobe, a, LatestSnap(segs)),
                SegmentResults(f, segs, q, k, nprobe, b, LatestSnap(segs));
    SegmentResultsAt(f, segs, q, k, nprobe, a, LatestSnap(segs));
    SegmentResultsAt(f, segs, q, k, nprobe, b, LatestSnap(segs));
    forall i | 0 <= i < |r| ensures r[i] == s[i] {
      SameShown(f, segs, i, a, b, q, k, nprobe);
    }
    assert r == s;
  }

  // A hit list holds stored ids only.
  lemma ShownIsStored(f: Faiss, segs: seq<Segment>, hidden: set<Id>, q: Vec, k: nat, nprobe: nat, h: Hit)
    requires Sound(f) && h in Flatten(SegmentResults(f, segs, q, k, nprobe, hidden, LatestSnap(segs)))
    ensures h.id in Stored(segs)
  {
    var rs := SegmentResults(f, segs, q, k, nprobe, hidden, LatestSnap(segs));
    SegmentResultsAt(f, segs, q, k, nprobe, hidden, LatestSnap(segs));
    InFlatten(rs, h);
    var i :| 0 <= i < |rs| && h in rs[i];
    UnhiddenMembers(SegmentHits(f, segs[i].rows, q, k, nprobe), hidden + Newer(LatestSnap(segs), segs[i].snap));
    SegmentHitIsTrue(f, segs[i].rows, q, k, nprobe, h);
    HeldIsStored(segs, i, h.id);
  }

  // Reader agrees with engine: with nothing buffered and the same tombstones over stored
  // rows, both return the same hits, entry for entry.
  lemma ReaderAgreesWithEngine(c: Config, f: Faiss, st: Lsm, file: set<Id>, snapshot: nat, q: Vec, k: nat, nprobe: nat)
    requires Layered(c, st) && Sound(f) && DistinctSegIds(st.segs)
    requires st.mem == [] && Stored(st.segs).Keys * st.tombs == Stored(st.segs).Keys * file
    requires forall i :: 0 <= i < |st.segs| ==> st.segs[i].snap <= snapshot
    ensures CacheSearch(f, Entries(st.segs), file, HiddenIndex(ToMap(Entries(st.segs))), q, k, nprobe, snapshot)
         == Search(f, st, q, k, nprobe, st.lastLsn)
  {
    ReaderIsEngineAsRead(c, f, st, file, snapshot, q, k, nprobe);
    AsReadLayered(c, st, file);
    EmptyMemSearch(c, f, st, q, k, nprobe);
    EmptyMemSearch(c, f, AsRead(st, file), q, k, nprobe);
    SameSegmentResults(f, st.segs, st.tombs, file, q, k, nprobe);
    var hits := Flatten(SegmentResults(f, st.segs, q, k, nprobe, file, LatestSnap(st.segs)));
    forall h | h in hits ensures h.id in st.tombs <==> h.id in file {
      ShownIsStored(f, st.segs, file, q, k, nprobe, h);
      assert h.id in Stored(st.segs).Keys * st.tombs <==> h.id in Stored(st.segs).Keys * file;
    }
    SameSeen(hits, st.tombs, file);
  }

  // After a flush that met its guards nothing is buffered, and the file holds every
  // tombstone over a stored row.
  lemma FlushSettles(c: Config, st: Lsm)
    requires Good(c, st) && Clean(MapsOf(st)) && st.mem == []
    ensures Stored(st.segs).Keys * st.tombs == Stored(st.segs).Keys * st.diskTombs
  {
    var a := MapsOf(st);
    assert a.entries == map[];
    forall x ensures x in Stored(st.segs).Keys * st.tombs <==> x in Stored(st.segs).Keys * st.diskTombs {
      assert x in a.rows && x in a.tombs ==> x in a.diskTombs || x in Deletions(a.entries);
    }
  }

  // ---- end to end -------------------------------------------------------------------------------

  // The registry's part for this shard is this shard's segments.
  ghost predicate Reconciled(shard: nat, listing: Dict<string, Meta>, segs: seq<Segment>) {
    && (forall k :: k in ToMap(listing) ==> ToMap(listing)[k].id == k)
    && (map k | k in ToMap(listing) && ToMap(listing)[k].shard == shard :: ToMap(listing)[k]) == LocalEntries(segs)
  }

  // At a snapshot no older than any registered segment, as the coordinator's is.
  ghost predicate NoOlder(listing: Dict<string, Meta>, snapshot: nat) {
    forall k :: k in ToMap(listing) ==> ToMap(listing)[k].snap <= snapshot
  }

  lemma SnapshotCovers(shard: nat, listing: Dict<string, Meta>, segs: seq<Segment>, snapshot: nat, i: nat)
    requires DistinctSegIds(segs) && Reconciled(shard, listing, segs) && NoOlder(listing, snapshot) && i < |segs|
    ensures segs[i].snap <= snapshot
  {
    LocalEntryAt(segs, i);
    var mine := map k | k in ToMap(listing) && ToMap(listing)[k].shard == shard :: ToMap(listing)[k];
    assert segs[i].id in mine && mine[segs[i].id] == MetaOf(segs[i]);
  }

  // What a reader of one shard replies right after a refresh.
  ghost function Reply(f: Faiss, u: Universe, shard: nat, listing: Dict<string, Meta>, max: nat, file: set<Id>,
      snapshot: nat, q: Vec, k: nat, nprobe: nat): seq<Hit> {
    var cache := Newest(u, Wanted(shard, false, Values(listing)), max);
    CacheSearch(f, cache, file, HiddenIndex(ToMap(cache)), q, k, nprobe, snapshot)
  }

  // The registry knows a shard's segments, the disk holds them, and the cache has room.
  ghost predicate Refreshable(u: Universe, shard: nat, listing: Dict<string, Meta>, segs: seq<Segment>, max: nat,
      snapshot: nat) {
    && DistinctSegIds(segs) && |segs| <= max && (forall i :: 0 <= i < |segs| ==> u(segs[i].id) == segs[i])
    && Reconciled(shard, listing, segs) && NoOlder(listing, snapshot)
  }

  lemma RefreshedReply(c: Config, f: Faiss, u: Universe, st: Lsm, listing: Dict<string, Meta>, max: nat,
      file: set<Id>, snapshot: nat, q: Vec, k: nat, nprobe: nat)
    requires Layered(c, st) && Refreshable(u, c.shard, listing, st.segs, max, snapshot)
    ensures var cache := Entries(st.segs);
            Reply(f, u, c.shard, listing, max, file, snapshot, q, k, nprobe) ==
            CacheSearch(f, cache, file, HiddenIndex(ToMap(cache)), q, k, nprobe, snapshot)
    ensures forall i :: 0 <= i < |st.segs| ==> st.segs[i].snap <= snapshot
  {
    RefreshedCacheIsLocal(u, c.shard, listing, st.segs, max);
    forall i | 0 <= i < |st.segs| ensures st.segs[i].snap <= snapshot {
      SnapshotCovers(c.shard, listing, st.segs, snapshot, i);
    }
  }

  // After any run whose steps met their guards, a flush, a reconciliation and a
  // refresh with room for every segment, the reader answers every query with the
  // engine's hits. Crash-free runs meet every guard.
  lemma ReaderAgreesAfterFlush(c: Config, f: Faiss, ops: seq<Op>, segId: string, mergedId: string, st: Lsm,
      u: Universe, listing: Dict<string, Meta>, max: nat, snapshot: nat, q: Vec, k: nat, nprobe: nat)
    requires Guarded(c, ops + [DoFlush(segId, mergedId)]) && FreshNames(ops + [DoFlush(segId, mergedId)])
    requires st == Run(c, ops + [DoFlush(segId, mergedId)])
    requires Sound(f) && |st.segs| <= max
    requires forall i :: 0 <= i < |st.segs| ==> u(st.segs[i].id) == st.segs[i]
    requires Reconciled(c.shard, listing, st.segs) && NoOlder(listing, snapshot)
    ensures Reply(f, u, c.shard, listing, max, st.diskTombs, snapshot, q, k, nprobe) ==
            Search(f, st, q, k, nprobe, st.lastLsn)
  {
    var all := ops + [DoFlush(segId, mergedId)];
    assert all[..|all| - 1] == ops;
    GuardedRunsRefine(c, all);
    GuardedRunsRefine(c, ops);
    SegmentIdsStayDistinct(c, all);
    FlushRefinesIff(c, Run(c, ops), segId, mergedId);
    FlushSettles(c, st);
    RefreshedReply(c, f, u, st, listing, max, st.diskTombs, snapshot, q, k, nprobe);
    ReaderAgreesWithEngine(c, f, st, st.diskTombs, snapshot, q, k, nprobe);
  }
}
