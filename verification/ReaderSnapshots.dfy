// A reader asked at any snapshot, with room for its shard's segments or not: what it
// can return, and when that is what the snapshot shows.
module ReaderSnapshots {
  import opened WalCodec
  import opened Dicts
  import opened MergeResults
  import opened ScatterGather
  import opened Segments
  import opened LsmModel
  import opened LsmInvariants
  import opened LsmSearch
  import opened LsmSnapshots
  import opened SegmentCaches
  import opened Registry
  import opened ReaderAgreement
  import StaleReaders

  // The stored ids whose newest loaded row is in sight of the snapshot.
  ghost function ReadAt(segs: seq<Segment>, file: set<Id>, s: nat): map<Id, Vec> {
    map x | x in Stored(segs) && x in LatestSnap(segs) && LatestSnap(segs)[x] <= s && x !in file :: Stored(segs)[x]
  }

  // An engine that knows what such a reader knows: it sees the visible segments, and
  // takes rewritten ids for deleted.
  ghost function ReadState(segs: seq<Segment>, file: set<Id>, s: nat, meta: nat): Lsm {
    var hidden := file + Newer(LatestSnap(segs), s);
    Lsm([], VisibleSegments(s, segs), hidden, hidden, [], meta, meta)
  }

  lemma ReadStateLayered(c: Config, segs: seq<Segment>, file: set<Id>, s: nat, meta: nat)
    requires SegsOk(c.shard, segs, meta)
    ensures Layered(c, ReadState(segs, file, s, meta))
  {
    var n := VisiblePrefix(s, segs);
  }

  // ---- newest rows -------------------------------------------------------------------------

  // An id that is not rewritten has its newest row in sight.
  lemma NewestInSight(segs: seq<Segment>, n: nat, s: nat, x: Id)
    requires Segments.Ascending(segs) && n <= |segs| && forall i :: 0 <= i < |segs| ==> (segs[i].snap <= s <==> i < n)
    requires x in Stored(segs) && x in LatestSnap(segs) && LatestSnap(segs)[x] <= s
    ensures x in Stored(segs[..n]) && Stored(segs[..n])[x] == Stored(segs)[x]
  {
    var j := NewestHolder(segs, x);
    assert segs[..n][j] == segs[j];
    HeldIsStored(segs[..n], j, x);
    var i := NewestHolder(segs[..n], x);
    SameNewest(segs, n, i, j, x);
  }

  lemma SameNewest(segs: seq<Segment>, n: nat, i: nat, j: nat, x: Id)
    requires Segments.Ascending(segs) && i < n <= |segs| && j < n
    requires x in ToMap(segs[i].rows) && x in LatestSnap(segs[..n]) && LatestSnap(segs[..n])[x] == segs[i].snap
    requires x in ToMap(segs[j].rows) && x in LatestSnap(segs) && LatestSnap(segs)[x] == segs[j].snap
    ensures i == j
  {
    assert segs[..n][j] == segs[j];
    SnapIsAtMostLatest(segs[..n], j, x);
    SnapIsAtMostLatest(segs, i, x);
  }

  lemma VisibleIsStored(segs: seq<Segment>, n: nat, x: Id)
    requires Segments.Ascending(segs) && n <= |segs| && x in Stored(segs[..n])
    ensures x in Stored(segs) && x in LatestSnap(segs)
  {
    var i := NewestHolder(segs[..n], x);
    HeldIsStored(segs, i, x);
    SnapIsAtMostLatest(segs, i, x);
  }

  lemma ReadAtIs(segs: seq<Segment>, file: set<Id>, s: nat)
    requires Segments.Ascending(segs)
    ensures ReadAt(segs, file, s) == Stored(VisibleSegments(s, segs)) - (file + Newer(LatestSnap(segs), s))
  {
    var n := VisiblePrefix(s, segs);
    var a, b := ReadAt(segs, file, s), Stored(segs[..n]) - (file + Newer(LatestSnap(segs), s));
    forall x | x in a ensures x in b && a[x] == b[x] {
      NewestInSight(segs, n, s, x);
    }
    forall x | x in b ensures x in a {
      VisibleIsStored(segs, n, x);
    }
  }

  lemma ReadStateShows(segs: seq<Segment>, file: set<Id>, s: nat, meta: nat)
    requires Segments.Ascending(segs)
    ensures View(ReadState(segs, file, s, meta)) == ReadAt(segs, file, s)
  {
    ReadAtIs(segs, file, s);
  }

  // ---- the reader's search is that engine's ----------------------------------------------------

  // A visible row is rewritten in the cache if it is in sight, or out of sight.
  lemma RewrittenSplits(segs: seq<Segment>, n: nat, s: nat, i: nat, x: Id)
    requires Segments.Ascending(segs) && n <= |segs| && forall j :: 0 <= j < |segs| ==> (segs[j].snap <= s <==> j < n)
    requires i < n && x in ToMap(segs[i].rows)
    ensures x in Newer(LatestSnap(segs), segs[i].snap) <==>
            x in Newer(LatestSnap(segs), s) || x in Newer(LatestSnap(segs[..n]), segs[i].snap)
  {
    assert segs[..n][i] == segs[i];
    SnapIsAtMostLatest(segs, i, x);
    SnapIsAtMostLatest(segs[..n], i, x);
    HeldIsStored(segs[..n], i, x);
    HeldIsStored(segs, i, x);
    var j := NewestHolder(segs[..n], x);
    SnapIsAtMostLatest(segs, j, x);
    var l := NewestHolder(segs, x);
    if l < n {
      assert segs[..n][l] == segs[l];
      SnapIsAtMostLatest(segs[..n], l, x);
    }
  }

  lemma ShownAlike(f: Faiss, segs: seq<Segment>, n: nat, s: nat, i: nat, file: set<Id>, q: Vec, k: nat, nprobe: nat)
    requires Sound(f) && Segments.Ascending(segs) && DistinctSegIds(segs)
    requires n <= |segs| && forall j :: 0 <= j < |segs| ==> (segs[j].snap <= s <==> j < n)
    requires i < n
    ensures var hits, after := SegmentHits(f, segs[i].rows, q, k, nprobe), Newer(LatestSnap(segs), s);
            Unhidden(hits, file + HiddenFor(HiddenIndex(ToMap(Entries(segs))), segs[i].id)) ==
            Unhidden(hits, file + after + Newer(LatestSnap(segs[..n]), segs[i].snap))
  {
    var hits := SegmentHits(f, segs[i].rows, q, k, nprobe);
    var a := file + HiddenFor(HiddenIndex(ToMap(Entries(segs))), segs[i].id);
    var b := file + Newer(LatestSnap(segs), s) + Newer(LatestSnap(segs[..n]), segs[i].snap);
    forall j | 0 <= j < |hits| ensures hits[j].id in a <==> hits[j].id in b {
      SegmentHitIsTrue(f, segs[i].rows, q, k, nprobe, hits[j]);
      SameRowsHidden(segs, i, hits[j].id);
      RewrittenSplits(segs, n, s, i, hits[j].id);
    }
    SameHidden(hits, a, b);
  }

  // In ascending segments the reader sees a prefix of its cache.
  lemma {:induction false} ReadyPrefix(segs: seq<Segment>, s: nat, n: nat)
    requires n <= |segs| && forall i :: 0 <= i < |segs| ==> (segs[i].snap <= s <==> i < n)
    ensures Ready(Entries(segs), s) == Entries(segs[..n])
  {
    if segs != [] {
      var k := |segs| - 1;
      assert Entries(segs)[..k] == Entries(segs[..k]);
      ReadyPrefix(segs[..k], s, if n > k then k else n);
      if n <= k {
        assert segs[..k][..n] == segs[..n];
      } else {
        assert segs[..k][..k] == segs[..k] && segs[..n] == segs;
        assert Entries(segs[..k]) + [(segs[k].id, segs[k])] == Entries(segs);
      }
    }
  }

  lemma ResultsAlike(f: Faiss, segs: seq<Segment>, n: nat, s: nat, file: set<Id>, q: Vec, k: nat, nprobe: nat)
    requires Sound(f) && Segments.Ascending(segs) && DistinctSegIds(segs)
    requires n <= |segs| && forall j :: 0 <= j < |segs| ==> (segs[j].snap <= s <==> j < n)
    ensures CacheResults(f, Entries(segs[..n]), file, HiddenIndex(ToMap(Entries(segs))), q, k, nprobe) ==
            SegmentResults(f, segs[..n], q, k, nprobe, file + Newer(LatestSnap(segs), s), LatestSnap(segs[..n]))
  {
    var hidden, masked := HiddenIndex(ToMap(Entries(segs))), file + Newer(LatestSnap(segs), s);
    CacheResultsAt(f, Entries(segs[..n]), file, hidden, q, k, nprobe);
    SegmentResultsAt(f, segs[..n], q, k, nprobe, masked, LatestSnap(segs[..n]));
    var a := CacheResults(f, Entries(segs[..n]), file, hidden, q, k, nprobe);
    var b := SegmentResults(f, segs[..n], q, k, nprobe, masked, LatestSnap(segs[..n]));
    forall i | 0 <= i < |a| ensures a[i] == b[i] {
      ShownAlike(f, segs, n, s, i, file, q, k, nprobe);
    }
    assert a == b;
  }

  // No hit that is shown is of a rewritten id.
  lemma ShownIsNotRewritten(f: Faiss, segs: seq<Segment>, masked: set<Id>, q: Vec, k: nat, nprobe: nat,
      latest: map<Id, nat>, h: Hit)
    requires h in Flatten(SegmentResults(f, segs, q, k, nprobe, masked, latest))
    ensures h.id !in masked
  {
    var rs := SegmentResults(f, segs, q, k, nprobe, masked, latest);
    SegmentResultsAt(f, segs, q, k, nprobe, masked, latest);
    InFlatten(rs, h);
    var i :| 0 <= i < |rs| && h in rs[i];
    UnhiddenMembers(SegmentHits(f, segs[i].rows, q, k, nprobe), masked + Newer(latest, segs[i].snap));
  }

  lemma ReadStateSearch(c: Config, f: Faiss, segs: seq<Segment>, file: set<Id>, s: nat, meta: nat, q: Vec, k: nat,
      nprobe: nat)
    requires SegsOk(c.shard, segs, meta)
    ensures var visible, masked := VisibleSegments(s, segs), file + Newer(LatestSnap(segs), s);
            Search(f, ReadState(segs, file, s, meta), q, k, nprobe, meta) ==
            Merged(Flatten(SegmentResults(f, visible, q, k, nprobe, masked, LatestSnap(visible))), k, masked)
  {
    ReadStateLayered(c, segs, file, s, meta);
    EmptyMemSearch(c, f, ReadState(segs, file, s, meta), q, k, nprobe);
  }

  // A reader with any cache of ascending segments, asked at any snapshot, returns entry
  // for entry what that engine would.
  lemma ReaderAtIsEngine(c: Config, f: Faiss, segs: seq<Segment>, file: set<Id>, s: nat, meta: nat, q: Vec, k: nat,
      nprobe: nat)
    requires Sound(f) && SegsOk(c.shard, segs, meta) && DistinctSegIds(segs)
    ensures CacheSearch(f, Entries(segs), file, HiddenIndex(ToMap(Entries(segs))), q, k, nprobe, s) ==
            Search(f, ReadState(segs, file, s, meta), q, k, nprobe, meta)
  {
    var n := VisiblePrefix(s, segs);
    var masked := file + Newer(LatestSnap(segs), s);
    ReadyPrefix(segs, s, n);
    ResultsAlike(f, segs, n, s, file, q, k, nprobe);
    ReadStateSearch(c, f, segs, file, s, meta, q, k, nprobe);
    var hits := Flatten(SegmentResults(f, segs[..n], q, k, nprobe, masked, LatestSnap(segs[..n])));
    forall h | h in hits ensures h.id in file <==> h.id in masked {
      ShownIsNotRewritten(f, segs[..n], masked, q, k, nprobe, LatestSnap(segs[..n]), h);
    }
    SameSeen(hits, file, masked);
  }

  // ---- a refreshed reader --------------------------------------------------------------------------

  // The segments a refresh leaves in a cache that holds at most max.
  lemma KeptSegments(u: Universe, shard: nat, d: Dict<string, Meta>, segs: seq<Segment>, max: nat)
    requires Segments.Ascending(segs) && DistinctSegIds(segs) && Reconciled(shard, d, segs)
    requires forall i :: 0 <= i < |segs| ==> u(segs[i].id) == segs[i]
    ensures Newest(u, Wanted(shard, false, Values(d)), max) == Entries(LastOf(segs, max))
  {
    VisibleOfListing(shard, d);
    WantedIsLocal(shard, Values(d), segs);
  }

  lemma LastSegments(c: Config, segs: seq<Segment>, max: nat, meta: nat)
    requires SegsOk(c.shard, segs, meta) && DistinctSegIds(segs)
    ensures SegsOk(c.shard, LastOf(segs, max), meta) && DistinctSegIds(LastOf(segs, max))
  {
  }

  // The registry knows a shard's segments and the disk holds them.
  ghost predicate Listed(u: Universe, shard: nat, d: Dict<string, Meta>, segs: seq<Segment>) {
    DistinctSegIds(segs) && Reconciled(shard, d, segs) && forall i :: 0 <= i < |segs| ==> u(segs[i].id) == segs[i]
  }

  lemma ReplyAtIsSearch(c: Config, f: Faiss, u: Universe, st: Lsm, d: Dict<string, Meta>, max: nat, file: set<Id>,
      s: nat, q: Vec, k: nat, nprobe: nat)
    requires Layered(c, st) && Sound(f) && Listed(u, c.shard, d, st.segs)
    ensures Reply(f, u, c.shard, d, max, file, s, q, k, nprobe) ==
            Search(f, ReadState(LastOf(st.segs, max), file, s, st.meta), q, k, nprobe, st.meta)
    ensures Layered(c, ReadState(LastOf(st.segs, max), file, s, st.meta))
    ensures View(ReadState(LastOf(st.segs, max), file, s, st.meta)) == ReadAt(LastOf(st.segs, max), file, s)
  {
    KeptSegments(u, c.shard, d, st.segs, max);
    LastSegments(c, st.segs, max, st.meta);
    ReaderAtIsEngine(c, f, LastOf(st.segs, max), file, s, st.meta, q, k, nprobe);
    ReadStateLayered(c, LastOf(st.segs, max), file, s, st.meta);
    ReadStateShows(LastOf(st.segs, max), file, s, st.meta);
  }

  // What a refreshed reader answers at any snapshot, whatever its cache holds, is live in
  // ReadAt, at its distance there, once, nearest first;
  lemma ReplyAtIsSound(c: Config, f: Faiss, u: Universe, st: Lsm, d: Dict<string, Meta>, max: nat, file: set<Id>,
      s: nat, q: Vec, k: nat, nprobe: nat)
    requires Layered(c, st) && Sound(f) && Listed(u, c.shard, d, st.segs)
    ensures var r, m := Reply(f, u, c.shard, d, max, file, s, q, k, nprobe), ReadAt(LastOf(st.segs, max), file, s);
            |r| <= k && MergeResults.Ascending(r) && DistinctIds(r) && forall h :: h in r ==> IsHitOf(f, m, q, h)
  {
    var rd := ReadState(LastOf(st.segs, max), file, s, st.meta);
    ReplyAtIsSearch(c, f, u, st, d, max, file, s, q, k, nprobe);
    SoundHits(c, f, rd, View(rd), q, k, nprobe);
  }

  ghost predicate IsHitOf(f: Faiss, m: map<Id, Vec>, q: Vec, h: Hit) {
    h.id in m && h.id >= 0 && h.dist == f.dist(q, m[h.id])
  }

  lemma SoundHits(c: Config, f: Faiss, st: Lsm, m: map<Id, Vec>, q: Vec, k: nat, nprobe: nat)
    requires Layered(c, st) && Sound(f) && m == View(st)
    ensures var r := Search(f, st, q, k, nprobe, st.lastLsn);
            |r| <= k && MergeResults.Ascending(r) && DistinctIds(r) && forall h :: h in r ==> IsHitOf(f, m, q, h)
  {
    SearchIsSound(c, f, st, q, k, nprobe);
    var r := Search(f, st, q, k, nprobe, st.lastLsn);
    forall h | h in r ensures IsHitOf(f, m, q, h) {
      var i :| 0 <= i < |r| && r[i] == h;
      assert IsCurrent(f, st, q, r[i]);
    }
  }

  // and, where no source lost a hit to filtering, the exact top k of it.
  lemma ReplyAtIsExact(c: Config, f: Faiss, u: Universe, st: Lsm, d: Dict<string, Meta>, max: nat, file: set<Id>,
      s: nat, q: Vec, k: nat, nprobe: nat)
    requires Layered(c, st) && Sound(f) && Listed(u, c.shard, d, st.segs)
    requires Undisturbed(f, ReadState(LastOf(st.segs, max), file, s, st.meta), q, k, nprobe, st.meta)
    ensures IsTopOf(f, ReadAt(LastOf(st.segs, max), file, s), q, k, Reply(f, u, c.shard, d, max, file, s, q, k, nprobe))
  {
    ReplyAtIsSearch(c, f, u, st, d, max, file, s, q, k, nprobe);
    SearchIsTop(c, f, ReadState(LastOf(st.segs, max), file, s, st.meta), q, k, nprobe);
  }

  // ---- against what the snapshot shows -----------------------------------------------------------

  // A cache of all segments shows what the snapshot does of them exactly when no id that
  // the snapshot shows has been rewritten out of its sight.
  lemma ReadsSnapshotIff(segs: seq<Segment>, file: set<Id>, s: nat)
    requires Segments.Ascending(segs)
    ensures ReadAt(segs, file, s) == Stored(VisibleSegments(s, segs)) - file <==>
            forall x :: x in Stored(VisibleSegments(s, segs)) && x !in file ==> x !in Newer(LatestSnap(segs), s)
  {
    var m, rewritten := Stored(VisibleSegments(s, segs)), Newer(LatestSnap(segs), s);
    ReadAtIs(segs, file, s);
    MinusSameIff(m, file, file + rewritten);
    assert (forall x :: x in m && x !in file ==> x !in rewritten) ==> m.Keys * file == m.Keys * (file + rewritten);
    if m.Keys * file == m.Keys * (file + rewritten) {
      forall x | x in m && x !in file ensures x !in rewritten {
        assert x !in m.Keys * file;
      }
    }
  }

  // For an engine with nothing buffered in sight, whose tombstones the file has: the
  // reader sees what a search at the snapshot would.
  lemma ReaderSeesSnapshotIff(st: Lsm, s: nat)
    requires Segments.Ascending(st.segs) && Until(ToMap(st.mem), s) == map[]
    ensures ReadAt(st.segs, st.tombs, s) == ViewAt(st, s) <==>
            forall x :: x in ViewAt(st, s) ==> x !in Newer(LatestSnap(st.segs), s)
  {
    OnlyRowsAt(st, s);
    ReadsSnapshotIff(st.segs, st.tombs, s);
  }

  // The smallest case: two segments hold x, only the older is in sight. The snapshot shows
  // the older row, the reader nothing.
  lemma RewrittenIdDisappears(x: Id, v: Vec, w: Vec)
    ensures var segs := [StaleReaders.Older(x, v), StaleReaders.Newer(x, w)];
            Stored(VisibleSegments(1, segs)) == map[x := v] && ReadAt(segs, {}, 1) == map[]
  {
    var g, h := StaleReaders.Older(x, v), StaleReaders.Newer(x, w);
    var segs := [g, h];
    assert segs[..1] == [g] && [g][..0] == [] && VisibleSegments(1, [g]) == [g];
    StoredOne(g);
    StoredConcat([g], [h]);
    StoredOne(h);
    SnapIsAtMostLatest(segs, 1, x);
    assert Stored(segs).Keys == {x};
  }

  // ---- a cache that is too small ---------------------------------------------------------------------

  lemma LatestOfLast(segs: seq<Segment>, n: nat, x: Id)
    requires Segments.Ascending(segs) && n <= |segs| && x in Stored(segs[n..])
    ensures x in Stored(segs) && Stored(segs)[x] == Stored(segs[n..])[x]
    ensures x in LatestSnap(segs) && x in LatestSnap(segs[n..]) && LatestSnap(segs)[x] == LatestSnap(segs[n..])[x]
  {
    LastAreStored(segs, n, x);
    var j := NewestHolder(segs[n..], x);
    var i := NewestHolder(segs, x);
    LatestBounds(segs[n..], x);
    LatestBounds(segs, x);
    SameLatest(segs, segs[n..], n, i, j, x);
  }

  lemma LastAreStored(segs: seq<Segment>, n: nat, x: Id)
    requires n <= |segs| && x in Stored(segs[n..])
    ensures x in Stored(segs) && Stored(segs)[x] == Stored(segs[n..])[x]
  {
    StoredConcat(segs[..n], segs[n..]);
    assert segs == segs[..n] + segs[n..];
  }

  // No segment with x is above the newest one.
  lemma LatestBounds(segs: seq<Segment>, x: Id)
    requires Segments.Ascending(segs) && x in LatestSnap(segs)
    ensures Bounds(segs, x, LatestSnap(segs)[x])
  {
    forall i | 0 <= i < |segs| && x in ToMap(segs[i].rows) ensures segs[i].snap <= LatestSnap(segs)[x] {
      SnapIsAtMostLatest(segs, i, x);
    }
  }

  ghost predicate Bounds(segs: seq<Segment>, x: Id, top: nat) {
    forall i :: 0 <= i < |segs| && x in ToMap(segs[i].rows) ==> segs[i].snap <= top
  }

  lemma SameLatest(segs: seq<Segment>, tail: seq<Segment>, n: nat, i: nat, j: nat, x: Id)
    requires Segments.Ascending(segs) && n <= |segs| && tail == segs[n..]
    requires i < |segs| && x in ToMap(segs[i].rows) && Bounds(segs, x, segs[i].snap)
    requires j < |tail| && x in ToMap(tail[j].rows) && Bounds(tail, x, tail[j].snap)
    ensures segs[i].snap == tail[j].snap
  {
    assert segs[n + j] == tail[j];
    if i >= n {
      assert tail[i - n] == segs[i];
    }
  }

  // What a cache of the newest segments shows: the ids it holds, as the full one would.
  lemma EvictedAre(segs: seq<Segment>, file: set<Id>, s: nat, n: nat)
    requires Segments.Ascending(segs) && n <= |segs|
    ensures var all, held := ReadAt(segs, file, s), Stored(segs[n..]);
            ReadAt(segs[n..], file, s) == map x | x in all && x in held :: all[x]
  {
    var all, some := ReadAt(segs, file, s), ReadAt(segs[n..], file, s);
    forall x | x in Stored(segs[n..]) ensures x in some <==> x in all {
      LatestOfLast(segs, n, x);
    }
    forall x | x in some ensures all[x] == some[x] {
      LatestOfLast(segs, n, x);
    }
  }

  // So it shows the same exactly when no shown id is stored in evicted segments only.
  lemma EvictionShowsIff(segs: seq<Segment>, file: set<Id>, s: nat, max: nat)
    requires Segments.Ascending(segs)
    ensures ReadAt(LastOf(segs, max), file, s) == ReadAt(segs, file, s) <==>
            forall x :: x in ReadAt(segs, file, s) ==> x in Stored(LastOf(segs, max))
  {
    var n := |segs| - Min(max, |segs|);
    var all := ReadAt(segs, file, s);
    EvictedAre(segs, file, s, n);
    var kept := map x | x in all && x in Stored(segs[n..]) :: all[x];
    if forall x :: x in all ==> x in Stored(segs[n..]) {
      assert kept == all;
    }
    if kept == all {
      assert forall x :: x in all ==> x in kept;
    }
  }
}
