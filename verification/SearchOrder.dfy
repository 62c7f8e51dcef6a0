// Which of two equally near ids a search returns: the one from the older segment, a
// stored one before a buffered one, and within a source the one it lists first.
module SearchOrder {
  import opened Wrappers
  import opened WalCodec
  import opened Dicts
  import opened MergeResults
  import opened Segments
  import opened MemTables
  import opened LsmModel
  import opened LsmSearch
  import opened LsmSnapshots

  // Source i of a search at a snapshot: the visible segments, oldest first, and after them
  // the memtable. What it returns before any filtering,
  ghost function RawHits(f: Faiss, st: Lsm, q: Vec, k: nat, nprobe: nat, snapshot: nat, i: nat): seq<Hit> {
    var segs, rows := VisibleSegments(snapshot, st.segs), MemRows(st, snapshot);
    if i < |segs| then f.index(segs[i].rows, q, k, nprobe)
    else if i == |segs| && rows != [] then f.flat(rows, q, Min(k, |rows|))
    else []
  }

  // and the ids it may not show.
  ghost function HiddenAt(st: Lsm, snapshot: nat, i: nat): set<Id> {
    var segs := VisibleSegments(snapshot, st.segs);
    if i < |segs| then HiddenFrom(st, snapshot, segs[i]) else DeletedAt(st, snapshot)
  }

  // Source i lists h at position p, and may show it.
  ghost predicate Offers(f: Faiss, st: Lsm, q: Vec, k: nat, nprobe: nat, snapshot: nat, i: nat, p: nat, h: Hit) {
    var raw := RawHits(f, st, q, k, nprobe, snapshot, i);
    p < |raw| && raw[p] == h && h.id >= 0 && h.id !in HiddenAt(st, snapshot, i)
  }

  // ---- positions in the concatenated lists ------------------------------------------------

  function Offset<T>(lists: seq<seq<T>>, i: nat): nat
    requires i <= |lists|
  {
    |Flatten(lists[..i])|
  }

  lemma {:induction false} FlattenAt<T>(lists: seq<seq<T>>, i: nat, u: nat)
    requires i < |lists| && u < |lists[i]|
    ensures Offset(lists, i) + u < Offset(lists, i + 1) <= |Flatten(lists)|
    ensures Flatten(lists)[Offset(lists, i) + u] == lists[i][u]
  {
    var n := |lists| - 1;
    assert lists[..n + 1] == lists;
    if i < n {
      FlattenAt(lists[..n], i, u);
      assert lists[..n][..i] == lists[..i] && lists[..n][..i + 1] == lists[..i + 1];
    }
  }

  lemma {:induction false} OffsetGrows<T>(lists: seq<seq<T>>, i: nat, j: nat)
    requires i <= j <= |lists|
    ensures Offset(lists, i) <= Offset(lists, j)
  {
    if i < j {
      OffsetGrows(lists, i, j - 1);
      assert lists[..j][..j - 1] == lists[..j - 1];
    }
  }

  lemma {:induction false} FlattenSource<T>(lists: seq<seq<T>>, l: nat) returns (i: nat, u: nat)
    requires l < |Flatten(lists)|
    ensures i < |lists| && u < |lists[i]| && l == Offset(lists, i) + u && Flatten(lists)[l] == lists[i][u]
  {
    var n := |lists| - 1;
    if l < |Flatten(lists[..n])| {
      i, u := FlattenSource(lists[..n], l);
      assert lists[..n][..i] == lists[..i];
    } else {
      i, u := n, l - |Flatten(lists[..n])|;
    }
  }

  lemma FlattenOrder<T>(lists: seq<seq<T>>, i: nat, u: nat, j: nat, v: nat)
    requires i < |lists| && u < |lists[i]| && j < |lists| && v < |lists[j]|
    requires i < j || (i == j && u < v)
    ensures Offset(lists, i) + u < Offset(lists, j) + v
  {
    if i < j {
      FlattenAt(lists, i, u);
      OffsetGrows(lists, i + 1, j);
    }
  }

  // ---- each id has one source --------------------------------------------------------------

  // No id is in two lists, or twice in one.
  ghost predicate OneSource(lists: seq<seq<Hit>>) {
    forall i, u, j, v ::
      (0 <= i < |lists| && 0 <= u < |lists[i]| && 0 <= j < |lists| && 0 <= v < |lists[j]| &&
       lists[i][u].id == lists[j][v].id) ==> i == j && u == v
  }

  // No other hit has the same id.
  ghost predicate OnlyAt(hits: seq<Hit>, a: nat)
    requires a < |hits|
  {
    forall l :: 0 <= l < |hits| && hits[l].id == hits[a].id ==> l == a
  }

  lemma OnlyHit(lists: seq<seq<Hit>>, i: nat, u: nat)
    requires OneSource(lists) && i < |lists| && u < |lists[i]|
    ensures Offset(lists, i) + u < |Flatten(lists)| && Flatten(lists)[Offset(lists, i) + u] == lists[i][u]
    ensures OnlyAt(Flatten(lists), Offset(lists, i) + u)
  {
    FlattenAt(lists, i, u);
    forall l | 0 <= l < |Flatten(lists)| && Flatten(lists)[l].id == lists[i][u].id ensures l == Offset(lists, i) + u {
      var j, v := FlattenSource(lists, l);
    }
  }

  lemma OnlyHitWins(hits: seq<Hit>, k: nat, deleted: set<Id>, a: nat, b: nat, n: nat)
    requires a < b < |hits| && OnlyAt(hits, a) && OnlyAt(hits, b) && hits[a].dist <= hits[b].dist
    requires hits[a].id !in deleted && hits[b].id !in deleted
    requires n < |Merged(hits, k, deleted)| && Merged(hits, k, deleted)[n].id == hits[b].id
    ensures exists m :: 0 <= m < n && Merged(hits, k, deleted)[m].id == hits[a].id
  {
    assert hits[a] in hits;
    forall g | g in hits && g.id == hits[b].id ensures hits[a].dist <= g.dist {
      var l :| 0 <= l < |hits| && hits[l] == g;
    }
    FirstSeenWins(hits, k, deleted, a, b, n);
  }

  // With one hit on each id, the earlier of two that are equally near wins.
  lemma EarlierListWins(lists: seq<seq<Hit>>, k: nat, deleted: set<Id>, i: nat, u: nat, j: nat, v: nat, n: nat)
    requires OneSource(lists) && i < |lists| && u < |lists[i]| && j < |lists| && v < |lists[j]|
    requires i < j || (i == j && u < v)
    requires lists[i][u].dist <= lists[j][v].dist && lists[i][u].id !in deleted && lists[j][v].id !in deleted
    requires var top := Merged(Flatten(lists), k, deleted); n < |top| && top[n].id == lists[j][v].id
    ensures var top := Merged(Flatten(lists), k, deleted); exists m :: 0 <= m < n && top[m].id == lists[i][u].id
  {
    FlattenOrder(lists, i, u, j, v);
    OnlyHit(lists, i, u);
    OnlyHit(lists, j, v);
    OnlyHitWins(Flatten(lists), k, deleted, Offset(lists, i) + u, Offset(lists, j) + v, n);
  }

  // ---- the sources of a search ----------------------------------------------------------------

  lemma MemRowsAre(st: Lsm, snapshot: nat)
    ensures ToMap(MemRows(st, snapshot)) == LiveOf(ToMap(st.mem), Some(snapshot))
    ensures RowIds(LiveRows(st.mem, Some(snapshot))) == LiveOf(ToMap(st.mem), Some(snapshot)).Keys
  {
    LiveRowsAre(st.mem, Some(snapshot));
    RowIdsAre(LiveRows(st.mem, Some(snapshot)));
  }

  ghost function Sources(f: Faiss, st: Lsm, q: Vec, k: nat, nprobe: nat, snapshot: nat): seq<seq<Hit>> {
    SearchResults(f, st, q, k, nprobe, snapshot)
  }

  // List i of a search is what source i lists, without what it may not show.
  lemma SourceIs(f: Faiss, st: Lsm, q: Vec, k: nat, nprobe: nat, snapshot: nat, i: nat)
    requires i < |Sources(f, st, q, k, nprobe, snapshot)|
    ensures i <= |VisibleSegments(snapshot, st.segs)|
    ensures var raw := RawHits(f, st, q, k, nprobe, snapshot, i);
            Sources(f, st, q, k, nprobe, snapshot)[i] ==
            if i < |VisibleSegments(snapshot, st.segs)| then Unhidden(NonNegative(raw), HiddenAt(st, snapshot, i))
            else NonNegative(raw)
  {
    var segs := VisibleSegments(snapshot, st.segs);
    SegmentResultsAt(f, segs, q, k, nprobe, Hidden(st, snapshot), LatestSnap(segs));
  }

  // What a source offers is in its list, in its order.
  lemma OfferIsListed(f: Faiss, st: Lsm, q: Vec, k: nat, nprobe: nat, snapshot: nat, i: nat, p: nat, h: Hit)
    returns (u: nat)
    requires Offers(f, st, q, k, nprobe, snapshot, i, p, h)
    ensures var lists := Sources(f, st, q, k, nprobe, snapshot);
            i < |lists| && u < |lists[i]| && lists[i][u] == h
  {
    var lists, raw := Sources(f, st, q, k, nprobe, snapshot), RawHits(f, st, q, k, nprobe, snapshot, i);
    var segs := VisibleSegments(snapshot, st.segs);
    SegmentResultsAt(f, segs, q, k, nprobe, Hidden(st, snapshot), LatestSnap(segs));
    NonNegativeMembers(raw);
    assert raw[p] in NonNegative(raw);
    if i < |segs| {
      SourceIs(f, st, q, k, nprobe, snapshot, i);
      UnhiddenMembers(NonNegative(raw), HiddenAt(st, snapshot, i));
    } else {
      assert MemHits(f, st.mem, q, k, Some(snapshot)) == NonNegative(raw);
      SourceIs(f, st, q, k, nprobe, snapshot, i);
    }
    assert h in lists[i];
    u :| 0 <= u < |lists[i]| && lists[i][u] == h;
  }

  lemma OffersInOrder(f: Faiss, st: Lsm, q: Vec, k: nat, nprobe: nat, snapshot: nat, i: nat, p: nat, r: nat, a: Hit,
      b: Hit)
    returns (u: nat, v: nat)
    requires Offers(f, st, q, k, nprobe, snapshot, i, p, a) && Offers(f, st, q, k, nprobe, snapshot, i, r, b) && p < r
    ensures var lists := Sources(f, st, q, k, nprobe, snapshot);
            i < |lists| && u < v < |lists[i]| && lists[i][u] == a && lists[i][v] == b
  {
    var raw := RawHits(f, st, q, k, nprobe, snapshot, i);
    var w := OfferIsListed(f, st, q, k, nprobe, snapshot, i, p, a);
    SourceIs(f, st, q, k, nprobe, snapshot, i);
    u, v := NonNegativeOrder(raw, p, r);
    if i < |VisibleSegments(snapshot, st.segs)| {
      u, v := UnhiddenOrder(NonNegative(raw), HiddenAt(st, snapshot, i), u, v);
    }
  }

  // A listed hit is a row of its source that the source may show.
  lemma ListedIsHeld(f: Faiss, st: Lsm, q: Vec, k: nat, nprobe: nat, snapshot: nat, i: nat, u: nat)
    requires Sound(f)
    requires var lists := Sources(f, st, q, k, nprobe, snapshot); i < |lists| && u < |lists[i]|
    ensures var x, segs := Sources(f, st, q, k, nprobe, snapshot)[i][u].id, VisibleSegments(snapshot, st.segs);
            && i <= |segs| && (i < |segs| ==> x in ToMap(segs[i].rows) && x !in HiddenFrom(st, snapshot, segs[i]))
            && (i == |segs| ==> x in LiveOf(ToMap(st.mem), Some(snapshot)))
  {
    var lists, raw := Sources(f, st, q, k, nprobe, snapshot), RawHits(f, st, q, k, nprobe, snapshot, i);
    var segs := VisibleSegments(snapshot, st.segs);
    var h := lists[i][u];
    SourceIs(f, st, q, k, nprobe, snapshot, i);
    NonNegativeMembers(raw);
    assert h in lists[i];
    if i < |segs| {
      UnhiddenMembers(NonNegative(raw), HiddenAt(st, snapshot, i));
      assert h in SegmentHits(f, segs[i].rows, q, k, nprobe);
      SegmentHitIsTrue(f, segs[i].rows, q, k, nprobe, h);
    } else {
      assert h in MemHits(f, st.mem, q, k, Some(snapshot));
      MemHitIsTrue(f, st.mem, q, k, Some(snapshot), h);
    }
  }

  lemma ListIsDistinct(f: Faiss, st: Lsm, q: Vec, k: nat, nprobe: nat, snapshot: nat, i: nat)
    requires Sound(f) && i < |Sources(f, st, q, k, nprobe, snapshot)|
    ensures DistinctIds(Sources(f, st, q, k, nprobe, snapshot)[i])
  {
    var raw := RawHits(f, st, q, k, nprobe, snapshot, i);
    var segs, rows := VisibleSegments(snapshot, st.segs), MemRows(st, snapshot);
    SourceIs(f, st, q, k, nprobe, snapshot, i);
    if i < |segs| {
      assert TrueHits(f.dist, segs[i].rows, q, k, raw);
    } else if rows != [] {
      assert NearestHits(f.dist, rows, q, Min(k, |rows|), raw);
    }
    NonNegativeDistinct(raw);
    UnhiddenDistinct(NonNegative(raw), HiddenAt(st, snapshot, i));
  }

  // A newer source hides its ids from every older one.
  lemma NewerHides(st: Lsm, snapshot: nat, i: nat, j: nat, x: Id)
    requires Segments.Ascending(st.segs)
    requires var segs := VisibleSegments(snapshot, st.segs);
             && i < j <= |segs| && (j < |segs| ==> x in ToMap(segs[j].rows))
             && (j == |segs| ==> x in LiveOf(ToMap(st.mem), Some(snapshot)))
    ensures x in HiddenFrom(st, snapshot, VisibleSegments(snapshot, st.segs)[i])
  {
    var segs := VisibleSegments(snapshot, st.segs);
    var n := VisiblePrefix(snapshot, st.segs);
    if j < |segs| {
      SnapIsAtMostLatest(segs, j, x);
    } else {
      MemRowsAre(st, snapshot);
    }
  }

  lemma SourcesAreApart(f: Faiss, st: Lsm, q: Vec, k: nat, nprobe: nat, snapshot: nat)
    requires Segments.Ascending(st.segs) && Sound(f)
    ensures OneSource(Sources(f, st, q, k, nprobe, snapshot))
  {
    var lists: seq<seq<Hit>> := Sources(f, st, q, k, nprobe, snapshot);
    forall i, u, j, v | 0 <= i < |lists| && 0 <= u < |lists[i]| && 0 <= j < |lists| && 0 <= v < |lists[j]|
                        && lists[i][u].id == lists[j][v].id
      ensures i == j && u == v
    {
      ListedIsHeld(f, st, q, k, nprobe, snapshot, i, u);
      ListedIsHeld(f, st, q, k, nprobe, snapshot, j, v);
      ListIsDistinct(f, st, q, k, nprobe, snapshot, i);
      if i < j {
        NewerHides(st, snapshot, i, j, lists[i][u].id);
      } else if j < i {
        NewerHides(st, snapshot, j, i, lists[i][u].id);
      }
    }
  }

  // ---- ties -------------------------------------------------------------------------------------

  lemma OfferedIsLive(f: Faiss, st: Lsm, q: Vec, k: nat, nprobe: nat, snapshot: nat, i: nat, p: nat, h: Hit)
    requires Offers(f, st, q, k, nprobe, snapshot, i, p, h)
    ensures h.id !in DeletedAt(st, snapshot)
  {
    var segs := VisibleSegments(snapshot, st.segs);
    if i < |segs| {
      DeletedIsHidden(st, snapshot, segs[i]);
    }
  }

  // Of two ids that their sources offer at the same distance, or the first nearer, the
  // earlier one comes first in the answer and is not cut off before the other. Earlier is:
  // in an older segment, stored rather than buffered, or listed first by one source.
  lemma EarlierSourceWins(f: Faiss, st: Lsm, q: Vec, k: nat, nprobe: nat, snapshot: nat, i: nat, p: nat, a: Hit,
      j: nat, r: nat, b: Hit, n: nat)
    requires Segments.Ascending(st.segs) && Sound(f) && a.dist <= b.dist
    requires Offers(f, st, q, k, nprobe, snapshot, i, p, a) && Offers(f, st, q, k, nprobe, snapshot, j, r, b)
    requires i < j || (i == j && p < r)
    requires n < |Search(f, st, q, k, nprobe, snapshot)| && Search(f, st, q, k, nprobe, snapshot)[n].id == b.id
    ensures exists m :: 0 <= m < n && Search(f, st, q, k, nprobe, snapshot)[m].id == a.id
  {
    var lists := Sources(f, st, q, k, nprobe, snapshot);
    SourcesAreApart(f, st, q, k, nprobe, snapshot);
    OfferedIsLive(f, st, q, k, nprobe, snapshot, i, p, a);
    OfferedIsLive(f, st, q, k, nprobe, snapshot, j, r, b);
    var u, v;
    if i < j {
      u := OfferIsListed(f, st, q, k, nprobe, snapshot, i, p, a);
      v := OfferIsListed(f, st, q, k, nprobe, snapshot, j, r, b);
    } else {
      u, v := OffersInOrder(f, st, q, k, nprobe, snapshot, i, p, r, a, b);
    }
    EarlierListWins(lists, k, DeletedAt(st, snapshot), i, u, j, v, n);
  }
}
