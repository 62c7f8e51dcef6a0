// Where a reader answers with an overwritten vector: a refresh that fails half way
// has loaded the newer segment, but not rebuilt the index that hides the older row.
module StaleReaders {
  import opened WalCodec
  import opened Dicts
  import opened Sorting
  import opened MergeResults
  import opened Segments
  import opened SegmentCaches
  import opened ReaderAgreement

  function OneRow(x: Id, v: Vec): (rows: Rows)
    ensures rows == [(x, v)] && ToMap(rows) == map[x := v]
  {
    Put([], x, v)
  }

  // Segments "a" and "b" hold x, "b" the newer vector; "c" has just been merged away.
  function Older(x: Id, v: Vec): Segment {
    Segment("a", 0, 1, OneRow(x, v))
  }

  function Newer(x: Id, w: Vec): Segment {
    Segment("b", 0, 2, OneRow(x, w))
  }

  const LISTED: seq<Meta> := [Meta("a", 0, 1), Meta("b", 0, 2), Meta("c", 0, 3)]

  function Disk(x: Id, v: Vec, w: Vec): map<string, Segment> {
    map["a" := Older(x, v), "b" := Newer(x, w)]
  }

  function Before(x: Id, v: Vec): (d: Cached)
    ensures d == [("a", Older(x, v))] && ToMap(d) == map["a" := Older(x, v)]
  {
    Put([], "a", Older(x, v))
  }

  function After(x: Id, v: Vec, w: Vec): (d: Cached)
    ensures d == [("a", Older(x, v)), ("b", Newer(x, w))]
    ensures ToMap(d) == map["a" := Older(x, v), "b" := Newer(x, w)]
  {
    Appended(Before(x, v), "b", Newer(x, w));
    Before(x, v) + [("b", Newer(x, w))]
  }

  lemma DistinctNames()
    ensures "a" != "b" && "b" != "c" && "a" != "c"
  {
    assert "a"[0] != "b"[0] && "b"[0] != "c"[0] && "a"[0] != "c"[0];
  }

  // ---- the refresh ---------------------------------------------------------------------

  lemma VisibleSnoc(metas: seq<Meta>, m: Meta)
    requires m.shard == 0 && !Has(VisibleMetas(0, false, metas), m.id)
    ensures VisibleMetas(0, false, metas + [m]) == VisibleMetas(0, false, metas) + [(m.id, m)]
  {
    assert (metas + [m])[..|metas|] == metas;
    PutNewAppends(VisibleMetas(0, false, metas), m.id, m);
  }

  lemma ListedIsWanted()
    ensures Wanted(0, false, LISTED) == [("a", LISTED[0]), ("b", LISTED[1]), ("c", LISTED[2])]
  {
    ListedIsVisible();
    SortedThree([("a", LISTED[0]), ("b", LISTED[1]), ("c", LISTED[2])]);
  }

  lemma SortedThree(w: seq<(string, Meta)>)
    requires |w| == 3 && w[0].1.snap < w[1].1.snap < w[2].1.snap
    ensures Sort(MetaLe, w) == w
  {
    forall i, j | 0 <= i < j < |w| ensures MetaLe(w[i], w[j]) {
    }
    SortOfSorted(MetaLe, w);
  }

  lemma ListedIsVisible()
    ensures VisibleMetas(0, false, LISTED) == [("a", LISTED[0]), ("b", LISTED[1]), ("c", LISTED[2])]
  {
    var none: seq<Meta> := [];
    DistinctNames();
    VisibleSnoc(none, LISTED[0]);
    VisibleSnoc(none + [LISTED[0]], LISTED[1]);
    VisibleSnoc(none + [LISTED[0]] + [LISTED[1]], LISTED[2]);
    assert LISTED == none + [LISTED[0]] + [LISTED[1]] + [LISTED[2]];
  }

  // The refresh fails at "c", with "b" loaded.
  lemma RefreshStops(x: Id, v: Vec, w: Vec, max: nat)
    requires max >= 2
    ensures var wanted := Wanted(0, false, LISTED);
            && Kept(Before(x, v), wanted) == Before(x, v)
            && LoadFirst(Before(x, v), wanted, |wanted|, Disk(x, v, w), max) == (false, After(x, v, w))
  {
    var wanted, disk, cache := Wanted(0, false, LISTED), Disk(x, v, w), Before(x, v);
    ListedIsWanted();
    KeptOne(cache, wanted);
    FirstTurn(x, v, w, max);
    SecondTurn(x, v, w, max);
    ThirdTurn(x, v, w, max);
    TurnTo(cache, wanted, 1, disk, max, cache);
    TurnTo(cache, wanted, 2, disk, max, cache);
    TurnTo(cache, wanted, 3, disk, max, After(x, v, w));
  }

  lemma KeptOne(cache: seq<(string, Segment)>, wanted: seq<(string, Meta)>)
    requires |cache| == 1 && Has(wanted, cache[0].0)
    ensures Kept(cache, wanted) == cache
  {
    assert cache[..0] == [];
    assert Kept(cache[..0], wanted) == [];
  }

  lemma FirstTurn(x: Id, v: Vec, w: Vec, max: nat)
    ensures Turned(Before(x, v), "a", Disk(x, v, w), max) == (true, Before(x, v))
  {
    var cache := Before(x, v);
    assert Remove(cache, "a") == cache[1..] == [];
  }

  lemma SecondTurn(x: Id, v: Vec, w: Vec, max: nat)
    requires max >= 2
    ensures Turned(Before(x, v), "b", Disk(x, v, w), max) == (true, After(x, v, w))
  {
    DistinctNames();
    var both := Before(x, v) + [("b", Newer(x, w))];
    assert both[0..] == both;
  }

  lemma ThirdTurn(x: Id, v: Vec, w: Vec, max: nat)
    ensures Turned(After(x, v, w), "c", Disk(x, v, w), max) == (false, After(x, v, w))
  {
    DistinctNames();
  }

  // The index the refresh leaves behind serves exactly if the loaded segment overwrites
  // no cached row.
  lemma ServesUnlessOverwritten(x: Id, y: Id, v: Vec, w: Vec)
    ensures SameHolders(ToMap(Before(x, v)), ToMap(Before(x, v))["b" := Newer(y, w)]) <==> x != y
  {
    DistinctNames();
    var b := ToMap(Before(x, v));
    var m := b["b" := Newer(y, w)];
    assert m.Keys == {"a", "b"} && m["a"] == Older(x, v) && m["b"] == Newer(y, w);
    assert !HeldAfter(b, 1, x) && !HeldAfter(m, 2, y);
    assert HeldAfter(m, 1, x) <==> x == y by {
      if x == y {
        assert "b" in m && x in RowsOf(m["b"]) && m["b"].snap > 1;
      }
    }
    if x == y {
      assert "a" in m && x in RowsOf(m["a"]) && m["a"].snap == 1;
    }
  }

  // ---- the search ------------------------------------------------------------------------

  lemma OneHit(f: Faiss, x: Id, v: Vec, q: Vec, k: nat, nprobe: nat)
    requires NearestHits(f.dist, OneRow(x, v), q, k, f.index(OneRow(x, v), q, k, nprobe)) && k >= 1 && x >= 0
    ensures SegmentHits(f, OneRow(x, v), q, k, nprobe) == [Hit(f.dist(q, v), x)]
  {
    var raw := f.index(OneRow(x, v), q, k, nprobe);
    assert |raw| == 1 && raw[0].id in ToMap(OneRow(x, v));
    assert raw == [Hit(f.dist(q, v), x)];
    assert NonNegative(raw[1..]) == [] && raw == [raw[0]] + [];
  }

  lemma OldIndex(x: Id, v: Vec)
    ensures var hidden := HiddenIndex(ToMap(Before(x, v)));
            HiddenFor(hidden, "a") == {} && HiddenFor(hidden, "b") == {}
  {
    DistinctNames();
    var m := ToMap(Before(x, v));
    assert forall k :: k in m ==> m[k].snap == 1;
    assert HiddenIn(m, "a") == {};
  }

  lemma NewIndex(x: Id, v: Vec, w: Vec)
    ensures var hidden := HiddenIndex(ToMap(After(x, v, w)));
            HiddenFor(hidden, "a") == {x} && HiddenFor(hidden, "b") == {}
  {
    var m := ToMap(After(x, v, w));
    assert x in RowsOf(m["a"]) && x in RowsOf(m["b"]) && m["b"].snap > m["a"].snap;
    assert HeldAfter(m, m["a"].snap, x);
  }

  lemma FlattenTwo<T>(a: seq<T>, b: seq<T>)
    ensures Flatten([a, b]) == a + b
  {
    assert [a, b][..1] == [a] && [a][..0] == [];
    assert Flatten([a]) == a;
  }

  // The hits of the two cached segments under an index.
  lemma TwoLists(f: Faiss, x: Id, v: Vec, w: Vec, hidden: map<string, set<Id>>, q: Vec, k: nat, nprobe: nat)
    ensures CacheSearch(f, After(x, v, w), {}, hidden, q, k, nprobe, 3) ==
            Merged(Unhidden(SegmentHits(f, OneRow(x, v), q, k, nprobe), HiddenFor(hidden, "a")) +
                   Unhidden(SegmentHits(f, OneRow(x, w), q, k, nprobe), HiddenFor(hidden, "b")), k, {})
  {
    var cache := After(x, v, w);
    var rs := CacheResults(f, cache, {}, hidden, q, k, nprobe);
    AllReady(cache, 3);
    CacheResultsAt(f, cache, {}, hidden, q, k, nprobe);
    assert {} + HiddenFor(hidden, "a") == HiddenFor(hidden, "a");
    assert {} + HiddenFor(hidden, "b") == HiddenFor(hidden, "b");
    assert rs == [rs[0], rs[1]];
    FlattenTwo(rs[0], rs[1]);
  }

  lemma NearerWins(x: Id, d: real, e: real, k: nat)
    requires d < e && k >= 1
    ensures Hit(d, x) in Merged([Hit(d, x), Hit(e, x)], k, {})
  {
    var hits := [Hit(d, x), Hit(e, x)];
    var top := Merged(hits, k, {});
    MergedIsTopK(hits, k, {}, d);
    assert hits[0] in hits;
    assert Within(hits, {}, d) == {x};
    assert x in Within(top, {}, d);
    MergedIsWellFormed(hits, k, {});
  }

  lemma OnlyCandidate(x: Id, d: real, e: real, k: nat)
    requires d < e
    ensures Hit(d, x) !in Merged([Hit(e, x)], k, {})
  {
    MergedIsWellFormed([Hit(e, x)], k, {});
  }

  // After the failed refresh a query nearer to the old vector gets the old vector; with
  // the index rebuilt it would not.
  lemma FailedRefreshServesOldVector(f: Faiss, x: Id, v: Vec, w: Vec, q: Vec, k: nat, nprobe: nat)
    requires x >= 0 && k >= 1 && f.dist(q, v) < f.dist(q, w)
    requires NearestHits(f.dist, OneRow(x, v), q, k, f.index(OneRow(x, v), q, k, nprobe))
    requires NearestHits(f.dist, OneRow(x, w), q, k, f.index(OneRow(x, w), q, k, nprobe))
    ensures var stale, rebuilt := HiddenIndex(ToMap(Before(x, v))), HiddenIndex(ToMap(After(x, v, w)));
            && Hit(f.dist(q, v), x) in CacheSearch(f, After(x, v, w), {}, stale, q, k, nprobe, 3)
            && Hit(f.dist(q, v), x) !in CacheSearch(f, After(x, v, w), {}, rebuilt, q, k, nprobe, 3)
  {
    var d, e := f.dist(q, v), f.dist(q, w);
    var a: seq<Hit>, b: seq<Hit> := [Hit(d, x)], [Hit(e, x)];
    OneHit(f, x, v, q, k, nprobe);
    OneHit(f, x, w, q, k, nprobe);
    OldIndex(x, v);
    NewIndex(x, v, w);
    TwoLists(f, x, v, w, HiddenIndex(ToMap(Before(x, v))), q, k, nprobe);
    TwoLists(f, x, v, w, HiddenIndex(ToMap(After(x, v, w))), q, k, nprobe);
    NothingHidden(a);
    NothingHidden(b);
    assert a[1..] == [] && Unhidden(a, {x}) == [];
    assert a + b == [Hit(d, x), Hit(e, x)] && [] + b == b;
    NearerWins(x, d, e, k);
    OnlyCandidate(x, d, e, k);
  }
}
