// The reader's cache: an LRU dictionary of segments and a memoised index of the
// ids each segment must hide because a newer one rewrites them.
module SegmentCaches {
  import opened WalCodec
  import opened Dicts
  import opened Sorting
  import opened MergeResults
  import opened Segments
  import LsmModel

  // A segment's entry in the registry. Its directory is named by its id.
  datatype Meta = Meta(id: string, shard: nat, snap: nat)

  type Cached = Dict<string, Segment>

  // The segment that was created under each id; segments never change.
  type Universe = string -> Segment

  ghost predicate Describes(u: Universe, m: Meta) {
    u(m.id).id == m.id && u(m.id).snap == m.snap
  }

  // ---- which segments, in which order -------------------------------------------------

  predicate MetaLe(a: (string, Meta), b: (string, Meta)) {
    PairLe((a.1.snap, a.0), (b.1.snap, b.0))
  }

  lemma MetaLeIsOrder()
    ensures TotalPreorder(MetaLe)
  {
    PairLeIsTotalOrder();
    forall a, b ensures MetaLe(a, b) || MetaLe(b, a) {
      assert PairLe((a.1.snap, a.0), (b.1.snap, b.0)) || PairLe((b.1.snap, b.0), (a.1.snap, a.0));
    }
    forall a, b, c | MetaLe(a, b) && MetaLe(b, c) ensures MetaLe(a, c) {
      assert PairLe((a.1.snap, a.0), (b.1.snap, b.0)) && PairLe((b.1.snap, b.0), (c.1.snap, c.0));
    }
  }

  // The `visible` dictionary of `refresh`.
  function VisibleMetas(shard: nat, loadAll: bool, metas: seq<Meta>): Dict<string, Meta> {
    if metas == [] then []
    else
      var m, front := metas[|metas| - 1], VisibleMetas(shard, loadAll, metas[..|metas| - 1]);
      if loadAll || m.shard == shard then Put(front, m.id, m) else front
  }

  // Registered segments this reader should hold, oldest first.
  function Wanted(shard: nat, loadAll: bool, metas: seq<Meta>): seq<(string, Meta)> {
    Sort(MetaLe, VisibleMetas(shard, loadAll, metas))
  }

  lemma WantedIsOrdered(shard: nat, loadAll: bool, metas: seq<Meta>)
    ensures var w := Wanted(shard, loadAll, metas);
            && Sorted(MetaLe, w) && DistinctKeys(w) && ToMap(w) == ToMap(VisibleMetas(shard, loadAll, metas))
    ensures var w := Wanted(shard, loadAll, metas);
            forall i, j :: 0 <= i < j < |w| ==>
              w[i].1.snap < w[j].1.snap || (w[i].1.snap == w[j].1.snap && StringLe(w[i].0, w[j].0))
  {
    MetaLeIsOrder();
    SortSorts(MetaLe, VisibleMetas(shard, loadAll, metas));
    RearrangedDict(VisibleMetas(shard, loadAll, metas), Wanted(shard, loadAll, metas));
    var w := Wanted(shard, loadAll, metas);
    forall i, j | 0 <= i < j < |w|
      ensures w[i].1.snap < w[j].1.snap || (w[i].1.snap == w[j].1.snap && StringLe(w[i].0, w[j].0))
    {
      assert MetaLe(w[i], w[j]);
    }
  }

  // A reader wants the entries of its shard, or all entries: of each id the one listed last.
  ghost predicate LastListed(shard: nat, loadAll: bool, metas: seq<Meta>, i: nat)
    requires i < |metas|
  {
    && (loadAll || metas[i].shard == shard)
    && forall j :: i < j < |metas| && (loadAll || metas[j].shard == shard) ==> metas[j].id != metas[i].id
  }

  lemma {:induction false} VisibleAre(shard: nat, loadAll: bool, metas: seq<Meta>, k: string)
    ensures var m := ToMap(VisibleMetas(shard, loadAll, metas));
            k in m <==> exists i :: 0 <= i < |metas| && metas[i].id == k && LastListed(shard, loadAll, metas, i)
    ensures var m := ToMap(VisibleMetas(shard, loadAll, metas));
            forall i :: 0 <= i < |metas| && metas[i].id == k && LastListed(shard, loadAll, metas, i) ==>
              k in m && m[k] == metas[i]
  {
    if metas != [] {
      var n := |metas| - 1;
      var front, last := metas[..n], metas[n];
      VisibleAre(shard, loadAll, front, k);
      var mine := loadAll || last.shard == shard;
      forall i | 0 <= i < n && metas[i].id == k
        ensures LastListed(shard, loadAll, metas, i) <==>
                LastListed(shard, loadAll, front, i) && !(mine && last.id == k)
      {
        LastListedSnoc(shard, loadAll, metas, i);
      }
      if mine && last.id == k {
        assert LastListed(shard, loadAll, metas, n);
      } else if k in ToMap(VisibleMetas(shard, loadAll, front)) {
        var i :| 0 <= i < n && front[i].id == k && LastListed(shard, loadAll, front, i);
        assert metas[i].id == k;
      }
    }
  }

  lemma LastListedSnoc(shard: nat, loadAll: bool, metas: seq<Meta>, i: nat)
    requires i < |metas| - 1
    ensures var n := |metas| - 1;
            LastListed(shard, loadAll, metas, i) <==>
            LastListed(shard, loadAll, metas[..n], i) &&
            !((loadAll || metas[n].shard == shard) && metas[n].id == metas[i].id)
  {
    var n := |metas| - 1;
    assert forall j :: 0 <= j < n ==> metas[..n][j] == metas[j];
  }

  function Loaded(u: Universe, wanted: seq<(string, Meta)>): (d: seq<(string, Segment)>)
    ensures |d| == |wanted|
    ensures forall i :: 0 <= i < |d| ==> d[i] == (wanted[i].0, u(wanted[i].0))
  {
    seq(|wanted|, i requires 0 <= i < |wanted| => (wanted[i].0, u(wanted[i].0)))
  }

  // What a refresh leaves in the cache: the newest `max` wanted segments.
  function Newest(u: Universe, wanted: seq<(string, Meta)>, max: nat): seq<(string, Segment)> {
    Loaded(u, wanted[|wanted| - Min(max, |wanted|)..])
  }

  // ---- the load loop -------------------------------------------------------------------

  // Cached segments that are still wanted, in their order.
  function Kept(cache: seq<(string, Segment)>, wanted: seq<(string, Meta)>): seq<(string, Segment)> {
    if cache == [] then []
    else
      var last := cache[|cache| - 1];
      Kept(cache[..|cache| - 1], wanted) + if Has(wanted, last.0) then [last] else []
  }

  function LastOf<T>(s: seq<T>, n: nat): seq<T> {
    s[|s| - Min(n, |s|)..]
  }

  // A loaded segment goes last, and the oldest entries beyond the bound are evicted.
  function Added(cache: Cached, id: string, g: Segment, max: nat): (r: Cached)
    requires !Has(cache, id)
    ensures r == LastOf(cache + [(id, g)], max)
  {
    PutNewAppends(cache, id, g);
    LastIsDict(Put(cache, id, g), max);
    LastOf(Put(cache, id, g), max)
  }

  lemma LastIsDict<K, V>(d: Dict<K, V>, n: nat)
    ensures DistinctKeys(LastOf(d, n))
  {
    var lo := |d| - Min(n, |d|);
    SliceDistinct(d, lo, |d|);
    assert d[lo..|d|] == d[lo..];
  }

  // One turn of the loop: a cached segment moves to the end, another is loaded, and a
  // missing directory ends the loop.
  function Turned(cache: Cached, id: string, disk: map<string, Segment>, max: nat): (bool, Cached) {
    if Has(cache, id) then (true, MoveToEnd(cache, id))
    else if id !in disk then (false, cache)
    else (true, Added(cache, id, disk[id], max))
  }

  // The first n wanted segments in turn: whether all were found, and the cache.
  function LoadFirst(cache: Cached, wanted: seq<(string, Meta)>, n: nat, disk: map<string, Segment>, max: nat)
    : (bool, Cached)
    requires n <= |wanted|
  {
    if n == 0 then (true, cache)
    else
      var (ok, before) := LoadFirst(cache, wanted, n - 1, disk, max);
      if ok then Turned(before, wanted[n - 1].0, disk, max) else (false, before)
  }

  // ---- the visibility index -----------------------------------------------------------

  ghost function RowsOf(g: Segment): map<Id, Vec> {
    ToMap(g.rows)
  }

  // Some segment above the snapshot holds x.
  ghost predicate HeldAfter(m: map<string, Segment>, snap: nat, x: Id) {
    exists j :: j in m && x in RowsOf(m[j]) && m[j].snap > snap
  }

  // The ids of segment k that a newer loaded segment also holds.
  ghost function HiddenIn(m: map<string, Segment>, k: string): set<Id>
    requires k in m
  {
    set x | x in RowsOf(m[k]) && HeldAfter(m, m[k].snap, x)
  }

  // A rebuild of the index from scratch.
  ghost function HiddenIndex(m: map<string, Segment>): map<string, set<Id>> {
    map k | k in m :: HiddenIn(m, k)
  }

  predicate SigLe(a: (string, nat), b: (string, nat)) {
    if a.0 == b.0 then a.1 <= b.1 else StringLe(a.0, b.0)
  }

  function SigOf(d: seq<(string, Segment)>): (s: seq<(string, nat)>)
    ensures |s| == |d|
    ensures forall i :: 0 <= i < |s| ==> s[i] == (d[i].1.id, d[i].1.snap)
  {
    seq(|d|, i requires 0 <= i < |d| => (d[i].1.id, d[i].1.snap))
  }

  function Signature(d: seq<(string, Segment)>): seq<(string, nat)> {
    Sort(SigLe, SigOf(d))
  }

  // The segments a signature stands for.
  ghost function Behind(u: Universe, signature: seq<(string, nat)>): map<string, Segment> {
    map k | k in SigIds(signature) :: u(k)
  }

  ghost function SigIds(signature: seq<(string, nat)>): set<string> {
    set e | e in signature :: e.0
  }

  ghost predicate FromUniverse(u: Universe, d: seq<(string, Segment)>) {
    forall i :: 0 <= i < |d| ==> d[i].1 == u(d[i].0) && u(d[i].0).id == d[i].0
  }

  lemma SigIdsAre(u: Universe, d: Cached)
    requires FromUniverse(u, d)
    ensures SigIds(SigOf(d)) == ToMap(d).Keys
  {
    forall k | k in SigIds(SigOf(d)) ensures k in ToMap(d) {
      var e :| e in SigOf(d) && e.0 == k;
      var i :| 0 <= i < |d| && SigOf(d)[i] == e;
      EntryAt(d, i);
    }
    forall k | k in ToMap(d) ensures k in SigIds(SigOf(d)) {
      var i := IndexFor(d, k);
      assert SigOf(d)[i] in SigOf(d);
    }
  }

  lemma CachedValue(u: Universe, d: Cached, k: string)
    requires FromUniverse(u, d) && k in ToMap(d)
    ensures ToMap(d)[k] == u(k) && u(k).id == k
  {
    var i := IndexFor(d, k);
  }

  lemma SameSigIds(a: seq<(string, nat)>, b: seq<(string, nat)>)
    requires multiset(a) == multiset(b)
    ensures SigIds(a) == SigIds(b)
  {
    SameMembers(a, b);
  }

  lemma SignatureStandsFor(u: Universe, d: Cached)
    requires FromUniverse(u, d)
    ensures Behind(u, Signature(d)) == ToMap(d)
  {
    SigIdsAre(u, d);
    SameSigIds(Signature(d), SigOf(d));
    forall k | k in ToMap(d) ensures ToMap(d)[k] == u(k) {
      CachedValue(u, d, k);
    }
  }

  // ---- search -----------------------------------------------------------------------------

  function Ready(d: seq<(string, Segment)>, snapshot: nat): seq<(string, Segment)> {
    if d == [] then []
    else
      var last := d[|d| - 1];
      Ready(d[..|d| - 1], snapshot) + if last.1.snap <= snapshot then [last] else []
  }

  function HiddenFor(hidden: map<string, set<Id>>, id: string): set<Id> {
    if id in hidden then hidden[id] else {}
  }

  // For each segment of m the index hides what a rebuild from m would.
  ghost predicate HidesLike(hidden: map<string, set<Id>>, m: map<string, Segment>) {
    forall k :: k in m ==> HiddenFor(hidden, k) == HiddenIn(m, k)
  }

  // No row of m has gained or lost its newer holder since b was indexed.
  ghost predicate SameHolders(b: map<string, Segment>, m: map<string, Segment>) {
    forall k, x :: k in m && x in RowsOf(m[k]) ==>
                     (k in b && HeldAfter(b, m[k].snap, x) <==> HeldAfter(m, m[k].snap, x))
  }

  ghost predicate DrawnFrom(u: Universe, m: map<string, Segment>) {
    forall k :: k in m ==> m[k] == u(k)
  }

  // When the index of b serves m as well as a rebuilt one.
  lemma HidesLikeIff(u: Universe, b: map<string, Segment>, m: map<string, Segment>)
    requires DrawnFrom(u, b) && DrawnFrom(u, m)
    ensures HidesLike(HiddenIndex(b), m) <==> SameHolders(b, m)
  {
    if SameHolders(b, m) {
      forall k | k in m ensures HiddenFor(HiddenIndex(b), k) == HiddenIn(m, k) {
        assert forall x :: x in RowsOf(m[k]) ==> (k in b && HeldAfter(b, m[k].snap, x) <==> HeldAfter(m, m[k].snap, x));
      }
    }
    if HidesLike(HiddenIndex(b), m) {
      forall k, x | k in m && x in RowsOf(m[k])
        ensures k in b && HeldAfter(b, m[k].snap, x) <==> HeldAfter(m, m[k].snap, x)
      {
        assert x in HiddenFor(HiddenIndex(b), k) <==> x in HiddenIn(m, k);
      }
    }
  }

  function CacheResults(f: Faiss, ready: seq<(string, Segment)>, tombs: set<Id>, hidden: map<string, set<Id>>,
      q: Vec, k: nat, nprobe: nat): seq<seq<Hit>> {
    if ready == [] then []
    else
      var (id, g) := ready[|ready| - 1];
      CacheResults(f, ready[..|ready| - 1], tombs, hidden, q, k, nprobe) +
      [Unhidden(SegmentHits(f, g.rows, q, k, nprobe), tombs + HiddenFor(hidden, id))]
  }

  // `search_all`.
  function CacheSearch(f: Faiss, d: seq<(string, Segment)>, tombs: set<Id>, hidden: map<string, set<Id>>,
      q: Vec, k: nat, nprobe: nat, snapshot: nat): seq<Hit> {
    Merged(Flatten(CacheResults(f, Ready(d, snapshot), tombs, hidden, q, k, nprobe)), k, tombs)
  }

  lemma {:induction false} ReadyAreCached(d: Cached, snapshot: nat, i: nat)
    requires i < |Ready(d, snapshot)|
    ensures Ready(d, snapshot)[i].0 in ToMap(d) && ToMap(d)[Ready(d, snapshot)[i].0] == Ready(d, snapshot)[i].1
  {
    var n := |d| - 1;
    SliceDistinct(d, 0, n);
    assert d[0..n] == d[..n];
    if i < |Ready(d[..n], snapshot)| {
      ReadyAreCached(d[..n], snapshot, i);
      PrefixMap(d, n, Ready(d[..n], snapshot)[i].0);
    } else {
      EntryAt(d, n);
    }
  }

  function Keys(d: seq<(string, Segment)>): set<string> {
    set e | e in d :: e.0
  }

  function Without(d: seq<(string, Segment)>, ks: set<string>): seq<(string, Segment)> {
    if d == [] then [] else (if d[0].0 in ks then [] else [d[0]]) + Without(d[1..], ks)
  }

  lemma {:induction false} WithoutAre(d: Cached, ks: set<string>)
    ensures DistinctKeys(Without(d, ks)) && ToMap(Without(d, ks)) == ToMap(d) - ks
  {
    if d != [] {
      var rest := Without(d[1..], ks);
      WithoutAre(d[1..], ks);
      LsmModel.UpdateMinus(ToMap(d[1..]), d[0].0, d[0].1, ks);
      assert ([d[0]] + rest)[1..] == rest && [] + rest == rest;
    }
  }

  lemma {:induction false} WithoutNone(d: seq<(string, Segment)>)
    ensures Without(d, {}) == d
  {
    if d != [] {
      WithoutNone(d[1..]);
      assert d == [d[0]] + d[1..];
    }
  }

  lemma {:induction false} WithoutAbsent(d: Cached, ks: set<string>, k: string)
    requires k !in ToMap(d)
    ensures Without(d, ks + {k}) == Without(d, ks)
  {
    if d != [] {
      WithoutAbsent(d[1..], ks, k);
    }
  }

  lemma {:induction false} RemoveIsWithout(d: Cached, ks: set<string>, k: string)
    requires DistinctKeys(Without(d, ks)) && k !in ks
    ensures Remove(Without(d, ks), k) == Without(d, ks + {k})
  {
    if d != [] {
      var rest := Without(d[1..], ks);
      WithoutAre(d[1..], ks);
      assert ([d[0]] + rest)[1..] == rest && [] + rest == rest;
      if d[0].0 == k {
        WithoutAbsent(d[1..], ks, k);
        assert [] + Without(d[1..], ks + {k}) == Without(d[1..], ks + {k});
      } else {
        RemoveIsWithout(d[1..], ks, k);
        assert [] + Without(d[1..], ks + {k}) == Without(d[1..], ks + {k});
      }
    }
  }

  lemma {:induction false} ReadyDistinct(d: Cached, snapshot: nat)
    ensures DistinctKeys(Ready(d, snapshot))
    ensures forall k :: k in ToMap(Ready(d, snapshot)) ==> k in ToMap(d)
  {
    if d != [] {
      var n := |d| - 1;
      LsmModel.LastEntry(d);
      ReadyDistinct(d[..n], snapshot);
      if d[n].1.snap <= snapshot {
        Appended(Ready(d[..n], snapshot), d[n].0, d[n].1);
      } else {
        assert Ready(d[..n], snapshot) + [] == Ready(d[..n], snapshot);
      }
    }
  }

  lemma NoneTouched(d: Cached, visible: seq<(string, Segment)>)
    ensures Without(d, Keys(visible[..0])) + visible[..0] == d
  {
    WithoutNone(d);
    assert Keys(visible[..0]) == {};
  }

  // One visible entry more has gone to the end.
  lemma TouchNext(d: Cached, visible: Cached, i: nat, now: Cached)
    requires i < |visible| && visible[i].0 in ToMap(d) && ToMap(d)[visible[i].0] == visible[i].1
    requires now == Without(d, Keys(visible[..i])) + visible[..i]
    ensures Has(now, visible[i].0)
    ensures MoveToEnd(now, visible[i].0) == Without(d, Keys(visible[..i + 1])) + visible[..i + 1]
  {
    var ks, k := Keys(visible[..i]), visible[i].0;
    if k in ks {
      var e :| e in visible[..i] && e.0 == k;
      var j :| 0 <= j < i && visible[j] == e;
      DistinctAt(visible, j, i);
      assert false;
    }
    WithoutAre(d, ks);
    RemoveIsWithout(d, ks, k);
    TouchedKeys(visible, i);
    TouchedEntry(now, Without(d, ks), visible[..i], k, visible[i].1);
  }

  lemma TouchedKeys(visible: seq<(string, Segment)>, i: nat)
    requires i < |visible|
    ensures Keys(visible[..i + 1]) == Keys(visible[..i]) + {visible[i].0}
    ensures visible[..i + 1] == visible[..i] + [visible[i]]
  {
    assert visible[..i + 1] == visible[..i] + [visible[i]];
  }

  lemma TouchedEntry(now: Cached, front: Cached, moved: seq<(string, Segment)>, k: string, g: Segment)
    requires now == front + moved && k in ToMap(front) && ToMap(front)[k] == g
    ensures Has(now, k) && MoveToEnd(now, k) == Remove(front, k) + (moved + [(k, g)])
  {
    var i := IndexFor(front, k);
    assert now[i] == (k, g);
    EntryAt(now, i);
    assert now[..|front|] == front && now[|front|..] == moved;
    MovedShape(now, |front|, k);
    assert Remove(front, k) + moved + [(k, g)] == Remove(front, k) + (moved + [(k, g)]);
  }

  // An index that hides like a rebuilt one gives the same answers.
  lemma {:induction false} SameCacheResults(f: Faiss, ready: seq<(string, Segment)>, m: map<string, Segment>,
      tombs: set<Id>, hidden: map<string, set<Id>>, q: Vec, k: nat, nprobe: nat)
    requires HidesLike(hidden, m) && forall i :: 0 <= i < |ready| ==> ready[i].0 in m
    ensures CacheResults(f, ready, tombs, hidden, q, k, nprobe) ==
            CacheResults(f, ready, tombs, HiddenIndex(m), q, k, nprobe)
  {
    if ready != [] {
      var n := |ready| - 1;
      SameCacheResults(f, ready[..n], m, tombs, hidden, q, k, nprobe);
      assert ready[n].0 in m;
      assert HiddenFor(hidden, ready[n].0) == HiddenFor(HiddenIndex(m), ready[n].0);
    }
  }

  lemma SameCacheSearch(f: Faiss, d: Cached, tombs: set<Id>, hidden: map<string, set<Id>>, q: Vec, k: nat,
      nprobe: nat, snapshot: nat)
    requires HidesLike(hidden, ToMap(d))
    ensures CacheSearch(f, d, tombs, hidden, q, k, nprobe, snapshot) ==
            CacheSearch(f, d, tombs, HiddenIndex(ToMap(d)), q, k, nprobe, snapshot)
  {
    forall i | 0 <= i < |Ready(d, snapshot)| ensures Ready(d, snapshot)[i].0 in ToMap(d) {
      ReadyAreCached(d, snapshot, i);
    }
    SameCacheResults(f, Ready(d, snapshot), ToMap(d), tombs, hidden, q, k, nprobe);
  }

  lemma PrefixMap<K, V>(d: Dict<K, V>, n: nat, k: K)
    requires n <= |d| && DistinctKeys(d[..n]) && k in ToMap(d[..n])
    ensures k in ToMap(d) && ToMap(d)[k] == ToMap(d[..n])[k]
  {
    var i := IndexFor(d[..n], k);
    assert d[i] == d[..n][i];
    EntryAt(d, i);
  }

  // ---- the object ---------------------------------------------------------------------------

  class SegmentCache {
    const shard: nat
    const maxSegments: nat
    const loadAll: bool
    ghost const universe: Universe
    var segments: Cached
    var tombs: set<Id>
    var hidden: map<string, set<Id>>
    var signature: seq<(string, nat)>

    // The index is what a rebuild from the signature's segments would give.
    ghost predicate Valid()
      reads this
    {
      && maxSegments > 0 && |segments| <= maxSegments
      && FromUniverse(universe, segments)
      && hidden == HiddenIndex(Behind(universe, signature))
    }

    // For each loaded segment the index hides what a rebuild would.
    ghost predicate Coherent()
      reads this
    {
      HidesLike(hidden, ToMap(segments))
    }

    // The index was last built from the loaded segments.
    ghost predicate Indexed()
      reads this
    {
      Behind(universe, signature) == ToMap(segments)
    }

    constructor (shard: nat, maxSegments: nat, loadAll: bool, ghost universe: Universe)
      requires maxSegments > 0
      ensures Valid() && Indexed() && segments == [] && this.universe == universe
      ensures this.shard == shard && this.maxSegments == maxSegments && this.loadAll == loadAll
    {
      this.shard, this.maxSegments, this.loadAll, this.universe := shard, maxSegments, loadAll, universe;
      segments, tombs, hidden, signature := [], {}, map[], [];
    }

    // `disk` holds the segment directories that exist now. A missing one makes loading
    // fail: the tombstones and part of the cache are then new, the index is the old one.
    // That one still serves exactly if no cached row has gained or lost its newer holder.
    method Refresh(metas: seq<Meta>, tombsFile: set<Id>, disk: map<string, Segment>) returns (ok: bool)
      requires Valid()
      requires forall m :: m in metas ==> Describes(universe, m)
      requires forall k :: k in disk ==> disk[k] == universe(k)
      modifies this
      ensures Valid() && tombs == tombsFile
      ensures var wanted := Wanted(shard, loadAll, metas);
              && DistinctKeys(Kept(old(segments), wanted))
              && (ok, segments) == LoadFirst(Kept(old(segments), wanted), wanted, |wanted|, disk, maxSegments)
      ensures ok ==> segments == Newest(universe, Wanted(shard, loadAll, metas), maxSegments) && Indexed() && Coherent()
      ensures !ok ==> hidden == old(hidden) && signature == old(signature)
      ensures !ok ==> (Coherent() <==> SameHolders(Behind(universe, old(signature)), ToMap(segments)))
      ensures (forall e :: e in Wanted(shard, loadAll, metas) ==> e.0 in disk) ==> ok
      ensures var wanted := Wanted(shard, loadAll, metas);
              var found := FirstMissing(old(segments), wanted, disk);
              |wanted| <= maxSegments ==>
                && (ok <==> found == |wanted|)
                && ToMap(segments) == Partial(universe, old(segments), wanted, found)
    {
      tombs := tombsFile;
      ok := LoadSegments(metas, disk);
      CachedIsDrawn(universe, segments);
      if !ok {
        HidesLikeIff(universe, Behind(universe, signature), ToMap(segments));
        return;
      }
      RefreshVisibilityIndexIfNeeded();
    }

    method LoadSegments(metas: seq<Meta>, disk: map<string, Segment>) returns (ok: bool)
      requires Valid()
      requires forall m :: m in metas ==> Describes(universe, m)
      requires forall k :: k in disk ==> disk[k] == universe(k)
      modifies `segments
      ensures Valid()
      ensures var wanted := Wanted(shard, loadAll, metas);
              && DistinctKeys(Kept(old(segments), wanted))
              && (ok, segments) == LoadFirst(Kept(old(segments), wanted), wanted, |wanted|, disk, maxSegments)
      ensures ok ==> segments == Newest(universe, Wanted(shard, loadAll, metas), maxSegments)
      ensures (forall e :: e in Wanted(shard, loadAll, metas) ==> e.0 in disk) ==> ok
      ensures var wanted := Wanted(shard, loadAll, metas);
              var found := FirstMissing(old(segments), wanted, disk);
              |wanted| <= maxSegments ==>
                && (ok <==> found == |wanted|)
                && ToMap(segments) == Partial(universe, old(segments), wanted, found)
    {
      var wanted := Wanted(shard, loadAll, metas);
      WantedIsOrdered(shard, loadAll, metas);
      WantedAreDescribed(universe, shard, loadAll, metas);
      assert forall i :: 0 <= i < |wanted| ==> wanted[i] in wanted;
      LoadingIs(universe, segments, wanted, disk, maxSegments);
      var kept := DropUnwanted(universe, segments, wanted);
      ok, segments := LoadWanted(kept, wanted, disk, maxSegments);
    }

    method RefreshVisibilityIndexIfNeeded()
      requires Valid()
      modifies this
      ensures Valid() && Indexed() && Coherent() && segments == old(segments) && tombs == old(tombs)
    {
      SignatureStandsFor(universe, segments);
      var current := Signature(segments);
      if current == signature {
        return;
      }
      signature := current;
      hidden := BuildSegmentHiddenIds(segments);
    }

    method SearchAll(f: Faiss, q: Vec, topK: nat, nprobe: nat, snapshot: nat) returns (top: seq<Hit>)
      requires Valid()
      modifies `segments
      ensures Valid() && (old(Coherent()) ==> Coherent()) && (old(Indexed()) ==> Indexed())
      ensures top == CacheSearch(f, old(segments), tombs, hidden, q, topK, nprobe, snapshot)
      ensures old(Coherent()) ==>
                top == CacheSearch(f, old(segments), tombs, HiddenIndex(ToMap(segments)), q, topK, nprobe, snapshot)
      ensures ToMap(segments) == ToMap(old(segments)) && |segments| == |old(segments)|
      ensures var visible := Ready(old(segments), snapshot);
              segments == Without(old(segments), Keys(visible)) + visible
    {
      var visible := Ready(segments, snapshot);
      ReadyDistinct(segments, snapshot);
      forall i | 0 <= i < |visible|
        ensures visible[i].0 in ToMap(segments) && ToMap(segments)[visible[i].0] == visible[i].1
      {
        ReadyAreCached(segments, snapshot, i);
      }
      var results := SearchVisible(f, visible, q, topK, nprobe);
      SizeIsLength(segments);
      SizeIsLength(old(segments));
      SameEntriesFromUniverse(universe, old(segments), segments);
      if Coherent() {
        SameCacheSearch(f, old(segments), tombs, hidden, q, topK, nprobe, snapshot);
      }
      top := Merge(results, topK, tombs);
    }

    method SearchVisible(f: Faiss, visible: Cached, q: Vec, topK: nat, nprobe: nat) returns (results: seq<seq<Hit>>)
      requires forall i :: 0 <= i < |visible| ==>
                 visible[i].0 in ToMap(segments) && ToMap(segments)[visible[i].0] == visible[i].1
      modifies `segments
      ensures results == CacheResults(f, visible, tombs, hidden, q, topK, nprobe)
      ensures ToMap(segments) == ToMap(old(segments))
      ensures segments == Without(old(segments), Keys(visible)) + visible
    {
      var items: seq<(string, Segment)> := visible;
      results := [];
      NoneTouched(segments, items);
      for i := 0 to |items|
        invariant ToMap(segments) == ToMap(old(segments))
        invariant segments == Without(old(segments), Keys(items[..i])) + items[..i]
        invariant results == CacheResults(f, items[..i], tombs, hidden, q, topK, nprobe)
      {
        var shown := SearchOne(f, items[i], q, topK, nprobe);
        results := results + [shown];
        assert items[..i + 1][..i] == items[..i];
        TouchNext(old(segments), visible, i, segments);
        segments := MoveToEnd(segments, items[i].0);
      }
      assert items[..|items|] == items;
    }

    method SearchOne(f: Faiss, item: (string, Segment), q: Vec, topK: nat, nprobe: nat) returns (shown: seq<Hit>)
      ensures shown == Unhidden(SegmentHits(f, item.1.rows, q, topK, nprobe), tombs + HiddenFor(hidden, item.0))
    {
      var hits := SegmentHits(f, item.1.rows, q, topK, nprobe);
      shown := FilterResultIds(hits, tombs + HiddenFor(hidden, item.0));
    }
  }

  lemma SameEntriesFromUniverse(u: Universe, a: Cached, b: Cached)
    requires FromUniverse(u, a) && ToMap(a) == ToMap(b)
    ensures FromUniverse(u, b)
  {
    forall i | 0 <= i < |b| ensures b[i].1 == u(b[i].0) && u(b[i].0).id == b[i].0 {
      EntryAt(b, i);
      var j := IndexFor(a, b[i].0);
    }
  }

  lemma WantedAreDescribed(u: Universe, shard: nat, loadAll: bool, metas: seq<Meta>)
    requires forall m :: m in metas ==> Describes(u, m)
    ensures forall e :: e in Wanted(shard, loadAll, metas) ==> e.0 == e.1.id && Describes(u, e.1)
  {
    var v := VisibleMetas(shard, loadAll, metas);
    SameMembers(Wanted(shard, loadAll, metas), v);
    forall e | e in v ensures e.0 == e.1.id && Describes(u, e.1) {
      var i :| 0 <= i < |v| && v[i] == e;
      EntryAt(v, i);
      VisibleIsListed(shard, loadAll, metas, e.0);
    }
  }

  lemma {:induction false} VisibleIsListed(shard: nat, loadAll: bool, metas: seq<Meta>, k: string)
    requires k in ToMap(VisibleMetas(shard, loadAll, metas))
    ensures var m := ToMap(VisibleMetas(shard, loadAll, metas))[k];
            m in metas && m.id == k && (loadAll || m.shard == shard)
  {
    var front, last := metas[..|metas| - 1], metas[|metas| - 1];
    assert metas == front + [last];
    if !((loadAll || last.shard == shard) && last.id == k) {
      VisibleIsListed(shard, loadAll, front, k);
    }
  }

  // ---- refresh, step by step --------------------------------------------------------------------

  method DropUnwanted(ghost u: Universe, cache: Cached, wanted: seq<(string, Meta)>) returns (kept: Cached)
    requires FromUniverse(u, cache)
    ensures kept == Kept(cache, wanted) && FromUniverse(u, kept) && |kept| <= |cache|
    ensures forall i :: 0 <= i < |kept| ==> kept[i].0 in ToMap(wanted)
  {
    var acc: seq<(string, Segment)> := [];
    var items: seq<(string, Segment)> := cache;
    for i := 0 to |items|
      invariant acc == Kept(items[..i], wanted)
    {
      assert items[..i + 1][..i] == items[..i];
      if Has(wanted, items[i].0) {
        acc := acc + [items[i]];
      }
    }
    assert items[..|items|] == items;
    KeptAre(cache, wanted);
    KeptFromUniverse(u, cache, wanted);
    kept := acc;
  }

  lemma {:induction false} KeptAre(cache: Cached, wanted: seq<(string, Meta)>)
    ensures var kept := Kept(cache, wanted);
            && DistinctKeys(kept) && |kept| <= |cache|
            && forall k :: k in ToMap(kept) <==> k in ToMap(cache) && k in ToMap(wanted)
    ensures forall i :: 0 <= i < |Kept(cache, wanted)| ==> Kept(cache, wanted)[i].0 in ToMap(wanted)
  {
    if cache != [] {
      var n := |cache| - 1;
      LsmModel.LastEntry(cache);
      KeptAre(cache[..n], wanted);
      if Has(wanted, cache[n].0) {
        Appended(Kept(cache[..n], wanted), cache[n].0, cache[n].1);
      } else {
        assert Kept(cache, wanted) == Kept(cache[..n], wanted);
      }
    }
  }

  lemma Appended<K, V>(d: Dict<K, V>, k: K, v: V)
    requires k !in ToMap(d)
    ensures DistinctKeys(d + [(k, v)]) && ToMap(d + [(k, v)]) == ToMap(d)[k := v]
  {
    PutNewAppends(d, k, v);
  }

  lemma {:induction false} KeptFromUniverse(u: Universe, cache: seq<(string, Segment)>, wanted: seq<(string, Meta)>)
    requires FromUniverse(u, cache)
    ensures FromUniverse(u, Kept(cache, wanted))
  {
    if cache != [] {
      KeptFromUniverse(u, cache[..|cache| - 1], wanted);
    }
  }

  // Where loading must stop: how many of the first n wanted segments come before the
  // first that is neither cached nor on disk.
  function FoundFirst(cache: Cached, wanted: seq<(string, Meta)>, n: nat, disk: map<string, Segment>): (r: nat)
    requires n <= |wanted|
    ensures r <= n && (forall j :: 0 <= j < r ==> wanted[j].0 in disk || Has(cache, wanted[j].0))
    ensures r < n ==> wanted[r].0 !in disk && !Has(cache, wanted[r].0)
  {
    if n == 0 then 0
    else
      var r, id := FoundFirst(cache, wanted, n - 1, disk), wanted[n - 1].0;
      if r == n - 1 && (id in disk || Has(cache, id)) then n else r
  }

  function FirstMissing(cache: Cached, wanted: seq<(string, Meta)>, disk: map<string, Segment>): nat {
    FoundFirst(cache, wanted, |wanted|, disk)
  }

  ghost function Names(wanted: seq<(string, Meta)>): set<string> {
    set e | e in wanted :: e.0
  }

  // The cached segments that are still wanted, and the first n wanted ones.
  ghost function Partial(u: Universe, cache: Cached, wanted: seq<(string, Meta)>, n: nat): map<string, Segment>
    requires n <= |wanted|
  {
    map k | k in ToMap(cache).Keys * ToMap(wanted).Keys + Names(wanted[..n]) :: u(k)
  }

  lemma CachedIsDrawn(u: Universe, d: Cached)
    requires FromUniverse(u, d)
    ensures DrawnFrom(u, ToMap(d))
  {
    forall k | k in ToMap(d) ensures ToMap(d)[k] == u(k) {
      CachedValue(u, d, k);
    }
  }

  // With room for every wanted segment nothing is evicted: loading fails exactly if one is
  // neither on disk nor cached, and leaves what is kept and what comes before that one.
  lemma FitsIff(cache: Cached, wanted: Dict<string, Meta>, disk: map<string, Segment>, max: nat)
    requires |wanted| <= max
    ensures var found := FirstMissing(cache, wanted, disk);
            && DistinctKeys(Kept(cache, wanted))
            && (LoadFirst(Kept(cache, wanted), wanted, |wanted|, disk, max).0 <==> found == |wanted|)
            && ToMap(LoadFirst(Kept(cache, wanted), wanted, |wanted|, disk, max).1).Keys ==
               ToMap(cache).Keys * ToMap(wanted).Keys + Names(wanted[..found])
  {
    KeptAre(cache, wanted);
    var kept: Cached := Kept(cache, wanted);
    assert ToMap(kept).Keys == ToMap(cache).Keys * ToMap(wanted).Keys;
    KeptFinds(cache, kept, wanted, |wanted|, disk);
    LoadFitsIff(kept, wanted, |wanted|, disk, max);
  }

  lemma PartialIs(u: Universe, cache: Cached, wanted: Dict<string, Meta>, disk: map<string, Segment>, max: nat)
    ensures DistinctKeys(Kept(cache, wanted))
    ensures var found := FirstMissing(cache, wanted, disk);
            var (ok, after) := LoadFirst(Kept(cache, wanted), wanted, |wanted|, disk, max);
            |wanted| <= max ==>
              (ok <==> found == |wanted|) &&
              (FromUniverse(u, after) ==> ToMap(after) == Partial(u, cache, wanted, found))
  {
    KeptAre(cache, wanted);
    if |wanted| <= max {
      FitsIff(cache, wanted, disk, max);
      var (ok, after) := LoadFirst(Kept(cache, wanted), wanted, |wanted|, disk, max);
      if FromUniverse(u, after) {
        CachedIsDrawn(u, after);
      }
    }
  }

  // All that a refresh promises of the cache.
  lemma LoadingIs(u: Universe, cache: Cached, wanted: Dict<string, Meta>, disk: map<string, Segment>, max: nat)
    requires max > 0 && |cache| <= max && FromUniverse(u, cache) && TrueTo(u, wanted, disk)
    ensures DistinctKeys(Kept(cache, wanted))
    ensures var (ok, after) := LoadFirst(Kept(cache, wanted), wanted, |wanted|, disk, max);
            && Bounded(u, after, max) && (ok ==> after == Newest(u, wanted, max))
            && ((forall i :: 0 <= i < |wanted| ==> wanted[i].0 in disk) ==> ok)
    ensures var found := FirstMissing(cache, wanted, disk);
            var (ok, after) := LoadFirst(Kept(cache, wanted), wanted, |wanted|, disk, max);
            |wanted| <= max ==> (ok <==> found == |wanted|) && ToMap(after) == Partial(u, cache, wanted, found)
  {
    KeptAre(cache, wanted);
    KeptFromUniverse(u, cache, wanted);
    PartialIs(u, cache, wanted, disk, max);
    LoadAllIs(u, Kept(cache, wanted), wanted, disk, max);
  }

  lemma {:induction false} KeptFinds(cache: Cached, kept: Cached, wanted: Dict<string, Meta>, n: nat,
      disk: map<string, Segment>)
    requires n <= |wanted| && ToMap(kept).Keys == ToMap(cache).Keys * ToMap(wanted).Keys
    ensures FoundFirst(kept, wanted, n, disk) == FoundFirst(cache, wanted, n, disk)
  {
    if n > 0 {
      KeptFinds(cache, kept, wanted, n - 1, disk);
      EntryAt(wanted, n - 1);
      assert wanted[n - 1].0 in ToMap(kept).Keys <==> wanted[n - 1].0 in ToMap(cache).Keys;
    }
  }

  lemma {:induction false} AllOnDisk(cache: Cached, wanted: seq<(string, Meta)>, n: nat, disk: map<string, Segment>,
      max: nat)
    requires n <= |wanted| && forall i :: 0 <= i < |wanted| ==> wanted[i].0 in disk
    ensures LoadFirst(cache, wanted, n, disk, max).0
  {
    if n > 0 {
      AllOnDisk(cache, wanted, n - 1, disk, max);
    }
  }

  lemma FittingCache(cache: Cached, wanted: Dict<string, Meta>, id: string)
    requires id !in ToMap(cache) && id in ToMap(wanted) && forall k :: k in ToMap(cache) ==> k in ToMap(wanted)
    ensures |cache| < |wanted|
  {
    SizeIsLength(cache);
    SizeIsLength(wanted);
    SubsetSize(ToMap(cache).Keys + {id}, ToMap(wanted).Keys);
    assert |ToMap(cache).Keys| == |ToMap(cache)| && |ToMap(wanted).Keys| == |ToMap(wanted)|;
  }

  // A turn with room fails exactly if the segment is neither on disk nor cached, and
  // otherwise leaves it cached with all the others.
  lemma FittingTurn(cache: Cached, wanted: Dict<string, Meta>, i: nat, disk: map<string, Segment>, max: nat)
    requires i < |wanted| <= max && forall k :: k in ToMap(cache) ==> k in ToMap(wanted)
    ensures var (ok, after) := Turned(cache, wanted[i].0, disk, max);
            && (ok <==> wanted[i].0 in disk || Has(cache, wanted[i].0))
            && ToMap(after).Keys == ToMap(cache).Keys + if ok then {wanted[i].0} else {}
  {
    var id := wanted[i].0;
    EntryAt(wanted, i);
    if !Has(cache, id) && id in disk {
      FittingCache(cache, wanted, id);
      assert Added(cache, id, disk[id], max) == cache + [(id, disk[id])];
      Appended(cache, id, disk[id]);
    }
  }

  // Where the loop stands after n segments: whether all so far were found, and what is
  // cached then.
  ghost predicate Fitting(cache: Cached, wanted: seq<(string, Meta)>, n: nat, disk: map<string, Segment>,
      outcome: (bool, Cached))
    requires n <= |wanted|
  {
    var found := FoundFirst(cache, wanted, n, disk);
    && (outcome.0 <==> found == n)
    && ToMap(outcome.1).Keys == ToMap(cache).Keys + Names(wanted[..found])
  }

  lemma NamesSnoc(wanted: Dict<string, Meta>, n: nat)
    requires n < |wanted|
    ensures Names(wanted[..n + 1]) == Names(wanted[..n]) + {wanted[n].0} && wanted[n].0 !in Names(wanted[..n])
  {
    assert wanted[..n + 1] == wanted[..n] + [wanted[n]];
    if wanted[n].0 in Names(wanted[..n]) {
      var e :| e in wanted[..n] && e.0 == wanted[n].0;
      var j :| 0 <= j < n && wanted[j] == e;
      DistinctAt(wanted, j, n);
      assert false;
    }
  }

  lemma NamesAreKeys(wanted: Dict<string, Meta>, n: nat)
    requires n <= |wanted|
    ensures Names(wanted[..n]) <= ToMap(wanted).Keys
  {
    forall k | k in Names(wanted[..n]) ensures k in ToMap(wanted) {
      var e :| e in wanted[..n] && e.0 == k;
      var j :| 0 <= j < n && wanted[j] == e;
      EntryAt(wanted, j);
    }
  }

  lemma FittingNext(cache: Cached, wanted: Dict<string, Meta>, n: nat, disk: map<string, Segment>, max: nat,
      before: (bool, Cached))
    requires n < |wanted| <= max && Fitting(cache, wanted, n, disk, before)
    requires forall k :: k in ToMap(cache) ==> k in ToMap(wanted)
    ensures Fitting(cache, wanted, n + 1, disk, if before.0 then Turned(before.1, wanted[n].0, disk, max) else before)
  {
    NamesAreKeys(wanted, n);
    if before.0 {
      assert forall k :: k in ToMap(before.1).Keys ==> k in ToMap(wanted);
      FittingTurn(before.1, wanted, n, disk, max);
      NamesSnoc(wanted, n);
      assert wanted[n].0 in ToMap(before.1).Keys <==> wanted[n].0 in ToMap(cache).Keys;
    }
  }

  lemma {:induction false} LoadFitsIff(cache: Cached, wanted: Dict<string, Meta>, n: nat, disk: map<string, Segment>,
      max: nat)
    requires n <= |wanted| <= max && forall k :: k in ToMap(cache) ==> k in ToMap(wanted)
    ensures Fitting(cache, wanted, n, disk, LoadFirst(cache, wanted, n, disk, max))
  {
    if n > 0 {
      LoadFitsIff(cache, wanted, n - 1, disk, max);
      FittingNext(cache, wanted, n - 1, disk, max, LoadFirst(cache, wanted, n - 1, disk, max));
    }
  }

  // k is still to come when the loop over the wanted list has reached i.
  ghost predicate Ahead(wanted: seq<(string, Meta)>, i: nat, k: string) {
    exists l :: i <= l < |wanted| && wanted[l].0 == k
  }

  // During that loop the cache is some entries not yet reached, then the last b
  // of those reached. Only when nothing is left ahead has one been evicted.
  ghost predicate Refreshed(u: Universe, cache: seq<(string, Segment)>, wanted: seq<(string, Meta)>, i: nat,
      max: nat, b: nat)
    requires i <= |wanted|
  {
    && b <= |cache| <= max && b <= i
    && cache[|cache| - b..] == Loaded(u, wanted[i - b..i])
    && (forall j :: 0 <= j < |cache| - b ==> Ahead(wanted, i, cache[j].0))
    && (b == i || b == |cache| == max)
    && FromUniverse(u, cache)
  }

  method LoadWanted(start: Cached, wanted: seq<(string, Meta)>, disk: map<string, Segment>, max: nat)
    returns (ok: bool, cache: Cached)
    ensures (ok, cache) == LoadFirst(start, wanted, |wanted|, disk, max)
  {
    cache := start;
    for i := 0 to |wanted|
      invariant (true, cache) == LoadFirst(start, wanted, i, disk, max)
    {
      NextTurn(start, wanted, i, disk, max);
      ok, cache := TakeTurn(cache, wanted[i].0, disk, max);
      if !ok {
        return;
      }
    }
    ok := true;
  }

  method TakeTurn(start: Cached, id: string, disk: map<string, Segment>, max: nat) returns (ok: bool, cache: Cached)
    ensures (ok, cache) == Turned(start, id, disk, max)
  {
    if Has(start, id) {
      return true, MoveToEnd(start, id);
    }
    if id !in disk {
      return false, start;
    }
    cache := AddAndEvict(start, id, disk[id], max);
    ok := true;
  }

  lemma NextTurn(start: Cached, wanted: seq<(string, Meta)>, i: nat, disk: map<string, Segment>, max: nat)
    requires i < |wanted| && LoadFirst(start, wanted, i, disk, max).0
    ensures var turned := Turned(LoadFirst(start, wanted, i, disk, max).1, wanted[i].0, disk, max);
            && LoadFirst(start, wanted, i + 1, disk, max) == turned
            && (!turned.0 ==> LoadFirst(start, wanted, |wanted|, disk, max) == turned)
  {
    TurnTo(start, wanted, i + 1, disk, max, LoadFirst(start, wanted, i, disk, max).1);
    if !LoadFirst(start, wanted, i + 1, disk, max).0 {
      StaysFailed(start, wanted, i + 1, |wanted|, disk, max);
    }
  }

  lemma TurnTo(start: Cached, wanted: seq<(string, Meta)>, n: nat, disk: map<string, Segment>, max: nat, cache: Cached)
    requires 0 < n <= |wanted| && LoadFirst(start, wanted, n - 1, disk, max) == (true, cache)
    ensures LoadFirst(start, wanted, n, disk, max) == Turned(cache, wanted[n - 1].0, disk, max)
  {
  }

  lemma {:induction false} StaysFailed(cache: Cached, wanted: seq<(string, Meta)>, i: nat, n: nat,
      disk: map<string, Segment>, max: nat)
    requires i <= n <= |wanted| && !LoadFirst(cache, wanted, i, disk, max).0
    ensures LoadFirst(cache, wanted, n, disk, max) == LoadFirst(cache, wanted, i, disk, max)
    decreases n
  {
    if i < n {
      StaysFailed(cache, wanted, i, n - 1, disk, max);
    }
  }

  // The registry names each directory, and the disk holds what was created there.
  ghost predicate TrueTo(u: Universe, wanted: seq<(string, Meta)>, disk: map<string, Segment>) {
    && (forall i :: 0 <= i < |wanted| ==> u(wanted[i].0).id == wanted[i].0)
    && forall k :: k in disk ==> disk[k] == u(k)
  }

  ghost predicate Bounded(u: Universe, cache: seq<(string, Segment)>, max: nat) {
    |cache| <= max && FromUniverse(u, cache)
  }

  lemma RefreshedBounds(u: Universe, cache: seq<(string, Segment)>, wanted: seq<(string, Meta)>, i: nat, max: nat,
      b: nat)
    requires i <= |wanted| && Refreshed(u, cache, wanted, i, max, b)
    ensures Bounded(u, cache, max)
  {
  }

  lemma TurnedIsRefreshed(u: Universe, cache: Cached, wanted: Dict<string, Meta>, i: nat, disk: map<string, Segment>,
      max: nat, b: nat)
    returns (c: nat)
    requires i < |wanted| && max > 0 && Refreshed(u, cache, wanted, i, max, b) && TrueTo(u, wanted, disk)
    ensures var (ok, after) := Turned(cache, wanted[i].0, disk, max);
            if ok then Refreshed(u, after, wanted, i + 1, max, c) else after == cache
  {
    c := b;
    if Has(cache, wanted[i].0) {
      MovedTurn(u, cache, wanted, i, disk, max, b);
      c := b + 1;
    } else if wanted[i].0 in disk {
      AddedTurn(u, cache, wanted, i, disk, max, b);
      c := if |cache| == b == max then b else b + 1;
    }
  }

  lemma MovedTurn(u: Universe, cache: Cached, wanted: Dict<string, Meta>, i: nat, disk: map<string, Segment>, max: nat,
      b: nat)
    requires i < |wanted| && Refreshed(u, cache, wanted, i, max, b) && Has(cache, wanted[i].0)
    ensures var (ok, after) := Turned(cache, wanted[i].0, disk, max);
            ok && Refreshed(u, after, wanted, i + 1, max, b + 1)
  {
    MovedIsRefreshed(u, cache, wanted, i, max, b);
  }

  lemma AddedTurn(u: Universe, cache: Cached, wanted: Dict<string, Meta>, i: nat, disk: map<string, Segment>, max: nat,
      b: nat)
    requires i < |wanted| && max > 0 && Refreshed(u, cache, wanted, i, max, b) && TrueTo(u, wanted, disk)
    requires !Has(cache, wanted[i].0) && wanted[i].0 in disk
    ensures var (ok, after) := Turned(cache, wanted[i].0, disk, max);
            ok && Refreshed(u, after, wanted, i + 1, max, if |cache| == b == max then b else b + 1)
  {
    AddedIsRefreshed(u, cache, wanted, i, max, b);
  }

  // Wherever the loop is, the cache is within its bound and true to the directories.
  ghost predicate Reached(u: Universe, outcome: (bool, Cached), wanted: seq<(string, Meta)>, n: nat, max: nat, b: nat)
    requires n <= |wanted|
  {
    Bounded(u, outcome.1, max) && (outcome.0 ==> Refreshed(u, outcome.1, wanted, n, max, b))
  }

  lemma ReachedNext(u: Universe, before: (bool, Cached), after: (bool, Cached), wanted: Dict<string, Meta>, i: nat,
      n: nat, disk: map<string, Segment>, max: nat, b: nat)
    returns (c: nat)
    requires i + 1 == n <= |wanted| && after == (if before.0 then Turned(before.1, wanted[i].0, disk, max) else before)
    requires max > 0 && Reached(u, before, wanted, i, max, b) && TrueTo(u, wanted, disk)
    ensures Reached(u, after, wanted, n, max, c)
  {
    c := b;
    if before.0 {
      c := ReachedTurn(u, before.1, wanted, i, disk, max, b);
    }
  }

  lemma ReachedTurn(u: Universe, cache: Cached, wanted: Dict<string, Meta>, i: nat, disk: map<string, Segment>,
      max: nat, b: nat)
    returns (c: nat)
    requires i < |wanted| && max > 0 && Refreshed(u, cache, wanted, i, max, b) && TrueTo(u, wanted, disk)
    ensures Reached(u, Turned(cache, wanted[i].0, disk, max), wanted, i + 1, max, c)
  {
    c := TurnedIsRefreshed(u, cache, wanted, i, disk, max, b);
    ReachedIs(u, cache, Turned(cache, wanted[i].0, disk, max), wanted, i, max, b, c);
  }

  lemma ReachedIs(u: Universe, cache: Cached, turned: (bool, Cached), wanted: seq<(string, Meta)>, i: nat, max: nat,
      b: nat, c: nat)
    requires i < |wanted| && Refreshed(u, cache, wanted, i, max, b)
    requires if turned.0 then Refreshed(u, turned.1, wanted, i + 1, max, c) else turned.1 == cache
    ensures Reached(u, turned, wanted, i + 1, max, c)
  {
    RefreshedBounds(u, cache, wanted, i, max, b);
    if turned.0 {
      RefreshedBounds(u, turned.1, wanted, i + 1, max, c);
    }
  }

  lemma LoadNext(start: Cached, wanted: seq<(string, Meta)>, n: nat, disk: map<string, Segment>, max: nat,
      before: (bool, Cached), after: (bool, Cached))
    requires 0 < n <= |wanted| && before == LoadFirst(start, wanted, n - 1, disk, max)
    requires after == LoadFirst(start, wanted, n, disk, max)
    ensures after == if before.0 then Turned(before.1, wanted[n - 1].0, disk, max) else before
  {
  }

  lemma ReachedStart(u: Universe, kept: Cached, wanted: seq<(string, Meta)>, max: nat)
    requires Refreshed(u, kept, wanted, 0, max, 0)
    ensures Reached(u, (true, kept), wanted, 0, max, 0)
  {
    RefreshedBounds(u, kept, wanted, 0, max, 0);
  }

  lemma {:induction false} LoadedIsRefreshed(u: Universe, kept: Cached, wanted: Dict<string, Meta>, n: nat,
      disk: map<string, Segment>, max: nat, loaded: (bool, Cached))
    returns (b: nat)
    requires n <= |wanted| && max > 0 && Refreshed(u, kept, wanted, 0, max, 0) && TrueTo(u, wanted, disk)
    requires loaded == LoadFirst(kept, wanted, n, disk, max)
    ensures Reached(u, loaded, wanted, n, max, b)
  {
    if n == 0 {
      b := 0;
      ReachedStart(u, kept, wanted, max);
    } else {
      var before := LoadFirst(kept, wanted, n - 1, disk, max);
      var a := LoadedIsRefreshed(u, kept, wanted, n - 1, disk, max, before);
      LoadNext(kept, wanted, n, disk, max, before, loaded);
      b := ReachedNext(u, before, loaded, wanted, n - 1, n, disk, max, a);
    }
  }

  // The whole loop, from what is kept of any cache: the newest wanted segments, if it
  // does not fail.
  lemma LoadAllIs(u: Universe, kept: Cached, wanted: Dict<string, Meta>, disk: map<string, Segment>, max: nat)
    requires max > 0 && |kept| <= max && FromUniverse(u, kept) && TrueTo(u, wanted, disk)
    requires forall i :: 0 <= i < |kept| ==> kept[i].0 in ToMap(wanted)
    ensures var (ok, cache) := LoadFirst(kept, wanted, |wanted|, disk, max);
            Bounded(u, cache, max) && (ok ==> cache == Newest(u, wanted, max))
    ensures (forall i :: 0 <= i < |wanted| ==> wanted[i].0 in disk) ==> LoadFirst(kept, wanted, |wanted|, disk, max).0
  {
    StartIsAhead(kept, wanted);
    var b := LoadedIsRefreshed(u, kept, wanted, |wanted|, disk, max, LoadFirst(kept, wanted, |wanted|, disk, max));
    var (ok, cache) := LoadFirst(kept, wanted, |wanted|, disk, max);
    if ok {
      AllReached(u, cache, wanted, max, b);
    }
    if forall i :: 0 <= i < |wanted| ==> wanted[i].0 in disk {
      AllOnDisk(kept, wanted, |wanted|, disk, max);
    }
  }

  method AddAndEvict(cache: Cached, id: string, segment: Segment, max: nat) returns (r: Cached)
    requires !Has(cache, id)
    ensures r == Added(cache, id, segment, max)
  {
    PutNewAppends(cache, id, segment);
    r := Put(cache, id, segment);
    ghost var added: seq<(string, Segment)> := cache + [(id, segment)];
    while |r| > max
      invariant Min(max, |added|) <= |r| <= |added|
      invariant r == LastOf(added, |r|)
    {
      PopKeepsTail(added, r);
      r := PopFirst(r);
    }
  }

  lemma PopKeepsTail<T>(added: seq<T>, r: seq<T>)
    requires 0 < |r| <= |added| && r == LastOf(added, |r|)
    ensures r[1..] == LastOf(added, |r| - 1)
  {
  }

  // `popitem(last=False)`.
  function PopFirst(d: Cached): Cached
    requires d != []
  {
    d[1..]
  }

  lemma StartIsAhead(cache: Cached, wanted: Dict<string, Meta>)
    requires forall j :: 0 <= j < |cache| ==> cache[j].0 in ToMap(wanted)
    ensures forall j :: 0 <= j < |cache| ==> Ahead(wanted, 0, cache[j].0)
  {
    forall j | 0 <= j < |cache| ensures Ahead(wanted, 0, cache[j].0) {
      var l := IndexFor(wanted, cache[j].0);
    }
  }

  lemma NothingAhead(wanted: seq<(string, Meta)>, k: string)
    ensures !Ahead(wanted, |wanted|, k)
  {
  }

  lemma AllReached(u: Universe, cache: seq<(string, Segment)>, wanted: seq<(string, Meta)>, max: nat, b: nat)
    requires Refreshed(u, cache, wanted, |wanted|, max, b)
    ensures cache == Newest(u, wanted, max)
  {
    if |cache| > b {
      NothingAhead(wanted, cache[0].0);
      assert false;
    }
    assert cache[0..] == cache;
    assert wanted[|wanted| - b..|wanted|] == wanted[|wanted| - b..];
  }

  lemma {:induction false} RemoveFront(a: Cached, b: seq<(string, Segment)>, d: Cached, k: string)
    requires d == a + b && k in ToMap(a)
    ensures Remove(d, k) == Remove(a, k) + b
  {
    assert d[1..] == a[1..] + b;
    if a[0].0 != k {
      RemoveFront(a[1..], b, d[1..], k);
      assert [a[0]] + (Remove(a[1..], k) + b) == ([a[0]] + Remove(a[1..], k)) + b;
    }
  }

  lemma {:induction false} RemoveKeepsEntries(a: Cached, k: string)
    ensures forall e :: e in Remove(a, k) ==> e in a
  {
    if a != [] && a[0].0 != k {
      RemoveKeepsEntries(a[1..], k);
    }
  }

  lemma RemovedSize(a: Cached, k: string)
    requires k in ToMap(a)
    ensures |Remove(a, k)| == |a| - 1
  {
    SizeIsLength(a);
    SizeIsLength(Remove(a, k));
    assert ToMap(a).Keys == ToMap(Remove(a, k)).Keys + {k};
    assert |ToMap(a).Keys| == |ToMap(a)| && |ToMap(Remove(a, k)).Keys| == |ToMap(Remove(a, k))|;
  }

  lemma LoadedSnoc(u: Universe, wanted: seq<(string, Meta)>, lo: nat, i: nat)
    requires lo <= i < |wanted|
    ensures Loaded(u, wanted[lo..i + 1]) == Loaded(u, wanted[lo..i]) + [(wanted[i].0, u(wanted[i].0))]
  {
  }

  lemma BehindKey(u: Universe, cache: Cached, wanted: seq<(string, Meta)>, i: nat, b: nat, p: nat)
    requires b <= i <= |wanted| && b <= |cache| && cache[|cache| - b..] == Loaded(u, wanted[i - b..i])
    requires |cache| - b <= p < |cache|
    ensures cache[p].0 == wanted[i - (|cache| - p)].0
  {
    assert cache[p] == cache[|cache| - b..][p - (|cache| - b)];
  }

  // A cached wanted segment sits in the part not yet reached.
  lemma CachedIsAhead(u: Universe, cache: Cached, wanted: Dict<string, Meta>, i: nat, max: nat, b: nat)
    requires i < |wanted| && Refreshed(u, cache, wanted, i, max, b) && wanted[i].0 in ToMap(cache)
    ensures b < |cache| && b == i
    ensures DistinctKeys(cache[..|cache| - b]) && wanted[i].0 in ToMap(cache[..|cache| - b])
  {
    var n := |cache| - b;
    var p := IndexFor(cache, wanted[i].0);
    NotBehind(u, cache, wanted, i, b, p);
    SliceDistinct(cache, 0, n);
    assert cache[0..n] == cache[..n];
    EntryAt(cache[..n], p);
  }

  lemma NotBehind(u: Universe, cache: Cached, wanted: Dict<string, Meta>, i: nat, b: nat, p: nat)
    requires b <= i < |wanted| && b <= |cache| && cache[|cache| - b..] == Loaded(u, wanted[i - b..i])
    requires p < |cache| && cache[p].0 == wanted[i].0
    ensures p < |cache| - b
  {
    if p >= |cache| - b {
      BehindKey(u, cache, wanted, i, b, p);
      DistinctAt(wanted, i - (|cache| - p), i);
      assert false;
    }
  }

  lemma MovedShape(cache: Cached, n: nat, k: string)
    requires n <= |cache| && DistinctKeys(cache[..n]) && k in ToMap(cache[..n]) && k in ToMap(cache)
    ensures MoveToEnd(cache, k) == Remove(cache[..n], k) + cache[n..] + [(k, ToMap(cache)[k])]
    ensures |Remove(cache[..n], k)| == n - 1
  {
    assert cache == cache[..n] + cache[n..];
    RemoveFront(cache[..n], cache[n..], cache, k);
    RemovedSize(cache[..n], k);
    PutNewAppends(Remove(cache, k), k, Get(cache, k));
  }

  lemma RemovedAhead(cache: Cached, wanted: seq<(string, Meta)>, i: nat, n: nat, j: nat)
    requires i < |wanted| && n <= |cache| && DistinctKeys(cache[..n])
    requires forall j :: 0 <= j < n ==> Ahead(wanted, i, cache[j].0)
    requires j < |Remove(cache[..n], wanted[i].0)|
    ensures Ahead(wanted, i + 1, Remove(cache[..n], wanted[i].0)[j].0)
  {
    var rest := Remove(cache[..n], wanted[i].0);
    RemoveKeepsEntries(cache[..n], wanted[i].0);
    EntryAt(rest, j);
    assert rest[j] in cache[..n];
    var o :| 0 <= o < n && cache[..n][o] == rest[j];
    assert Ahead(wanted, i, cache[o].0);
    var l :| i <= l < |wanted| && wanted[l].0 == cache[o].0;
    assert l != i;
  }

  lemma TailOf<T>(front: seq<T>, back: seq<T>, last: T)
    ensures (front + back + [last])[|front|..] == back + [last]
  {
  }

  lemma MovedIsRefreshed(u: Universe, cache: Cached, wanted: Dict<string, Meta>, i: nat, max: nat, b: nat)
    requires i < |wanted| && Refreshed(u, cache, wanted, i, max, b) && wanted[i].0 in ToMap(cache)
    ensures Refreshed(u, MoveToEnd(cache, wanted[i].0), wanted, i + 1, max, b + 1)
  {
    var id, n := wanted[i].0, |cache| - b;
    CachedIsAhead(u, cache, wanted, i, max, b);
    MovedShape(cache, n, id);
    CachedValue(u, cache, id);
    var moved, rest := MoveToEnd(cache, id), Remove(cache[..n], id);
    LoadedSnoc(u, wanted, i - b, i);
    TailOf(rest, cache[n..], (id, u(id)));
    forall j | 0 <= j < |moved| - (b + 1) ensures Ahead(wanted, i + 1, moved[j].0) {
      RemovedAhead(cache, wanted, i, n, j);
      assert moved[j] == rest[j];
    }
    SameEntriesFromUniverse(u, cache, moved);
  }

  lemma AddedUniverse(u: Universe, cache: Cached, id: string, max: nat)
    requires FromUniverse(u, cache) && u(id).id == id
    ensures FromUniverse(u, LastOf(cache + [(id, u(id))], max))
  {
  }

  lemma AddedTail(u: Universe, cache: Cached, wanted: seq<(string, Meta)>, i: nat, max: nat, b: nat)
    requires i < |wanted| && max > 0 && b <= |cache| <= max && b <= i
    requires cache[|cache| - b..] == Loaded(u, wanted[i - b..i])
    ensures var after := LastOf(cache + [(wanted[i].0, u(wanted[i].0))], max);
            var c := if |cache| == b == max then b else b + 1;
            c <= |after| <= max && c <= i + 1 && after[|after| - c..] == Loaded(u, wanted[i + 1 - c..i + 1])
  {
    var added := cache + [(wanted[i].0, u(wanted[i].0))];
    var after := LastOf(added, max);
    LoadedSnoc(u, wanted, i - b, i);
    assert added[|cache| - b..] == Loaded(u, wanted[i - b..i + 1]);
    if |cache| == b == max {
      assert after == added[1..];
      assert Loaded(u, wanted[i - b..i + 1])[1..] == Loaded(u, wanted[i + 1 - b..i + 1]);
    } else {
      assert after[|after| - (b + 1)..] == added[|cache| - b..];
    }
  }

  lemma AddedWhenFull(u: Universe, cache: Cached, wanted: Dict<string, Meta>, i: nat, max: nat)
    requires i < |wanted| && max > 0 && Refreshed(u, cache, wanted, i, max, max) && |cache| == max
    requires u(wanted[i].0).id == wanted[i].0
    ensures Refreshed(u, LastOf(cache + [(wanted[i].0, u(wanted[i].0))], max), wanted, i + 1, max, max)
  {
    AddedTail(u, cache, wanted, i, max, max);
    AddedUniverse(u, cache, wanted[i].0, max);
  }

  lemma AddedBehind(u: Universe, cache: Cached, wanted: Dict<string, Meta>, i: nat, max: nat)
    requires i < |wanted| && max > 0 && Refreshed(u, cache, wanted, i, max, i) && wanted[i].0 !in ToMap(cache)
    requires u(wanted[i].0).id == wanted[i].0 && !(|cache| == i == max)
    ensures Refreshed(u, LastOf(cache + [(wanted[i].0, u(wanted[i].0))], max), wanted, i + 1, max, i + 1)
  {
    AddedTail(u, cache, wanted, i, max, i);
    AddedUniverse(u, cache, wanted[i].0, max);
    AddedAhead(cache, wanted, i, |cache| - i, (wanted[i].0, u(wanted[i].0)), max);
  }

  lemma AddedIsRefreshed(u: Universe, cache: Cached, wanted: Dict<string, Meta>, i: nat, max: nat, b: nat)
    requires i < |wanted| && max > 0 && Refreshed(u, cache, wanted, i, max, b) && wanted[i].0 !in ToMap(cache)
    requires u(wanted[i].0).id == wanted[i].0
    ensures Refreshed(u, LastOf(cache + [(wanted[i].0, u(wanted[i].0))], max), wanted, i + 1, max,
                      if |cache| == b == max then b else b + 1)
  {
    if |cache| == b == max {
      AddedWhenFull(u, cache, wanted, i, max);
    } else {
      AddedBehind(u, cache, wanted, i, max);
    }
  }

  lemma AddedAhead(cache: Cached, wanted: seq<(string, Meta)>, i: nat, n: nat, e: (string, Segment), max: nat)
    requires i < |wanted| && n <= |cache| <= max && 0 < max && wanted[i].0 !in ToMap(cache)
    requires forall j :: 0 <= j < n ==> Ahead(wanted, i, cache[j].0)
    ensures var after := LastOf(cache + [e], max);
            forall j :: 0 <= j < (if |cache| == max then n - 1 else n) ==> Ahead(wanted, i + 1, after[j].0)
  {
    var after := LastOf(cache + [e], max);
    var skip := if |cache| == max then 1 else 0;
    forall j: nat | 0 <= j < n - skip ensures Ahead(wanted, i + 1, after[j].0) {
      assert after[j] == cache[j + skip];
      StillAhead(cache, wanted, i, n, j + skip);
    }
  }

  lemma StillAhead(cache: Cached, wanted: seq<(string, Meta)>, i: nat, n: nat, j: nat)
    requires i < |wanted| && j < n <= |cache| && wanted[i].0 !in ToMap(cache)
    requires Ahead(wanted, i, cache[j].0)
    ensures Ahead(wanted, i + 1, cache[j].0)
  {
    var l :| i <= l < |wanted| && wanted[l].0 == cache[j].0;
    EntryAt(cache, j);
    assert l != i;
  }

  // ---- building the index -------------------------------------------------------------------------

  function RaiseAll(items: seq<(string, Segment)>): map<Id, nat> {
    if items == [] then map[]
    else
      var g := items[|items| - 1].1;
      LsmModel.RaiseSnap(RaiseAll(items[..|items| - 1]), g.rows, g.snap)
  }

  function IdsAbove(rows: seq<(Id, Vec)>, latest: map<Id, nat>, snap: nat): set<Id> {
    set e | e in rows && e.0 in latest && latest[e.0] > snap :: e.0
  }

  method BuildSegmentHiddenIds(cache: Cached) returns (hidden: map<string, set<Id>>)
    ensures hidden == HiddenIndex(ToMap(cache))
  {
    var latest := LatestSnapshotById(cache);
    hidden := map[];
    for i := 0 to |cache|
      invariant hidden == IndexUpTo(cache[..i], latest)
    {
      assert cache[..i + 1][..i] == cache[..i];
      var g := cache[i].1;
      hidden := hidden[cache[i].0 := IdsAbove(g.rows, latest, g.snap)];
    }
    assert cache[..|cache|] == cache;
    IndexIsBuilt(cache);
  }

  method LatestSnapshotById(items: seq<(string, Segment)>) returns (latest: map<Id, nat>)
    ensures latest == RaiseAll(items)
  {
    latest := map[];
    for i := 0 to |items|
      invariant latest == RaiseAll(items[..i])
    {
      assert items[..i + 1][..i] == items[..i];
      var rows: seq<(Id, Vec)> := items[i].1.rows;
      ghost var before := latest;
      for j := 0 to |rows|
        invariant latest == LsmModel.RaiseSnap(before, rows[..j], items[i].1.snap)
      {
        assert rows[..j + 1][..j] == rows[..j];
        var x := rows[j].0;
        latest := latest[x := if x in latest && latest[x] > items[i].1.snap then latest[x] else items[i].1.snap];
      }
      assert rows[..|rows|] == rows;
    }
    assert items[..|items|] == items;
  }

  ghost function IndexUpTo(items: seq<(string, Segment)>, latest: map<Id, nat>): map<string, set<Id>> {
    if items == [] then map[]
    else
      var (id, g) := items[|items| - 1];
      IndexUpTo(items[..|items| - 1], latest)[id := IdsAbove(g.rows, latest, g.snap)]
  }

  lemma {:induction false} IndexUpToIs(items: Cached, latest: map<Id, nat>)
    ensures var m := ToMap(items);
            && IndexUpTo(items, latest).Keys == m.Keys
            && forall k :: k in m ==> IndexUpTo(items, latest)[k] == IdsAbove(m[k].rows, latest, m[k].snap)
  {
    if items != [] {
      var n := |items| - 1;
      LsmModel.LastIsNew(items);
      IndexUpToIs(items[..n], latest);
      LsmModel.SnocDict(items[..n], items[n].0, items[n].1);
      assert items == items[..n] + [(items[n].0, items[n].1)];
    }
  }

  lemma {:induction false} RaiseSnapUp(latest: map<Id, nat>, rows: seq<(Id, Vec)>, snap: nat)
    ensures var m := LsmModel.RaiseSnap(latest, rows, snap);
            && m.Keys == latest.Keys + LsmModel.RowIds(rows)
            && forall x :: x in m ==>
                 m[x] == if x in LsmModel.RowIds(rows) && !(x in latest && latest[x] > snap) then snap else latest[x]
  {
    if rows != [] {
      var n := |rows| - 1;
      RaiseSnapUp(latest, rows[..n], snap);
      assert rows == rows[..n] + [rows[n]];
      assert LsmModel.RowIds(rows) == LsmModel.RowIds(rows[..n]) + {rows[n].0};
    }
  }

  // The raised snapshot of x exceeds s exactly when some segment above s holds x.
  lemma {:induction false} RaisedAbove(items: seq<(string, Segment)>, x: Id, s: nat)
    ensures x in RaiseAll(items) && RaiseAll(items)[x] > s <==>
            exists i :: 0 <= i < |items| && x in RowsOf(items[i].1) && items[i].1.snap > s
  {
    if items != [] {
      var n := |items| - 1;
      RaisedAbove(items[..n], x, s);
      RaiseSnapUp(RaiseAll(items[..n]), items[n].1.rows, items[n].1.snap);
      LsmModel.RowIdsAre(items[n].1.rows);
      assert forall i :: 0 <= i < n ==> items[..n][i] == items[i];
    }
  }

  lemma IndexIsBuilt(cache: Cached)
    ensures IndexUpTo(cache, RaiseAll(cache)) == HiddenIndex(ToMap(cache))
  {
    var m := ToMap(cache);
    IndexUpToIs(cache, RaiseAll(cache));
    forall k | k in m ensures IdsAbove(m[k].rows, RaiseAll(cache), m[k].snap) == HiddenIn(m, k) {
      var j := IndexFor(cache, k);
      HiddenIsAbove(cache, j);
    }
  }

  lemma HiddenIsAbove(cache: Cached, j: nat)
    requires j < |cache|
    ensures cache[j].0 in ToMap(cache)
    ensures IdsAbove(cache[j].1.rows, RaiseAll(cache), cache[j].1.snap) == HiddenIn(ToMap(cache), cache[j].0)
  {
    var m, g := ToMap(cache), cache[j].1;
    EntryAt(cache, j);
    LsmModel.RowIdsAre(g.rows);
    forall x ensures x in IdsAbove(g.rows, RaiseAll(cache), g.snap) <==> x in HiddenIn(m, cache[j].0) {
      RaisedAbove(cache, x, g.snap);
      HeldAbove(cache, x, g.snap);
      assert x in IdsAbove(g.rows, RaiseAll(cache), g.snap) <==>
             x in LsmModel.RowIds(g.rows) && x in RaiseAll(cache) && RaiseAll(cache)[x] > g.snap;
    }
  }

  lemma HeldAbove(cache: Cached, x: Id, s: nat)
    ensures (exists i :: 0 <= i < |cache| && x in RowsOf(cache[i].1) && cache[i].1.snap > s) <==>
            HeldAfter(ToMap(cache), s, x)
  {
    if i :| 0 <= i < |cache| && x in RowsOf(cache[i].1) && cache[i].1.snap > s {
      EntryAt(cache, i);
    }
    if k :| k in ToMap(cache) && x in RowsOf(ToMap(cache)[k]) && ToMap(cache)[k].snap > s {
      var i := IndexFor(cache, k);
    }
  }
}
