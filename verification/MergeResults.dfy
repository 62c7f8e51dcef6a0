// `merge_results`: deduplicate hits by id keeping the smallest distance, then
// take the top_k smallest with ties in order of first appearance.
module MergeResults {
  import opened Dicts
  import opened Sorting
  import opened WalCodec

  // Distances are non-NaN floats: a total order is all the code uses of them.
  datatype Hit = Hit(dist: real, id: Id)

  // ---- specification ----------------------------------------------------------

  function AddHit(seen: Dict<Id, real>, h: Hit, deleted: set<Id>): Dict<Id, real> {
    if h.id in deleted then seen
    else if !Has(seen, h.id) || h.dist < Get(seen, h.id) then Put(seen, h.id, h.dist)
    else seen
  }

  function SeenOf(hits: seq<Hit>, deleted: set<Id>): Dict<Id, real> {
    if hits == [] then []
    else AddHit(SeenOf(hits[..|hits| - 1], deleted), hits[|hits| - 1], deleted)
  }

  function Flatten<T>(lists: seq<seq<T>>): seq<T> {
    if lists == [] then [] else Flatten(lists[..|lists| - 1]) + lists[|lists| - 1]
  }

  predicate CloserOrEqual(a: (Id, real), b: (Id, real)) {
    a.1 <= b.1
  }

  function Min(a: nat, b: nat): nat {
    if a < b then a else b
  }

  function AsHits(entries: seq<(Id, real)>): (hits: seq<Hit>)
    ensures |hits| == |entries|
    ensures forall i :: 0 <= i < |hits| ==> hits[i] == Hit(entries[i].1, entries[i].0)
  {
    seq(|entries|, i requires 0 <= i < |entries| => Hit(entries[i].1, entries[i].0))
  }

  // All candidates, nearest first.
  function Ranked(hits: seq<Hit>, deleted: set<Id>): seq<(Id, real)> {
    Sort(CloserOrEqual, SeenOf(hits, deleted))
  }

  function Merged(hits: seq<Hit>, k: nat, deleted: set<Id>): seq<Hit> {
    var ranked := Ranked(hits, deleted);
    AsHits(ranked[..Min(k, |ranked|)])
  }

  // ---- implementation ---------------------------------------------------------

  // The inner loop: one list of hits on top of those already seen.
  method AddHits(ghost before: seq<Hit>, start: Dict<Id, real>, result: seq<Hit>, deleted: set<Id>)
    returns (seen: Dict<Id, real>)
    requires start == SeenOf(before, deleted)
    ensures seen == SeenOf(before + result, deleted)
  {
    seen := start;
    assert before + result[..0] == before;
    for j := 0 to |result|
      invariant seen == SeenOf(before + result[..j], deleted)
    {
      var h := result[j];
      assert (before + result[..j + 1])[..|before| + j] == before + result[..j];
      if h.id in deleted {
        continue;
      }
      if !Has(seen, h.id) || h.dist < Get(seen, h.id) {
        seen := Put(seen, h.id, h.dist);
      }
    }
    assert result[..|result|] == result;
  }

  method Merge(results: seq<seq<Hit>>, topK: nat, deleted: set<Id>) returns (top: seq<Hit>)
    ensures top == Merged(Flatten(results), topK, deleted)
  {
    var seen: Dict<Id, real> := [];
    for i := 0 to |results|
      invariant seen == SeenOf(Flatten(results[..i]), deleted)
    {
      assert results[..i + 1][..i] == results[..i];
      seen := AddHits(Flatten(results[..i]), seen, results[i], deleted);
    }
    assert results[..|results|] == results;
    var ranked := Sort(CloserOrEqual, seen);
    top := AsHits(ranked[..Min(topK, |ranked|)]);
  }

  // ---- what the merge means ---------------------------------------------------

  // The ids some hit of which lies within distance d.
  ghost function Within(hits: seq<Hit>, deleted: set<Id>, d: real): set<Id> {
    set h | h in hits && h.id !in deleted && h.dist <= d :: h.id
  }

  ghost predicate Ascending(hits: seq<Hit>) {
    forall i, j :: 0 <= i < j < |hits| ==> hits[i].dist <= hits[j].dist
  }

  ghost predicate DistinctIds(hits: seq<Hit>) {
    forall i, j :: 0 <= i < j < |hits| ==> hits[i].id != hits[j].id
  }

  function Dists(hits: seq<Hit>): (ds: seq<real>)
    ensures |ds| == |hits|
    ensures forall i :: 0 <= i < |ds| ==> ds[i] == hits[i].dist
  {
    seq(|hits|, i requires 0 <= i < |hits| => hits[i].dist)
  }

  // `seen` maps each surviving id to its smallest distance.
  lemma {:induction false} SeenIsBest(hits: seq<Hit>, deleted: set<Id>)
    ensures var m := ToMap(SeenOf(hits, deleted));
            && (forall x :: x in m ==> x !in deleted && Hit(m[x], x) in hits)
            && (forall h :: h in hits && h.id !in deleted ==> h.id in m && m[h.id] <= h.dist)
  {
    if hits != [] {
      var init, last := hits[..|hits| - 1], hits[|hits| - 1];
      SeenIsBest(init, deleted);
      assert hits == init + [last];
    }
  }

  lemma {:induction false} EntriesOnce<K, V>(d: Dict<K, V>, e: (K, V))
    ensures multiset(d)[e] <= 1
  {
    if d != [] {
      EntriesOnce(d[1..], e);
      assert d == [d[0]] + d[1..];
      if e == d[0] && e in d[1..] {
        var i :| 0 <= i < |d[1..]| && d[1..][i] == e;
        EntryAt(d[1..], i);
        assert false;
      }
    }
  }

  lemma RearrangedDistinct<K, V>(d: Dict<K, V>, s: seq<(K, V)>, i: nat, j: nat)
    requires multiset(d) == multiset(s) && i < j < |s|
    ensures s[i].0 != s[j].0
  {
    assert s[i] in multiset(s) && s[j] in multiset(s);
    if s[i].0 == s[j].0 {
      SameKeySameEntry(d, s[i], s[j]);
      TwoPositions(s, i, j);
      EntriesOnce(d, s[i]);
    }
  }

  // Any rearrangement of a dictionary's entries holds the same mapping.
  lemma RearrangedDict<K(!new), V(!new)>(d: Dict<K, V>, s: seq<(K, V)>)
    requires multiset(d) == multiset(s)
    ensures DistinctKeys(s) && ToMap(s) == ToMap(d)
  {
    forall i, j | 0 <= i < j < |s| ensures s[i].0 != s[j].0 {
      RearrangedDistinct(d, s, i, j);
    }
    DistinctFromIndices(s);
    SameMembers(d, s);
    SameEntriesSameMap(d, s);
  }

  lemma SameKeySameEntry<K, V>(d: Dict<K, V>, a: (K, V), b: (K, V))
    requires a in d && b in d && a.0 == b.0
    ensures a == b
  {
    var i :| 0 <= i < |d| && d[i] == a;
    var j :| 0 <= j < |d| && d[j] == b;
    EntryAt(d, i);
    EntryAt(d, j);
  }

  lemma SameEntriesSameMap<K, V>(d: Dict<K, V>, s: Dict<K, V>)
    requires forall e :: e in d <==> e in s
    ensures ToMap(d) == ToMap(s)
  {
    var m, n := ToMap(d), ToMap(s);
    forall x | x in m ensures x in n && n[x] == m[x] {
      var i := IndexFor(d, x);
      assert d[i] in s;
      var j :| 0 <= j < |s| && s[j] == d[i];
      EntryAt(s, j);
    }
    forall x | x in n ensures x in m {
      var i := IndexFor(s, x);
      assert s[i] in d;
      var j :| 0 <= j < |d| && d[j] == s[i];
      EntryAt(d, j);
    }
  }

  lemma CloserOrEqualIsOrder()
    ensures TotalPreorder(CloserOrEqual)
  {
  }

  lemma RankedIsSorted(hits: seq<Hit>, deleted: set<Id>)
    ensures var r := Ranked(hits, deleted);
            && DistinctKeys(r) && ToMap(r) == ToMap(SeenOf(hits, deleted))
            && forall i, j :: 0 <= i < j < |r| ==> r[i].1 <= r[j].1
  {
    CloserOrEqualIsOrder();
    SortSorts(CloserOrEqual, SeenOf(hits, deleted));
    RearrangedDict(SeenOf(hits, deleted), Ranked(hits, deleted));
  }

  // Ids at equal distance are returned in the order they were first seen.
  lemma TiesKeepFirstSeenOrder(hits: seq<Hit>, deleted: set<Id>, x: (Id, real))
    ensures Ties(CloserOrEqual, Ranked(hits, deleted), x) == Ties(CloserOrEqual, SeenOf(hits, deleted), x)
  {
    CloserOrEqualIsOrder();
    SortIsStable(CloserOrEqual, SeenOf(hits, deleted), x);
  }

  // Ids enter the dictionary in the order of their first hits, and stay where they are
  // when a nearer hit replaces the distance.
  lemma {:induction false} SeenInOrder(hits: seq<Hit>, deleted: set<Id>, i: nat, j: nat) returns (p: nat, q: nat)
    requires i < j < |hits| && FirstOfId(hits, i) && FirstOfId(hits, j)
    requires hits[i].id !in deleted && hits[j].id !in deleted
    ensures var seen := SeenOf(hits, deleted);
            p < q < |seen| && seen[p].0 == hits[i].id && seen[q].0 == hits[j].id
  {
    var n := |hits| - 1;
    var before, h := SeenOf(hits[..n], deleted), hits[n];
    if j < n {
      p, q := SeenInOrder(hits[..n], deleted, i, j);
    } else {
      SeenIds(hits[..n], deleted, hits[i].id);
      SeenIds(hits[..n], deleted, h.id);
      assert hits[..n][i] == hits[i];
      var k := IndexFor(before, hits[i].id);
      p, q := k, |before|;
      PutNewAppends(before, h.id, h.dist);
    }
    PutKeepsPlaces(before, h.id, h.dist);
  }

  ghost predicate FirstOfId(hits: seq<Hit>, i: nat)
    requires i < |hits|
  {
    forall l :: 0 <= l < i ==> hits[l].id != hits[i].id
  }

  lemma SeenIds(hits: seq<Hit>, deleted: set<Id>, x: Id)
    ensures x in ToMap(SeenOf(hits, deleted)) <==> x !in deleted && exists i :: 0 <= i < |hits| && hits[i].id == x
  {
    SeenIsBest(hits, deleted);
    if x in ToMap(SeenOf(hits, deleted)) {
      var h := Hit(ToMap(SeenOf(hits, deleted))[x], x);
      var i :| 0 <= i < |hits| && hits[i] == h;
    }
    if i :| 0 <= i < |hits| && hits[i].id == x && x !in deleted {
      assert hits[i] in hits;
    }
  }

  // Some hit on x is no farther than any hit on y.
  ghost predicate NoFarther(hits: seq<Hit>, x: Id, y: Id) {
    exists h :: h in hits && h.id == x && forall g :: g in hits && g.id == y ==> h.dist <= g.dist
  }

  lemma BestNoFarther(hits: seq<Hit>, deleted: set<Id>, x: Id, y: Id)
    requires NoFarther(hits, x, y)
    requires x in ToMap(SeenOf(hits, deleted)) && y in ToMap(SeenOf(hits, deleted))
    ensures ToMap(SeenOf(hits, deleted))[x] <= ToMap(SeenOf(hits, deleted))[y]
  {
    SeenIsBest(hits, deleted);
    var h :| h in hits && h.id == x && forall g :: g in hits && g.id == y ==> h.dist <= g.dist;
    assert Hit(ToMap(SeenOf(hits, deleted))[y], y) in hits;
  }

  // Of two ids, the one seen first comes first if it is no farther, and is not cut off
  // before the other.
  lemma FirstSeenWins(hits: seq<Hit>, k: nat, deleted: set<Id>, i: nat, j: nat, n: nat)
    requires i < j < |hits| && FirstOfId(hits, i) && FirstOfId(hits, j)
    requires hits[i].id !in deleted && hits[j].id !in deleted && NoFarther(hits, hits[i].id, hits[j].id)
    requires n < |Merged(hits, k, deleted)| && Merged(hits, k, deleted)[n].id == hits[j].id
    ensures exists m :: 0 <= m < n && Merged(hits, k, deleted)[m].id == hits[i].id
  {
    var seen := SeenOf(hits, deleted);
    var p, q := SeenInOrder(hits, deleted, i, j);
    EntryAt(seen, p);
    EntryAt(seen, q);
    BestNoFarther(hits, deleted, hits[i].id, hits[j].id);
    CloserOrEqualIsOrder();
    var p', q' := SortKeepsOrder(CloserOrEqual, seen, p, q, seen[p], seen[q]);
    RankedIsSorted(hits, deleted);
    var r := Ranked(hits, deleted);
    if n < q' {
      DistinctAt(r, n, q');
    } else if q' < n {
      DistinctAt(r, q', n);
    }
    assert Merged(hits, k, deleted)[p'].id == hits[i].id;
  }

  // How many leading entries of a distance-sorted list lie within d.
  lemma {:induction false} CutAt(r: seq<(Id, real)>, d: real) returns (c: nat)
    requires forall i, j :: 0 <= i < j < |r| ==> r[i].1 <= r[j].1
    ensures c <= |r|
    ensures forall i :: 0 <= i < |r| ==> (r[i].1 <= d <==> i < c)
  {
    if r == [] {
      c := 0;
    } else {
      c := CutAt(r[..|r| - 1], d);
      if r[|r| - 1].1 <= d {
        c := |r|;
      }
    }
  }

  lemma PrefixKeys(r: Dict<Id, real>, n: nat) returns (ids: set<Id>)
    requires n <= |r|
    ensures |ids| == n
    ensures forall i :: 0 <= i < |r| ==> (r[i].0 in ids <==> i < n)
    ensures forall x :: x in ids ==> exists i :: 0 <= i < n && r[i].0 == x
  {
    SliceDistinct(r, 0, n);
    var p := r[0..n];
    ids := ToMap(p).Keys;
    SizeIsLength(p);
    assert |ids| == |ToMap(p)|;
    forall x | x in ids ensures exists i :: 0 <= i < n && r[i].0 == x {
      var i := IndexFor(p, x);
      assert r[i] == p[i];
    }
    forall i | 0 <= i < |r| ensures r[i].0 in ids <==> i < n {
      if i < n {
        assert p[i] == r[i];
        EntryAt(p, i);
      } else if r[i].0 in ids {
        var j :| 0 <= j < n && r[j].0 == r[i].0;
        DistinctAt(r, j, i);
      }
    }
  }

  // The candidates within d are the first c ranked entries, for some c.
  lemma WithinIsPrefix(hits: seq<Hit>, deleted: set<Id>, d: real) returns (c: nat)
    ensures c == |Within(hits, deleted, d)| <= |Ranked(hits, deleted)|
    ensures var r := Ranked(hits, deleted);
            forall i :: 0 <= i < |r| ==> (r[i].1 <= d <==> i < c)
    ensures var r := Ranked(hits, deleted);
            forall i :: 0 <= i < c ==> r[i].0 in Within(hits, deleted, d)
  {
    var r := Ranked(hits, deleted);
    RankedIsSorted(hits, deleted);
    SeenIsBest(hits, deleted);
    c := CutAt(r, d);
    var ids := PrefixKeys(r, c);
    forall x | x in ids ensures x in Within(hits, deleted, d) {
      var i :| 0 <= i < c && r[i].0 == x;
      EntryAt(r, i);
      assert Hit(r[i].1, x) in hits;
    }
    forall x | x in Within(hits, deleted, d) ensures x in ids {
      var h :| h in hits && h.id !in deleted && h.dist <= d && h.id == x;
      var i := IndexFor(r, x);
      assert r[i].1 <= h.dist;
    }
    assert ids == Within(hits, deleted, d);
  }

  // The merged list has distinct ids, ascending distances, at most k entries,
  // and each entry is the best hit of an id that is not deleted.
  lemma MergedIsWellFormed(hits: seq<Hit>, k: nat, deleted: set<Id>)
    ensures var m := Merged(hits, k, deleted);
            && |m| <= k && Ascending(m) && DistinctIds(m)
            && forall i :: 0 <= i < |m| ==>
                 && m[i] in hits && m[i].id !in deleted
                 && forall h :: h in hits && h.id == m[i].id ==> m[i].dist <= h.dist
  {
    var r, m := Ranked(hits, deleted), Merged(hits, k, deleted);
    RankedIsSorted(hits, deleted);
    SeenIsBest(hits, deleted);
    forall i, j | 0 <= i < j < |m| ensures m[i].id != m[j].id {
      DistinctAt(r, i, j);
    }
    forall i | 0 <= i < |m|
      ensures m[i] in hits && m[i].id !in deleted
      ensures forall h :: h in hits && h.id == m[i].id ==> m[i].dist <= h.dist
    {
      EntryAt(r, i);
    }
  }

  // The merge returns the k nearest candidates: within any distance it holds as
  // many ids as there are candidates, up to k.
  lemma MergedIsTopK(hits: seq<Hit>, k: nat, deleted: set<Id>, d: real)
    ensures Within(Merged(hits, k, deleted), {}, d) <= Within(hits, deleted, d)
    ensures |Within(Merged(hits, k, deleted), {}, d)| == Min(k, |Within(hits, deleted, d)|)
  {
    var r, m := Ranked(hits, deleted), Merged(hits, k, deleted);
    RankedIsSorted(hits, deleted);
    var c := WithinIsPrefix(hits, deleted, d);
    var ids := PrefixKeys(r, Min(k, c));
    forall x | x in Within(m, {}, d) ensures x in ids {
      var h :| h in m && h.dist <= d && h.id == x;
      var i :| 0 <= i < |m| && m[i] == h;
      assert r[i] == (h.id, h.dist);
    }
    forall x | x in ids ensures x in Within(m, {}, d) {
      var i :| 0 <= i < Min(k, c) && r[i].0 == x;
      assert m[i] == Hit(r[i].1, r[i].0);
      assert m[i] in m;
    }
    assert ids == Within(m, {}, d);
  }

  // Counts within every distance fix the distances of a sorted duplicate-free list.
  lemma CountsFixDistances(a: seq<Hit>, b: seq<Hit>)
    requires Ascending(a) && Ascending(b) && DistinctIds(a) && DistinctIds(b)
    requires forall d :: |Within(a, {}, d)| == |Within(b, {}, d)|
    ensures Dists(a) == Dists(b)
  {
    if |a| < |b| {
      CountAhead(a, b, |a|);
    } else if |b| < |a| {
      CountAhead(b, a, |b|);
    }
    forall i | 0 <= i < |a| ensures a[i].dist == b[i].dist {
      if b[i].dist < a[i].dist {
        CountAhead(a, b, i);
      } else if a[i].dist < b[i].dist {
        CountAhead(b, a, i);
      }
    }
  }

  // If b's i-th distance comes before a's (or a has no i-th), then within it b has more ids.
  lemma CountAhead(a: seq<Hit>, b: seq<Hit>, i: nat)
    requires Ascending(a) && Ascending(b) && DistinctIds(a) && DistinctIds(b)
    requires i <= |a| && i < |b| && (i < |a| ==> b[i].dist < a[i].dist)
    ensures |Within(a, {}, b[i].dist)| <= i < |Within(b, {}, b[i].dist)|
  {
    var d := b[i].dist;
    var idsA := IdsOf(a[..i]);
    var idsB := IdsOf(b[..i + 1]);
    forall x | x in Within(a, {}, d) ensures x in idsA {
      var h :| h in a && h.dist <= d && h.id == x;
      var j :| 0 <= j < |a| && a[j] == h;
      assert a[..i][j] == h;
    }
    SubsetSize(Within(a, {}, d), idsA);
    forall x | x in idsB ensures x in Within(b, {}, d) {
      var j :| 0 <= j < i + 1 && b[..i + 1][j].id == x;
      assert b[j] in b;
    }
    SubsetSize(idsB, Within(b, {}, d));
  }

  lemma {:induction false} IdsOf(hits: seq<Hit>) returns (ids: set<Id>)
    requires DistinctIds(hits)
    ensures |ids| == |hits|
    ensures forall i :: 0 <= i < |hits| ==> hits[i].id in ids
    ensures forall x :: x in ids ==> exists i :: 0 <= i < |hits| && hits[i].id == x
  {
    if hits == [] {
      ids := {};
    } else {
      var n := |hits| - 1;
      ids := IdsOf(hits[..n]);
      assert hits[n].id !in ids;
      ids := ids + {hits[n].id};
      forall x | x in ids ensures exists i :: 0 <= i < |hits| && hits[i].id == x {
        if x != hits[n].id {
          var i :| 0 <= i < n && hits[..n][i].id == x;
          assert hits[i].id == x;
        }
      }
    }
  }

  lemma {:induction false} SubsetSize<T>(a: set<T>, b: set<T>)
    requires a <= b
    ensures |a| <= |b|
    ensures |a| == |b| ==> a == b
  {
    if a != {} {
      var x :| x in a;
      SubsetSize(a - {x}, b - {x});
    }
  }
}
