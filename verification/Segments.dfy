// Immutable segments, the vector index they are searched with, and the helpers
// both the engine and the readers use on hit lists.
module Segments {
  import opened WalCodec
  import opened Dicts
  import opened Sorting
  import opened MergeResults

  type Rows = Dict<Id, Vec>

  datatype Segment = Segment(id: string, shard: nat, snap: nat, rows: Rows)

  // Order of `segments.sort(key=(snapshot_id, segment_id))`.
  predicate SegLe(a: Segment, b: Segment) {
    PairLe((a.snap, a.id), (b.snap, b.id))
  }

  lemma SegLeIsOrder()
    ensures TotalPreorder(SegLe)
  {
    PairLeIsTotalOrder();
    forall a, b ensures SegLe(a, b) || SegLe(b, a) {
      assert PairLe((a.snap, a.id), (b.snap, b.id)) || PairLe((b.snap, b.id), (a.snap, a.id));
    }
    forall a, b, c | SegLe(a, b) && SegLe(b, c) ensures SegLe(a, c) {
      assert PairLe((a.snap, a.id), (b.snap, b.id)) && PairLe((b.snap, b.id), (c.snap, c.id));
    }
  }

  function SortSegs(segs: seq<Segment>): (r: seq<Segment>)
    ensures |r| == |segs| && multiset(r) == multiset(segs)
  {
    Sort(SegLe, segs)
  }

  // Each later segment has a larger snapshot id.
  ghost predicate Ascending(segs: seq<Segment>) {
    forall i, j :: 0 <= i < j < |segs| ==> segs[i].snap < segs[j].snap
  }

  lemma AscendingIsSorted(segs: seq<Segment>)
    requires Ascending(segs)
    ensures SortSegs(segs) == segs
  {
    SortOfSorted(SegLe, segs);
  }

  function MaxSnap(segs: seq<Segment>): nat {
    if segs == [] then 0
    else
      var m, last := MaxSnap(segs[..|segs| - 1]), segs[|segs| - 1].snap;
      if m < last then last else m
  }

  lemma {:induction false} MaxSnapBounds(segs: seq<Segment>, i: nat)
    requires i < |segs|
    ensures segs[i].snap <= MaxSnap(segs)
  {
    if i < |segs| - 1 {
      MaxSnapBounds(segs[..|segs| - 1], i);
    }
  }

  lemma {:induction false} MaxSnapAtMost(segs: seq<Segment>, bound: nat)
    requires forall i :: 0 <= i < |segs| ==> segs[i].snap <= bound
    ensures MaxSnap(segs) <= bound
  {
    if segs != [] {
      MaxSnapAtMost(segs[..|segs| - 1], bound);
    }
  }

  // The newest row of every id, later segments first.
  ghost function Stored(segs: seq<Segment>): map<Id, Vec> {
    if segs == [] then map[]
    else Stored(segs[..|segs| - 1]) + ToMap(segs[|segs| - 1].rows)
  }

  lemma {:induction false} StoredConcat(a: seq<Segment>, b: seq<Segment>)
    ensures Stored(a + b) == Stored(a) + Stored(b)
  {
    if b == [] {
      assert a + b == a;
    } else {
      var n := |b| - 1;
      StoredConcat(a, b[..n]);
      assert (a + b)[..|a| + n] == a + b[..n];
      MapConcat(Stored(a), Stored(b[..n]), ToMap(b[n].rows));
    }
  }

  lemma MapConcat<K, V>(a: map<K, V>, b: map<K, V>, c: map<K, V>)
    ensures (a + b) + c == a + (b + c)
  {
  }

  lemma StoredOne(g: Segment)
    ensures Stored([g]) == ToMap(g.rows)
  {
    assert [g][..0] == [];
  }

  lemma {:induction false} HeldIsStored(segs: seq<Segment>, i: nat, x: Id)
    requires i < |segs| && x in ToMap(segs[i].rows)
    ensures x in Stored(segs)
  {
    if i < |segs| - 1 {
      HeldIsStored(segs[..|segs| - 1], i, x);
    }
  }

  // ---- search -----------------------------------------------------------------------

  // The vector library: a distance, the flat index the memtable builds, and the
  // index a segment was saved with (its last argument is nprobe).
  datatype Faiss = Faiss(
    dist: (Vec, Vec) -> real,
    flat: (Rows, Vec, nat) -> seq<Hit>,
    index: (Rows, Vec, nat, nat) -> seq<Hit>)

  // Hits are stored rows at their true distance, each id once.
  ghost predicate TrueHits(dist: (Vec, Vec) -> real, rows: Rows, q: Vec, k: nat, hits: seq<Hit>) {
    && |hits| <= k && DistinctIds(hits)
    && forall i :: 0 <= i < |hits| ==>
         hits[i].id in ToMap(rows) && hits[i].dist == dist(q, ToMap(rows)[hits[i].id])
  }

  // The hits are the k nearest rows, or all rows when there are fewer.
  ghost predicate NearestHits(dist: (Vec, Vec) -> real, rows: Rows, q: Vec, k: nat, hits: seq<Hit>) {
    && TrueHits(dist, rows, q, k, hits)
    && |hits| == Min(k, |rows|)
    && forall x, i :: x in ToMap(rows) && 0 <= i < |hits| && (forall j :: 0 <= j < |hits| ==> hits[j].id != x)
         ==> hits[i].dist <= dist(q, ToMap(rows)[x])
  }

  // What every FAISS index guarantees. The flat index is exact.
  ghost predicate Sound(f: Faiss) {
    && (forall rows, q, k, nprobe :: TrueHits(f.dist, rows, q, k, f.index(rows, q, k, nprobe)))
    && (forall rows, q, k :: NearestHits(f.dist, rows, q, k, f.flat(rows, q, k)))
  }

  // `mask = ids >= 0`: meant for unfilled slots, it also drops negative ids.
  function NonNegative(hits: seq<Hit>): seq<Hit> {
    if hits == [] then []
    else (if hits[0].id >= 0 then [hits[0]] else []) + NonNegative(hits[1..])
  }

  // `Segment.search`.
  function SegmentHits(f: Faiss, rows: Rows, q: Vec, k: nat, nprobe: nat): seq<Hit> {
    NonNegative(f.index(rows, q, k, nprobe))
  }

  // `filter_result_ids`.
  function Unhidden(hits: seq<Hit>, hidden: set<Id>): seq<Hit> {
    if hits == [] then []
    else (if hits[0].id !in hidden then [hits[0]] else []) + Unhidden(hits[1..], hidden)
  }

  method FilterResultIds(hits: seq<Hit>, hidden: set<Id>) returns (r: seq<Hit>)
    ensures r == Unhidden(hits, hidden)
  {
    if hidden == {} || |hits| == 0 {
      NothingHidden(hits);
      return hits;
    }
    r := [];
    for i := 0 to |hits|
      invariant r + Unhidden(hits[i..], hidden) == Unhidden(hits, hidden)
    {
      if hits[i].id !in hidden {
        r := r + [hits[i]];
      }
    }
  }

  lemma {:induction false} NothingHidden(hits: seq<Hit>)
    ensures Unhidden(hits, {}) == hits
  {
    if hits != [] {
      NothingHidden(hits[1..]);
      assert hits == [hits[0]] + hits[1..];
    }
  }

  lemma {:induction false} UnhiddenMembers(hits: seq<Hit>, hidden: set<Id>)
    ensures forall h :: h in Unhidden(hits, hidden) <==> h in hits && h.id !in hidden
  {
    if hits != [] {
      UnhiddenMembers(hits[1..], hidden);
      assert forall h :: h in hits <==> h == hits[0] || h in hits[1..];
    }
  }

  lemma {:induction false} NonNegativeMembers(hits: seq<Hit>)
    ensures forall h :: h in NonNegative(hits) <==> h in hits && h.id >= 0
  {
    if hits != [] {
      NonNegativeMembers(hits[1..]);
      assert forall h :: h in hits <==> h == hits[0] || h in hits[1..];
    }
  }

  // Both filters keep the order of what they keep.
  lemma {:induction false} UnhiddenOrder(hits: seq<Hit>, hidden: set<Id>, i: nat, j: nat) returns (p: nat, q: nat)
    requires i < j < |hits| && hits[i].id !in hidden && hits[j].id !in hidden
    ensures p < q < |Unhidden(hits, hidden)|
    ensures Unhidden(hits, hidden)[p] == hits[i] && Unhidden(hits, hidden)[q] == hits[j]
  {
    var front := if hits[0].id !in hidden then 1 else 0;
    if i > 0 {
      p, q := UnhiddenOrder(hits[1..], hidden, i - 1, j - 1);
      p, q := front + p, front + q;
    } else {
      UnhiddenMembers(hits[1..], hidden);
      assert hits[1..][j - 1] == hits[j];
      q :| 0 <= q < |Unhidden(hits[1..], hidden)| && Unhidden(hits[1..], hidden)[q] == hits[j];
      p, q := 0, 1 + q;
    }
  }

  lemma {:induction false} NonNegativeOrder(hits: seq<Hit>, i: nat, j: nat) returns (p: nat, q: nat)
    requires i < j < |hits| && hits[i].id >= 0 && hits[j].id >= 0
    ensures p < q < |NonNegative(hits)| && NonNegative(hits)[p] == hits[i] && NonNegative(hits)[q] == hits[j]
  {
    var front := if hits[0].id >= 0 then 1 else 0;
    if i > 0 {
      p, q := NonNegativeOrder(hits[1..], i - 1, j - 1);
      p, q := front + p, front + q;
    } else {
      NonNegativeMembers(hits[1..]);
      assert hits[1..][j - 1] == hits[j];
      q :| 0 <= q < |NonNegative(hits[1..])| && NonNegative(hits[1..])[q] == hits[j];
      p, q := 0, 1 + q;
    }
  }

  lemma {:induction false} UnhiddenDistinct(hits: seq<Hit>, hidden: set<Id>)
    requires DistinctIds(hits)
    ensures DistinctIds(Unhidden(hits, hidden))
  {
    if hits != [] {
      UnhiddenDistinct(hits[1..], hidden);
      UnhiddenMembers(hits[1..], hidden);
      forall j | 0 <= j < |Unhidden(hits[1..], hidden)| ensures Unhidden(hits[1..], hidden)[j].id != hits[0].id {
        assert Unhidden(hits[1..], hidden)[j] in hits[1..];
      }
    }
  }

  lemma {:induction false} NonNegativeDistinct(hits: seq<Hit>)
    requires DistinctIds(hits)
    ensures DistinctIds(NonNegative(hits))
  {
    if hits != [] {
      NonNegativeDistinct(hits[1..]);
      NonNegativeMembers(hits[1..]);
      forall j | 0 <= j < |NonNegative(hits[1..])| ensures NonNegative(hits[1..])[j].id != hits[0].id {
        assert NonNegative(hits[1..])[j] in hits[1..];
      }
    }
  }

  // Hiding depends only on which of the hits' own ids are hidden.
  lemma {:induction false} SameHidden(hits: seq<Hit>, a: set<Id>, b: set<Id>)
    requires forall i :: 0 <= i < |hits| ==> (hits[i].id in a <==> hits[i].id in b)
    ensures Unhidden(hits, a) == Unhidden(hits, b)
  {
    if hits != [] {
      SameHidden(hits[1..], a, b);
    }
  }
}
