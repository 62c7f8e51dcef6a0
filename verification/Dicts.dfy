// Python's insertion-ordered dictionary as a sequence of pairs: assigning to a
// present key keeps its position, assigning to a new key appends it.
module Dicts {

  ghost function ToMap<K, V>(d: seq<(K, V)>): map<K, V> {
    if d == [] then map[] else ToMap(d[1..])[d[0].0 := d[0].1]
  }

  ghost predicate DistinctKeys<K, V>(d: seq<(K, V)>) {
    d == [] || (d[0].0 !in ToMap(d[1..]) && DistinctKeys(d[1..]))
  }

  type Dict<K(==), V> = d: seq<(K, V)> | DistinctKeys(d) witness []

  predicate Has<K(==), V>(d: seq<(K, V)>, k: K)
    ensures Has(d, k) <==> k in ToMap(d)
  {
    d != [] && (d[0].0 == k || Has(d[1..], k))
  }

  function Get<K(==), V>(d: seq<(K, V)>, k: K): (v: V)
    requires Has(d, k)
    ensures v == ToMap(d)[k]
  {
    if d[0].0 == k then d[0].1 else Get(d[1..], k)
  }

  function Put<K(==), V>(d: Dict<K, V>, k: K, v: V): (r: Dict<K, V>)
    ensures ToMap(r) == ToMap(d)[k := v]
  {
    if d == [] then [(k, v)]
    else if d[0].0 == k then
      assert ([(k, v)] + d[1..])[1..] == d[1..];
      [(k, v)] + d[1..]
    else
      var rest := Put(d[1..], k, v);
      assert ([d[0]] + rest)[1..] == rest;
      [d[0]] + rest
  }

  function Remove<K(==), V>(d: Dict<K, V>, k: K): (r: Dict<K, V>)
    ensures ToMap(r) == ToMap(d) - {k}
  {
    if d == [] then []
    else if d[0].0 == k then d[1..]
    else
      var rest := Remove(d[1..], k);
      assert ([d[0]] + rest)[1..] == rest;
      [d[0]] + rest
  }

  // `OrderedDict.move_to_end`.
  function MoveToEnd<K(==), V>(d: Dict<K, V>, k: K): (r: Dict<K, V>)
    requires Has(d, k)
    ensures ToMap(r) == ToMap(d)
  {
    PutNewAppends(Remove(d, k), k, Get(d, k));
    Put(Remove(d, k), k, Get(d, k))
  }

  lemma {:induction false} PutNewAppends<K, V>(d: Dict<K, V>, k: K, v: V)
    requires !Has(d, k)
    ensures Put(d, k, v) == d + [(k, v)]
  {
    if d != [] {
      PutNewAppends(d[1..], k, v);
    }
  }

  // Assigning to a present key changes that entry's value and nothing else.
  lemma {:induction false} PutInPlace<K, V>(d: Dict<K, V>, k: K, v: V)
    requires Has(d, k)
    ensures |Put(d, k, v)| == |d|
    ensures forall i :: 0 <= i < |d| ==> Put(d, k, v)[i] == if d[i].0 == k then (k, v) else d[i]
  {
    if d[0].0 == k {
      forall i | 0 < i < |d| ensures d[i].0 != k {
        DistinctAt(d, 0, i);
      }
    } else {
      PutInPlace(d[1..], k, v);
    }
  }

  // Either way every key that was there stays where it was.
  lemma PutKeepsPlaces<K, V>(d: Dict<K, V>, k: K, v: V)
    ensures |d| <= |Put(d, k, v)|
    ensures forall i :: 0 <= i < |d| ==> Put(d, k, v)[i].0 == d[i].0
  {
    if Has(d, k) {
      PutInPlace(d, k, v);
    } else {
      PutNewAppends(d, k, v);
    }
  }

  lemma {:induction false} EntryAt<K, V>(d: Dict<K, V>, i: nat)
    requires i < |d|
    ensures d[i].0 in ToMap(d) && ToMap(d)[d[i].0] == d[i].1
  {
    if i > 0 {
      EntryAt(d[1..], i - 1);
    }
  }

  lemma {:induction false} IndexFor<K, V>(d: Dict<K, V>, k: K) returns (i: nat)
    requires k in ToMap(d)
    ensures i < |d| && d[i] == (k, ToMap(d)[k])
  {
    if d[0].0 == k {
      i := 0;
    } else {
      i := IndexFor(d[1..], k);
      i := i + 1;
    }
  }

  lemma {:induction false} DistinctAt<K, V>(d: Dict<K, V>, i: nat, j: nat)
    requires i < j < |d|
    ensures d[i].0 != d[j].0
  {
    if i == 0 {
      EntryAt(d[1..], j - 1);
    } else {
      DistinctAt(d[1..], i - 1, j - 1);
    }
  }

  lemma {:induction false} DistinctFromIndices<K, V>(d: seq<(K, V)>)
    requires forall i, j :: 0 <= i < j < |d| ==> d[i].0 != d[j].0
    ensures DistinctKeys(d)
  {
    if d != [] {
      DistinctFromIndices(d[1..]);
      if d[0].0 in ToMap(d[1..]) {
        var i := IndexFor(d[1..], d[0].0);
        assert false;
      }
    }
  }

  // A slice of a dictionary is a dictionary.
  lemma SliceDistinct<K, V>(d: Dict<K, V>, lo: nat, hi: nat)
    requires lo <= hi <= |d|
    ensures DistinctKeys(d[lo..hi])
  {
    forall i, j | 0 <= i < j < hi - lo ensures d[lo..hi][i].0 != d[lo..hi][j].0 {
      DistinctAt(d, lo + i, lo + j);
    }
    DistinctFromIndices(d[lo..hi]);
  }

  lemma {:induction false} SizeIsLength<K, V>(d: Dict<K, V>)
    ensures |ToMap(d)| == |d|
  {
    if d != [] {
      SizeIsLength(d[1..]);
      assert ToMap(d).Keys == ToMap(d[1..]).Keys + {d[0].0};
    }
  }
}
