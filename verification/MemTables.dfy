// The write buffer: the last write of each id, with delete markers.
module MemTables {
  import opened Wrappers
  import opened WalCodec
  import opened Dicts
  import opened MergeResults
  import opened Segments

  datatype Entry = Live(vec: Vec, lsn: nat) | Deleted(lsn: nat)

  type Entries = Dict<Id, Entry>

  // `zip(ids, vectors)`.
  function Zip(ids: seq<Id>, vectors: seq<Vec>): (ps: seq<(Id, Vec)>)
    ensures |ps| == Min(|ids|, |vectors|)
    ensures forall i :: 0 <= i < |ps| ==> ps[i] == (ids[i], vectors[i])
  {
    seq(Min(|ids|, |vectors|), i requires 0 <= i < |ids| && i < |vectors| => (ids[i], vectors[i]))
  }

  // ---- specification ------------------------------------------------------------------

  function PutAll(mem: Entries, pairs: seq<(Id, Vec)>, lsn: nat): Entries {
    if pairs == [] then mem
    else
      var last := pairs[|pairs| - 1];
      Put(PutAll(mem, pairs[..|pairs| - 1], lsn), last.0, Live(last.1, lsn))
  }

  function PutEach(mem: Entries, ids: seq<Id>, e: Entry): Entries {
    if ids == [] then mem else Put(PutEach(mem, ids[..|ids| - 1], e), ids[|ids| - 1], e)
  }

  function DeleteAll(mem: Entries, ids: seq<Id>, lsn: nat): Entries {
    PutEach(mem, ids, Deleted(lsn))
  }

  predicate AtMost(e: Entry, snapshot: Option<nat>) {
    snapshot.None? || e.lsn <= snapshot.value
  }

  function LiveRows(mem: seq<(Id, Entry)>, snapshot: Option<nat>): seq<(Id, Vec)> {
    if mem == [] then []
    else
      var (x, e) := mem[0];
      (if AtMost(e, snapshot) && e.Live? then [(x, e.vec)] else []) + LiveRows(mem[1..], snapshot)
  }

  function DeletedIds(mem: seq<(Id, Entry)>, snapshot: Option<nat>): set<Id> {
    if mem == [] then {}
    else
      var (x, e) := mem[0];
      (if AtMost(e, snapshot) && e.Deleted? then {x} else {}) + DeletedIds(mem[1..], snapshot)
  }

  function MaxLsn(mem: seq<(Id, Entry)>): nat {
    if mem == [] then 0
    else
      var m := MaxLsn(mem[1..]);
      if m < mem[0].1.lsn then mem[0].1.lsn else m
  }

  // ---- the object ---------------------------------------------------------------------

  class MemTable {
    const dim: nat
    const flushThreshold: int
    var entries: Entries

    constructor (dim: nat, flushThreshold: int)
      ensures this.dim == dim && this.flushThreshold == flushThreshold && entries == []
    {
      this.dim, this.flushThreshold, entries := dim, flushThreshold, [];
    }

    method Insert(ids: seq<Id>, vectors: seq<Vec>, lsn: nat) returns (ok: bool)
      modifies this
      ensures ok <==> ShapeOk(dim, ids, vectors)
      ensures entries == if ok then PutAll(old(entries), Zip(ids, vectors), lsn) else old(entries)
    {
      if !ShapeOk(dim, ids, vectors) {
        return false;
      }
      var pairs := Zip(ids, vectors);
      for i := 0 to |pairs|
        invariant entries == PutAll(old(entries), pairs[..i], lsn)
      {
        assert pairs[..i + 1][..i] == pairs[..i];
        entries := Put(entries, pairs[i].0, Live(pairs[i].1, lsn));
      }
      assert pairs[..|pairs|] == pairs;
      return true;
    }

    method Delete(ids: seq<Id>, lsn: nat)
      modifies this
      ensures entries == DeleteAll(old(entries), ids, lsn)
    {
      for i := 0 to |ids|
        invariant entries == PutEach(old(entries), ids[..i], Deleted(lsn))
      {
        assert ids[..i + 1][..i] == ids[..i];
        entries := Put(entries, ids[i], Deleted(lsn));
      }
      assert ids[..|ids|] == ids;
    }

    method ToArrays(snapshot: Option<nat>) returns (rows: Rows)
      ensures rows == LiveRows(entries, snapshot)
    {
      var items: seq<(Id, Entry)> := entries;
      var acc: seq<(Id, Vec)> := [];
      for i := 0 to |items|
        invariant acc + LiveRows(items[i..], snapshot) == LiveRows(items, snapshot)
      {
        var (x, e) := items[i];
        LiveStep(acc, items, i, snapshot);
        if AtMost(e, snapshot) && e.Live? {
          acc := acc + [(x, e.vec)];
        }
      }
      LiveEnd(acc, items, snapshot);
      LiveRowsAre(entries, snapshot);
      rows := acc;
    }

    method VisibleDeletedIds(snapshot: Option<nat>) returns (deleted: set<Id>)
      ensures deleted == DeletedIds(entries, snapshot)
    {
      deleted := {};
      for i := 0 to |entries|
        invariant deleted + DeletedIds(entries[i..], snapshot) == DeletedIds(entries, snapshot)
      {
        var (x, e) := entries[i];
        if AtMost(e, snapshot) && e.Deleted? {
          deleted := deleted + {x};
        }
      }
    }

    method Clear()
      modifies this
      ensures entries == []
    {
      entries := [];
    }

    // Live entries; delete markers do not count.
    function Ntotal(): (n: nat)
      reads this
      ensures n == |LiveOf(ToMap(entries), None)|
    {
      LiveCount(entries);
      |LiveRows(entries, None)|
    }

    predicate ShouldFlush()
      reads this
      ensures ShouldFlush() <==> |LiveOf(ToMap(entries), None)| >= flushThreshold
    {
      Ntotal() >= flushThreshold
    }

    method Search(f: Faiss, q: Vec, topK: nat, snapshot: Option<nat>) returns (hits: seq<Hit>)
      ensures hits == MemHits(f, entries, q, topK, snapshot)
    {
      var rows := ToArrays(snapshot);
      if |rows| == 0 {
        return [];
      }
      return NonNegative(f.flat(rows, q, Min(topK, |rows|)));
    }
  }

  function MemHits(f: Faiss, mem: Entries, q: Vec, topK: nat, snapshot: Option<nat>): seq<Hit> {
    LiveRowsAre(mem, snapshot);
    var rows := LiveRows(mem, snapshot);
    if rows == [] then [] else NonNegative(f.flat(rows, q, Min(topK, |rows|)))
  }

  function IdSet(ids: seq<Id>): set<Id> {
    set x | x in ids
  }

  // Live entries, and delete markers, all written by one record.
  ghost function Lives(w: map<Id, Vec>, lsn: nat): map<Id, Entry> {
    map x | x in w :: Live(w[x], lsn)
  }

  ghost function Each(ids: set<Id>, e: Entry): map<Id, Entry> {
    map x | x in ids :: e
  }

  ghost function Markers(ids: set<Id>, lsn: nat): map<Id, Entry> {
    map x | x in ids :: Deleted(lsn)
  }

  // ---- what the folds compute -----------------------------------------------------------

  // The batch as a mapping: the last duplicate of an id wins.
  ghost function Written(pairs: seq<(Id, Vec)>): map<Id, Vec> {
    if pairs == [] then map[]
    else Written(pairs[..|pairs| - 1])[pairs[|pairs| - 1].0 := pairs[|pairs| - 1].1]
  }

  // Position i is the last one with its id.
  ghost predicate LastOfId(pairs: seq<(Id, Vec)>, i: nat)
    requires i < |pairs|
  {
    forall j :: i < j < |pairs| ==> pairs[j].0 != pairs[i].0
  }

  lemma {:induction false} LastDuplicateWins(pairs: seq<(Id, Vec)>, i: nat)
    requires i < |pairs| && LastOfId(pairs, i)
    ensures pairs[i].0 in Written(pairs) && Written(pairs)[pairs[i].0] == pairs[i].1
  {
    var n := |pairs| - 1;
    if i < n {
      LastDuplicateWins(pairs[..n], i);
    }
  }

  lemma {:induction false} WrittenFrom(pairs: seq<(Id, Vec)>, x: Id) returns (i: nat)
    requires x in Written(pairs)
    ensures i < |pairs| && pairs[i].0 == x && LastOfId(pairs, i)
  {
    var n := |pairs| - 1;
    if pairs[n].0 == x {
      i := n;
    } else {
      i := WrittenFrom(pairs[..n], x);
      forall j | i < j < |pairs| ensures pairs[j].0 != x {
        assert j < n ==> pairs[..n][j] == pairs[j];
      }
    }
  }

  lemma {:induction false} PutAllIs(mem: Entries, pairs: seq<(Id, Vec)>, lsn: nat)
    ensures ToMap(PutAll(mem, pairs, lsn)) == ToMap(mem) + Lives(Written(pairs), lsn)
  {
    if pairs != [] {
      var last := pairs[|pairs| - 1];
      PutAllIs(mem, pairs[..|pairs| - 1], lsn);
      LivesUpdate(Written(pairs[..|pairs| - 1]), last.0, last.1, lsn);
      PlusUpdate(ToMap(mem), Lives(Written(pairs[..|pairs| - 1]), lsn), last.0, Live(last.1, lsn));
    } else {
      assert ToMap(mem) + Lives(map[], lsn) == ToMap(mem);
    }
  }

  lemma LivesUpdate(w: map<Id, Vec>, x: Id, v: Vec, lsn: nat)
    ensures Lives(w[x := v], lsn) == Lives(w, lsn)[x := Live(v, lsn)]
  {
  }

  lemma PlusUpdate<K, V>(a: map<K, V>, b: map<K, V>, k: K, v: V)
    ensures a + b[k := v] == (a + b)[k := v]
  {
  }

  lemma {:induction false} PutEachIs(mem: Entries, ids: seq<Id>, e: Entry)
    ensures ToMap(PutEach(mem, ids, e)) == ToMap(mem) + Each(IdSet(ids), e)
  {
    if ids != [] {
      var front, last := ids[..|ids| - 1], ids[|ids| - 1];
      PutEachIs(mem, front, e);
      LastId(ids, e);
      PlusUpdate(ToMap(mem), Each(IdSet(front), e), last, e);
    } else {
      assert ToMap(mem) + Each(IdSet(ids), e) == ToMap(mem);
    }
  }

  lemma LastId(ids: seq<Id>, e: Entry)
    requires ids != []
    ensures Each(IdSet(ids), e) == Each(IdSet(ids[..|ids| - 1]), e)[ids[|ids| - 1] := e]
  {
    assert ids == ids[..|ids| - 1] + [ids[|ids| - 1]];
  }

  lemma DeleteAllIs(mem: Entries, ids: seq<Id>, lsn: nat)
    ensures ToMap(DeleteAll(mem, ids, lsn)) == ToMap(mem) + Markers(IdSet(ids), lsn)
  {
    PutEachIs(mem, ids, Deleted(lsn));
  }

  lemma LiveStep(acc: seq<(Id, Vec)>, items: seq<(Id, Entry)>, i: nat, snapshot: Option<nat>)
    requires i < |items|
    ensures var (x, e) := items[i];
            acc + LiveRows(items[i..], snapshot) ==
            (if AtMost(e, snapshot) && e.Live? then acc + [(x, e.vec)] else acc) + LiveRows(items[i + 1..], snapshot)
  {
    assert items[i..][1..] == items[i + 1..];
  }

  lemma LiveEnd(acc: seq<(Id, Vec)>, items: seq<(Id, Entry)>, snapshot: Option<nat>)
    ensures acc + LiveRows(items[|items|..], snapshot) == acc
  {
    assert items[|items|..] == [];
  }

  // The live entries of a memtable as a mapping.
  ghost function LiveOf(m: map<Id, Entry>, snapshot: Option<nat>): map<Id, Vec> {
    map x | x in m && AtMost(m[x], snapshot) && m[x].Live? :: m[x].vec
  }

  lemma LiveOfNew(m: map<Id, Entry>, x: Id, e: Entry, snapshot: Option<nat>)
    requires x !in m
    ensures LiveOf(m[x := e], snapshot)
         == if AtMost(e, snapshot) && e.Live? then LiveOf(m, snapshot)[x := e.vec] else LiveOf(m, snapshot)
  {
  }

  lemma {:induction false} LiveRowsAre(mem: Entries, snapshot: Option<nat>)
    ensures DistinctKeys(LiveRows(mem, snapshot))
    ensures ToMap(LiveRows(mem, snapshot)) == LiveOf(ToMap(mem), snapshot)
  {
    if mem != [] {
      var x, e := mem[0].0, mem[0].1;
      LiveRowsAre(mem[1..], snapshot);
      LiveOfNew(ToMap(mem[1..]), x, e, snapshot);
      ConsDict(LiveRows(mem[1..], snapshot), x, if e.Live? then e.vec else []);
      assert [] + LiveRows(mem[1..], snapshot) == LiveRows(mem[1..], snapshot);
    }
  }

  lemma LiveCount(mem: Entries)
    ensures |LiveRows(mem, None)| == |LiveOf(ToMap(mem), None)|
  {
    LiveRowsAre(mem, None);
    SizeIsLength(LiveRows(mem, None));
  }

  // The rows come in the order of the dictionary.
  lemma {:induction false} LiveRowsOrder(mem: Entries, snapshot: Option<nat>, i: nat, j: nat) returns (p: nat, q: nat)
    requires i < j < |LiveRows(mem, snapshot)|
    ensures p < q < |mem|
    ensures mem[p].0 == LiveRows(mem, snapshot)[i].0 && mem[q].0 == LiveRows(mem, snapshot)[j].0
  {
    var rest := LiveRows(mem[1..], snapshot);
    var front := if AtMost(mem[0].1, snapshot) && mem[0].1.Live? then 1 else 0;
    if i >= front {
      p, q := LiveRowsOrder(mem[1..], snapshot, i - front, j - front);
      p, q := p + 1, q + 1;
    } else {
      LiveRowAt(mem[1..], snapshot, j - 1);
      var l :| 0 <= l < |mem[1..]| && mem[1..][l].0 == rest[j - 1].0;
      p, q := 0, l + 1;
    }
  }

  lemma {:induction false} LiveRowAt(mem: seq<(Id, Entry)>, snapshot: Option<nat>, i: nat)
    requires i < |LiveRows(mem, snapshot)|
    ensures exists p :: 0 <= p < |mem| && mem[p].0 == LiveRows(mem, snapshot)[i].0
  {
    var front := if AtMost(mem[0].1, snapshot) && mem[0].1.Live? then 1 else 0;
    if i >= front {
      LiveRowAt(mem[1..], snapshot, i - front);
      var p :| 0 <= p < |mem[1..]| && mem[1..][p].0 == LiveRows(mem[1..], snapshot)[i - front].0;
      assert mem[p + 1].0 == LiveRows(mem, snapshot)[i].0;
    } else {
      assert mem[0].0 == LiveRows(mem, snapshot)[i].0;
    }
  }

  lemma ConsDict<K, V>(d: Dict<K, V>, k: K, v: V)
    ensures ToMap([(k, v)] + d) == ToMap(d)[k := v]
    ensures k !in ToMap(d) ==> DistinctKeys([(k, v)] + d)
  {
    assert ([(k, v)] + d)[1..] == d;
  }

  lemma {:induction false} DeletedIdsAre(mem: Entries, snapshot: Option<nat>)
    ensures var m := ToMap(mem);
            DeletedIds(mem, snapshot) == set x | x in m && AtMost(m[x], snapshot) && m[x].Deleted?
  {
    if mem != [] {
      DeletedIdsAre(mem[1..], snapshot);
    }
  }

  // The entry with the largest LSN.
  lemma {:induction false} MaxEntry(mem: Entries) returns (x: Id)
    requires mem != []
    ensures x in ToMap(mem) && ToMap(mem)[x].lsn == MaxLsn(mem)
  {
    if mem[1..] == [] || MaxLsn(mem[1..]) < mem[0].1.lsn {
      x := mem[0].0;
    } else {
      x := MaxEntry(mem[1..]);
    }
  }

  lemma {:induction false} MaxLsnIs(mem: Entries)
    ensures forall x :: x in ToMap(mem) ==> ToMap(mem)[x].lsn <= MaxLsn(mem)
    ensures mem != [] ==> exists x :: x in ToMap(mem) && ToMap(mem)[x].lsn == MaxLsn(mem)
  {
    if mem != [] {
      MaxLsnIs(mem[1..]);
      var x := MaxEntry(mem);
    }
  }
}
