// Consistent hashing: a sorted list of (token, node) pairs, virtualNodes of them
// per node, in which a key belongs to the cyclic successor of its token.
module HashRing {
  import opened Wrappers
  import opened ByteCodec
  import opened Sorting

  type Token = t: nat | t < TWO_64   // the first 8 digest bytes as an unsigned integer
  type Entry = (nat, string)

  // The hash of "<node>:<replica>" and of a key, both arbitrary: nothing below
  // excludes colliding tokens.
  datatype Hashing = Hashing(replica: (string, nat) -> Token, key: string -> Token)

  // The entries of one node's first n replicas.
  ghost function NodeEntries(h: Hashing, node: string, n: nat): multiset<Entry> {
    if n == 0 then multiset{}
    else NodeEntries(h, node, n - 1) + multiset{(h.replica(node, n - 1), node)}
  }

  // ring is the sorted list of exactly `virtual` entries for each node of the set.
  ghost predicate IsRing(h: Hashing, virtual: nat, ring: seq<Entry>, nodes: set<string>) {
    && Sorted(PairLe, ring)
    && forall e: Entry ::
         multiset(ring)[e] == if e.1 in nodes then NodeEntries(h, e.1, virtual)[e] else 0
  }

  // First entry with a token of at least t, wrapping to the first entry of all.
  function OwnerEntry(ring: seq<Entry>, t: nat): (e: Entry)
    requires ring != []
  {
    var i := FirstAtLeast(ring, t);
    ring[if i == |ring| then 0 else i]
  }

  function FirstAtLeast(ring: seq<Entry>, t: nat): (i: nat)
    ensures i <= |ring|
    ensures forall j :: 0 <= j < i ==> ring[j].0 < t
    ensures i < |ring| ==> t <= ring[i].0
  {
    if ring == [] || t <= ring[0].0 then 0 else 1 + FirstAtLeast(ring[1..], t)
  }

  lemma TokensAscend(ring: seq<Entry>)
    requires Sorted(PairLe, ring)
    ensures forall i, j :: 0 <= i < j < |ring| ==> ring[i].0 <= ring[j].0
  {
    forall i, j | 0 <= i < j < |ring| ensures ring[i].0 <= ring[j].0 {
      assert PairLe(ring[i], ring[j]);
    }
  }

  // `bisect.bisect_left(ring, (token, ""))`: "" precedes every node id, so only
  // the token counts.
  method BisectLeft(ring: seq<Entry>, token: nat) returns (lo: nat)
    requires forall i, j :: 0 <= i < j < |ring| ==> ring[i].0 <= ring[j].0
    ensures lo == FirstAtLeast(ring, token)
  {
    lo := 0;
    var hi := |ring|;
    while lo < hi
      invariant lo <= hi <= |ring|
      invariant forall j :: 0 <= j < lo ==> ring[j].0 < token
      invariant forall j :: hi <= j < |ring| ==> token <= ring[j].0
    {
      var mid := (lo + hi) / 2;
      if ring[mid].0 < token {
        lo := mid + 1;
      } else {
        hi := mid;
      }
    }
    FirstIs(ring, token, lo);
  }

  lemma {:induction false} FirstIs(ring: seq<Entry>, t: nat, lo: nat)
    requires lo <= |ring| && forall j :: 0 <= j < lo ==> ring[j].0 < t
    requires forall j :: lo <= j < |ring| ==> t <= ring[j].0
    ensures lo == FirstAtLeast(ring, t)
  {
    if lo > 0 {
      FirstIs(ring[1..], t, lo - 1);
    }
  }

  class ConsistentHashRing {
    const hashing: Hashing
    const virtualNodes: nat
    var ring: seq<Entry>
    var nodes: set<string>

    ghost predicate Valid()
      reads this
    {
      IsRing(hashing, virtualNodes, ring, nodes) && virtualNodes > 0
    }

    constructor (hashing: Hashing, virtualNodes: nat)
      requires virtualNodes > 0
      ensures Valid() && nodes == {} && this.hashing == hashing && this.virtualNodes == virtualNodes
    {
      this.hashing, this.virtualNodes := hashing, virtualNodes;
      ring, nodes := [], {};
    }

    method AddNode(node: string)
      requires Valid()
      modifies this
      ensures Valid() && nodes == old(nodes) + {node}
    {
      if node in nodes {
        return;
      }
      nodes := nodes + {node};
      for replica := 0 to virtualNodes
        invariant nodes == old(nodes) + {node}
        invariant Sorted(PairLe, ring)
        invariant Grown(hashing, old(ring), ring, node, replica)
      {
        var token := hashing.replica(node, replica);
        PairLeIsTotalOrder();
        InsortKeepsSorted(PairLe, ring, (token, node));
        GrowsByOne(hashing, old(ring), ring, node, replica);
        ring := Insort(PairLe, ring, (token, node));
      }
      GrownIsRing(hashing, virtualNodes, old(ring), ring, old(nodes), node);
    }

    method RemoveNode(node: string)
      requires Valid()
      modifies this
      ensures Valid() && nodes == old(nodes) - {node}
    {
      if node !in nodes {
        return;
      }
      nodes := nodes - {node};
      WithoutIsRing(hashing, virtualNodes, ring, old(nodes), node);
      ring := KeepOthers(ring, node);
    }

    method GetNode(key: string) returns (r: Result<string, string>)
      requires Valid()
      ensures nodes == {} ==> r.Failure?
      ensures nodes != {} ==> ring != [] && r == Success(OwnerEntry(ring, hashing.key(key)).1)
    {
      NodesMeanEntries(hashing, virtualNodes, ring, nodes);
      if ring == [] {
        return Failure("Cannot route key on an empty ring.");
      }
      TokensAscend(ring);
      var index := BisectLeft(ring, hashing.key(key));
      if index == |ring| {
        index := 0;
      }
      return Success(ring[index].1);
    }

    method Clear()
      requires Valid()
      modifies this
      ensures Valid() && nodes == {} && ring == []
    {
      ring, nodes := [], {};
    }

    // The coordinator's `_rebuild_ring`.
    method Rebuild(readers: seq<string>)
      requires Valid()
      modifies this
      ensures Valid() && nodes == set n | n in readers
    {
      Clear();
      for i := 0 to |readers|
        invariant Valid() && nodes == set n | n in readers[..i]
      {
        assert readers[..i + 1] == readers[..i] + [readers[i]];
        AddNode(readers[i]);
      }
      assert readers[..|readers|] == readers;
    }
  }

  // ---- addition -----------------------------------------------------------------

  // The old ring with the node's first n entries.
  ghost predicate Grown(h: Hashing, before: seq<Entry>, ring: seq<Entry>, node: string, n: nat) {
    forall e: Entry :: multiset(ring)[e] == if e.1 == node then NodeEntries(h, node, n)[e] else multiset(before)[e]
  }

  lemma GrowsByOne(h: Hashing, before: seq<Entry>, ring: seq<Entry>, node: string, n: nat)
    requires Grown(h, before, ring, node, n)
    ensures Grown(h, before, Insort(PairLe, ring, (h.replica(node, n), node)), node, n + 1)
  {
  }

  lemma GrownIsRing(h: Hashing, virtual: nat, before: seq<Entry>, ring: seq<Entry>, nodes: set<string>, node: string)
    requires IsRing(h, virtual, before, nodes) && node !in nodes
    requires Sorted(PairLe, ring) && Grown(h, before, ring, node, virtual)
    ensures IsRing(h, virtual, ring, nodes + {node})
  {
  }

  // ---- removal ------------------------------------------------------------------

  function Without(ring: seq<Entry>, node: string): seq<Entry> {
    if ring == [] then []
    else
      var last := ring[|ring| - 1];
      Without(ring[..|ring| - 1], node) + if last.1 != node then [last] else []
  }

  method KeepOthers(ring: seq<Entry>, node: string) returns (kept: seq<Entry>)
    ensures kept == Without(ring, node)
  {
    kept := [];
    for i := 0 to |ring|
      invariant kept == Without(ring[..i], node)
    {
      assert ring[..i + 1][..i] == ring[..i];
      if ring[i].1 != node {
        kept := kept + [ring[i]];
      }
    }
    assert ring[..|ring|] == ring;
  }

  lemma {:induction false} WithoutMembers(ring: seq<Entry>, node: string, e: Entry)
    ensures e in Without(ring, node) <==> e in ring && e.1 != node
  {
    if ring != [] {
      WithoutMembers(ring[..|ring| - 1], node, e);
      assert ring == ring[..|ring| - 1] + [ring[|ring| - 1]];
    }
  }

  lemma {:induction false} WithoutKeeps(ring: seq<Entry>, node: string)
    requires Sorted(PairLe, ring)
    ensures Sorted(PairLe, Without(ring, node))
  {
    if ring != [] {
      var front, last := ring[..|ring| - 1], ring[|ring| - 1];
      WithoutKeeps(front, node);
      var r := Without(front, node);
      forall i | 0 <= i < |r| ensures PairLe(r[i], last) {
        WithoutMembers(front, node, r[i]);
        var j :| 0 <= j < |front| && front[j] == r[i];
        assert PairLe(ring[j], ring[|ring| - 1]);
      }
    }
  }

  lemma {:induction false} WithoutCounts(ring: seq<Entry>, node: string, e: Entry)
    ensures multiset(Without(ring, node))[e] == if e.1 == node then 0 else multiset(ring)[e]
  {
    if ring != [] {
      WithoutCounts(ring[..|ring| - 1], node, e);
      assert ring == ring[..|ring| - 1] + [ring[|ring| - 1]];
    }
  }

  lemma WithoutIsRing(h: Hashing, virtual: nat, ring: seq<Entry>, nodes: set<string>, node: string)
    requires IsRing(h, virtual, ring, nodes)
    ensures IsRing(h, virtual, Without(ring, node), nodes - {node})
  {
    WithoutKeeps(ring, node);
    forall e: Entry ensures multiset(Without(ring, node))[e] == if e.1 == node then 0 else multiset(ring)[e] {
      WithoutCounts(ring, node, e);
    }
  }

  // ---- canonicity -----------------------------------------------------------------

  lemma {:induction false} EntriesBelong(h: Hashing, node: string, n: nat)
    ensures |NodeEntries(h, node, n)| == n
    ensures forall e :: e in NodeEntries(h, node, n) ==> e.1 == node && e.0 < TWO_64
  {
    if n > 0 {
      EntriesBelong(h, node, n - 1);
    }
  }

  // The list depends only on the node set: the order of additions and removals
  // leaves no trace, and remove-then-add restores it entry for entry.
  lemma RingIsCanonical(h: Hashing, virtual: nat, a: seq<Entry>, b: seq<Entry>, nodes: set<string>)
    requires IsRing(h, virtual, a, nodes) && IsRing(h, virtual, b, nodes)
    ensures a == b
  {
    PairLeIsTotalOrder();
    forall e: Entry ensures multiset(a)[e] == multiset(b)[e] {
    }
    assert multiset(a) == multiset(b);
    SortedUnique(PairLe, a, b);
  }

  // Exactly virtualNodes entries per node.
  lemma EntriesPerNode(h: Hashing, virtual: nat, ring: seq<Entry>, nodes: set<string>, node: string)
    requires IsRing(h, virtual, ring, nodes)
    ensures Count(ring, node) == if node in nodes then virtual else 0
  {
    CountIsSize(ring, node);
    EntriesBelong(h, node, virtual);
    var own := Own(ring, node);
    assert own == if node in nodes then NodeEntries(h, node, virtual) else multiset{} by {
      forall e: Entry ensures own[e] == if node in nodes then NodeEntries(h, node, virtual)[e] else 0 {
        if e.1 != node && e in NodeEntries(h, node, virtual) {
          assert false;
        }
      }
    }
  }

  function Count(ring: seq<Entry>, node: string): nat {
    if ring == [] then 0
    else Count(ring[..|ring| - 1], node) + if ring[|ring| - 1].1 == node then 1 else 0
  }

  ghost function Own(ring: seq<Entry>, node: string): multiset<Entry> {
    if ring == [] then multiset{}
    else
      var last := ring[|ring| - 1];
      Own(ring[..|ring| - 1], node) + if last.1 == node then multiset{last} else multiset{}
  }

  lemma {:induction false} CountIsSize(ring: seq<Entry>, node: string)
    ensures |Own(ring, node)| == Count(ring, node)
    ensures forall e: Entry :: Own(ring, node)[e] == if e.1 == node then multiset(ring)[e] else 0
  {
    if ring != [] {
      var front, last := ring[..|ring| - 1], ring[|ring| - 1];
      assert ring == front + [last];
      CountIsSize(front, node);
    }
  }

  lemma NodesMeanEntries(h: Hashing, virtual: nat, ring: seq<Entry>, nodes: set<string>)
    requires IsRing(h, virtual, ring, nodes) && virtual > 0
    ensures ring == [] <==> nodes == {}
  {
    if nodes != {} {
      var n :| n in nodes;
      EntriesBelong(h, n, virtual);
      var e := (h.replica(n, virtual - 1), n);
      assert e in NodeEntries(h, n, virtual);
      assert e in multiset(ring);
    }
    if ring != [] {
      assert ring[0] in multiset(ring);
    }
  }

  // ---- ownership --------------------------------------------------------------------

  // Clockwise distance from t to token.
  function Clockwise(t: Token, token: nat): nat
    requires token < TWO_64
  {
    (token - t) % TWO_64
  }

  // a is met no later than b when walking clockwise from t; equal tokens go by name.
  ghost predicate NoLater(t: Token, a: Entry, b: Entry)
    requires a.0 < TWO_64 && b.0 < TWO_64
  {
    Clockwise(t, a.0) < Clockwise(t, b.0) || (a.0 == b.0 && StringLe(a.1, b.1))
  }

  lemma ClockwiseIs(t: Token, token: nat)
    requires token < TWO_64
    ensures Clockwise(t, token) == if t <= token then token - t else token - t + TWO_64
  {
  }

  ghost predicate Bounded(ring: seq<Entry>) {
    forall i :: 0 <= i < |ring| ==> ring[i].0 < TWO_64
  }

  lemma RingIsBounded(h: Hashing, virtual: nat, ring: seq<Entry>, nodes: set<string>)
    requires IsRing(h, virtual, ring, nodes)
    ensures Bounded(ring)
    ensures forall i :: 0 <= i < |ring| ==> ring[i].1 in nodes
  {
    forall i | 0 <= i < |ring| ensures ring[i].0 < TWO_64 && ring[i].1 in nodes {
      assert ring[i] in multiset(ring);
      assert ring[i].1 in nodes;
      EntriesBelong(h, ring[i].1, virtual);
      assert ring[i] in NodeEntries(h, ring[i].1, virtual);
    }
  }

  // `get_node` picks the cyclic successor: no entry is met before it.
  lemma OwnerIsCyclicSuccessor(ring: seq<Entry>, t: Token)
    requires Sorted(PairLe, ring) && ring != [] && Bounded(ring)
    ensures OwnerEntry(ring, t) in ring
    ensures forall i :: 0 <= i < |ring| ==> NoLater(t, OwnerEntry(ring, t), ring[i])
  {
    var o := FirstAtLeast(ring, t);
    var w := if o == |ring| then 0 else o;
    forall i | 0 <= i < |ring| ensures NoLater(t, ring[w], ring[i]) {
      ClockwiseIs(t, ring[w].0);
      ClockwiseIs(t, ring[i].0);
      StringLeTotal(ring[i].1, ring[i].1);
      if i < w {
        assert PairLe(ring[i], ring[w]);
      } else if w < i {
        assert PairLe(ring[w], ring[i]);
      }
    }
  }

  // Two entries that are both met first are the same entry.
  lemma FirstMetIsUnique(t: Token, a: Entry, b: Entry)
    requires a.0 < TWO_64 && b.0 < TWO_64 && NoLater(t, a, b) && NoLater(t, b, a)
    ensures a == b
  {
    StringLeAntisymmetricIf(a.1, b.1);
  }

  lemma StringLeAntisymmetricIf(a: string, b: string)
    ensures StringLe(a, b) && StringLe(b, a) ==> a == b
  {
    if StringLe(a, b) && StringLe(b, a) {
      StringLeAntisymmetric(a, b);
    }
  }

  lemma SameNodeSameEntries(h: Hashing, virtual: nat, a: seq<Entry>, nodesA: set<string>, b: seq<Entry>,
      nodesB: set<string>, e: Entry)
    requires IsRing(h, virtual, a, nodesA) && IsRing(h, virtual, b, nodesB)
    requires e in a && e.1 in nodesB
    ensures e in b
  {
    assert e in multiset(a);
    assert e.1 in nodesA;
    assert e in multiset(b);
  }

  // Minimal disruption. Between a ring and a ring with more nodes, a key whose
  // owner in the larger ring is an old node has that owner in both. So adding a
  // node moves keys only to it, and removing one moves only the keys it owned.
  lemma MinimalDisruption(h: Hashing, virtual: nat, small: seq<Entry>, few: set<string>, large: seq<Entry>,
      many: set<string>, t: Token)
    requires IsRing(h, virtual, small, few) && IsRing(h, virtual, large, many)
    requires few <= many && small != [] && large != []
    requires OwnerEntry(large, t).1 in few
    ensures OwnerEntry(small, t) == OwnerEntry(large, t)
  {
    RingIsBounded(h, virtual, small, few);
    RingIsBounded(h, virtual, large, many);
    OwnerIsCyclicSuccessor(small, t);
    OwnerIsCyclicSuccessor(large, t);
    var a, b := OwnerEntry(small, t), OwnerEntry(large, t);
    SameNodeSameEntries(h, virtual, large, many, small, few, b);
    SameNodeSameEntries(h, virtual, small, few, large, many, a);
    FirstMetIsUnique(t, a, b);
  }

  lemma AddingMovesKeysOnlyToNewNode(h: Hashing, virtual: nat, before: seq<Entry>, nodes: set<string>,
      after: seq<Entry>, node: string, t: Token)
    requires IsRing(h, virtual, before, nodes) && IsRing(h, virtual, after, nodes + {node}) && virtual > 0
    requires before != []
    ensures after != []
    ensures OwnerEntry(after, t).1 == node || OwnerEntry(after, t) == OwnerEntry(before, t)
  {
    NodesMeanEntries(h, virtual, after, nodes + {node});
    RingIsBounded(h, virtual, after, nodes + {node});
    if OwnerEntry(after, t).1 != node {
      MinimalDisruption(h, virtual, before, nodes, after, nodes + {node}, t);
    }
  }

  lemma RemovingMovesOnlyOwnedKeys(h: Hashing, virtual: nat, before: seq<Entry>, nodes: set<string>,
      after: seq<Entry>, node: string, t: Token)
    requires IsRing(h, virtual, before, nodes) && IsRing(h, virtual, after, nodes - {node})
    requires after != [] && before != []
    ensures OwnerEntry(before, t).1 != node ==> OwnerEntry(after, t) == OwnerEntry(before, t)
    ensures OwnerEntry(after, t).1 != node
  {
    RingIsBounded(h, virtual, before, nodes);
    RingIsBounded(h, virtual, after, nodes - {node});
    if OwnerEntry(before, t).1 != node {
      MinimalDisruption(h, virtual, after, nodes - {node}, before, nodes, t);
    }
  }
}
