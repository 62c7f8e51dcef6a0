// Ingest spread over several engines by id. The shards together hold exactly
// what one engine would hold.
module Sharding {
  import opened ByteCodec
  import opened WalCodec
  import opened Dicts
  import opened Segments
  import opened MemTables
  import opened LsmModel
  import opened LsmMaps
  import opened LsmInvariants
  import opened LsmRuns
  import LsmSearch

  type Pair = (Id, Vec)

  // ---- grouping a batch ---------------------------------------------------------------

  // `shard_groups`: items by shard, shards in order of first appearance.
  function Grouped<T>(items: seq<T>, shardOf: T -> nat): Dict<nat, seq<T>> {
    if items == [] then []
    else
      var last := items[|items| - 1];
      AddTo(Grouped(items[..|items| - 1], shardOf), shardOf(last), last)
  }

  function AddTo<T>(groups: Dict<nat, seq<T>>, s: nat, item: T): Dict<nat, seq<T>> {
    Put(groups, s, (if Has(groups, s) then Get(groups, s) else []) + [item])
  }

  // The items of one shard, in their order.
  function Share<T>(items: seq<T>, shardOf: T -> nat, s: nat): seq<T> {
    if items == [] then []
    else
      var last := items[|items| - 1];
      Share(items[..|items| - 1], shardOf, s) + if shardOf(last) == s then [last] else []
  }

  lemma {:induction false} GroupIsShare<T>(items: seq<T>, shardOf: T -> nat, s: nat)
    ensures s in ToMap(Grouped(items, shardOf)) <==> Share(items, shardOf, s) != []
    ensures s in ToMap(Grouped(items, shardOf)) ==> ToMap(Grouped(items, shardOf))[s] == Share(items, shardOf, s)
  {
    if items != [] {
      GroupIsShare(items[..|items| - 1], shardOf, s);
    }
  }

  lemma {:induction false} ShareIsShort<T>(items: seq<T>, shardOf: T -> nat, s: nat)
    ensures |Share(items, shardOf, s)| <= |items|
    ensures forall e :: e in Share(items, shardOf, s) ==> e in items && shardOf(e) == s
  {
    if items != [] {
      ShareIsShort(items[..|items| - 1], shardOf, s);
    }
  }

  lemma GroupsAreShares<T>(items: seq<T>, shardOf: T -> nat, i: nat)
    requires i < |Grouped(items, shardOf)|
    ensures var (s, g) := Grouped(items, shardOf)[i];
            g == Share(items, shardOf, s) && g != [] && exists e :: e in items && shardOf(e) == s
  {
    var (s, g) := Grouped(items, shardOf)[i];
    EntryAt(Grouped(items, shardOf), i);
    GroupIsShare(items, shardOf, s);
    ShareIsShort(items, shardOf, s);
    assert g[0] in Share(items, shardOf, s);
  }

  // The groups come in the order of their first items.
  ghost predicate FirstOfShard<T>(items: seq<T>, shardOf: T -> nat, i: nat)
    requires i < |items|
  {
    forall l :: 0 <= l < i ==> shardOf(items[l]) != shardOf(items[i])
  }

  lemma {:induction false} GroupsInOrder<T>(items: seq<T>, shardOf: T -> nat, i: nat, j: nat) returns (p: nat, q: nat)
    requires i < j < |items| && FirstOfShard(items, shardOf, i) && FirstOfShard(items, shardOf, j)
    ensures var groups := Grouped(items, shardOf);
            p < q < |groups| && groups[p].0 == shardOf(items[i]) && groups[q].0 == shardOf(items[j])
  {
    var n := |items| - 1;
    var before, s := Grouped(items[..n], shardOf), shardOf(items[n]);
    if j < n {
      p, q := GroupsInOrder(items[..n], shardOf, i, j);
      GroupStays(before, s, items[n], q);
    } else {
      p := EarlierGroup(items[..n], shardOf, i);
      q := |before|;
      NewGroupIsLast(items[..n], shardOf, items[n]);
    }
    GroupStays(before, s, items[n], p);
  }

  lemma GroupStays<T>(groups: Dict<nat, seq<T>>, s: nat, item: T, p: nat)
    requires p < |groups|
    ensures p < |AddTo(groups, s, item)| && AddTo(groups, s, item)[p].0 == groups[p].0
  {
    PutKeepsPlaces(groups, s, (if Has(groups, s) then Get(groups, s) else []) + [item]);
  }

  lemma NewGroupIsLast<T>(items: seq<T>, shardOf: T -> nat, item: T)
    requires forall l :: 0 <= l < |items| ==> shardOf(items[l]) != shardOf(item)
    ensures var groups := Grouped(items, shardOf);
            var more := AddTo(groups, shardOf(item), item);
            |more| == |groups| + 1 && more[|groups|].0 == shardOf(item)
  {
    GroupedShards(items, shardOf, shardOf(item));
    PutNewAppends(Grouped(items, shardOf), shardOf(item), [] + [item]);
  }

  lemma EarlierGroup<T>(items: seq<T>, shardOf: T -> nat, i: nat) returns (p: nat)
    requires i < |items|
    ensures p < |Grouped(items, shardOf)| && Grouped(items, shardOf)[p].0 == shardOf(items[i])
  {
    GroupedShards(items, shardOf, shardOf(items[i]));
    p := IndexFor(Grouped(items, shardOf), shardOf(items[i]));
  }

  lemma {:induction false} GroupedShards<T>(items: seq<T>, shardOf: T -> nat, s: nat)
    ensures s in ToMap(Grouped(items, shardOf)) <==> exists i :: 0 <= i < |items| && shardOf(items[i]) == s
  {
    if items != [] {
      var n := |items| - 1;
      GroupedShards(items[..n], shardOf, s);
      if i :| 0 <= i < n && shardOf(items[..n][i]) == s {
        assert shardOf(items[i]) == s;
      }
      if i :| 0 <= i < |items| && shardOf(items[i]) == s {
        assert i < n ==> shardOf(items[..n][i]) == s;
      }
    }
  }

  // `int(vec_id) % num_shards`; for a positive divisor Python's remainder is Dafny's.
  function IdShard(n: nat): Id -> nat
    requires n > 0
  {
    (x: Id) => x % n
  }

  function PairShard(n: nat): Pair -> nat
    requires n > 0
  {
    (p: Pair) => p.0 % n
  }

  function Ids(ps: seq<Pair>): (r: seq<Id>)
    ensures |r| == |ps| && forall i :: 0 <= i < |r| ==> r[i] == ps[i].0
  {
    seq(|ps|, i requires 0 <= i < |ps| => ps[i].0)
  }

  function Vectors(ps: seq<Pair>): (r: seq<Vec>)
    ensures |r| == |ps| && forall i :: 0 <= i < |r| ==> r[i] == ps[i].1
  {
    seq(|ps|, i requires 0 <= i < |ps| => ps[i].1)
  }

  lemma ZipUnzips(ps: seq<Pair>)
    ensures Zip(Ids(ps), Vectors(ps)) == ps
  {
  }

  // ---- the part of a map one shard is responsible for ----------------------------------------

  ghost function Part(m: map<Id, Vec>, n: nat, s: nat): map<Id, Vec>
    requires n > 0
  {
    map x | x in m && x % n == s :: m[x]
  }

  lemma {:induction false} WrittenPart(ps: seq<Pair>, n: nat, s: nat)
    requires n > 0
    ensures Written(Share(ps, PairShard(n), s)) == Part(Written(ps), n, s)
  {
    if ps != [] {
      var front, last := ps[..|ps| - 1], ps[|ps| - 1];
      WrittenPart(front, n, s);
      PartUpdate(Written(front), n, s, last.0, last.1);
      if last.0 % n == s {
        var share := Share(front, PairShard(n), s);
        assert (share + [last])[..|share|] == share;
      } else {
        assert Share(front, PairShard(n), s) + [] == Share(front, PairShard(n), s);
      }
    }
  }

  lemma PartUpdate(m: map<Id, Vec>, n: nat, s: nat, x: Id, v: Vec)
    requires n > 0
    ensures Part(m[x := v], n, s) == if x % n == s then Part(m, n, s)[x := v] else Part(m, n, s)
  {
  }

  lemma PartPlus(a: map<Id, Vec>, b: map<Id, Vec>, n: nat, s: nat)
    requires n > 0
    ensures Part(a + b, n, s) == Part(a, n, s) + Part(b, n, s)
  {
  }

  lemma {:induction false} ShareMembers(ids: seq<Id>, n: nat, s: nat, x: Id)
    requires n > 0
    ensures x in Share(ids, IdShard(n), s) <==> x in ids && x % n == s
  {
    if ids != [] {
      var front, last := ids[..|ids| - 1], ids[|ids| - 1];
      ShareMembers(front, n, s, x);
      assert ids == front + [last];
    }
  }

  lemma PartMinus(m: map<Id, Vec>, ids: seq<Id>, n: nat, s: nat)
    requires n > 0
    ensures Part(m - IdSet(ids), n, s) == Part(m, n, s) - IdSet(Share(ids, IdShard(n), s))
  {
    forall x: Id ensures x in IdSet(Share(ids, IdShard(n), s)) <==> x in IdSet(ids) && x % n == s {
      ShareMembers(ids, n, s, x);
    }
  }

  // ---- the pipeline's operations on the engines' states ----------------------------------------

  // Directory names a flush and a merge on a shard would draw.
  type Names = nat -> (string, string)

  function ForShard(c: Config, s: nat): Config {
    c.(shard := s)
  }

  function InsertInto(c: Config, st: Lsm, s: nat, ids: seq<Id>, vectors: seq<Vec>, names: Names): Lsm {
    Insert(ForShard(c, s), st, ids, vectors, names(s).0, names(s).1)
  }

  // Every shard writes the same tombstone file.
  function SetFile(sts: seq<Lsm>, file: set<Id>): (r: seq<Lsm>)
    ensures |r| == |sts|
    ensures forall i :: 0 <= i < |r| ==> r[i] == sts[i].(diskTombs := file)
  {
    seq(|sts|, i requires 0 <= i < |sts| => sts[i].(diskTombs := file))
  }

  // One shard has taken a step; the others see what it left in the file.
  function Update(sts: seq<Lsm>, s: nat, after: Lsm): (r: seq<Lsm>)
    requires s < |sts|
    ensures |r| == |sts|
  {
    SetFile(sts[s := after], after.diskTombs)
  }

  // The insert loop: one engine per group, stopping at the first that rejects.
  function InsertGroups(c: Config, sts: seq<Lsm>, groups: seq<(nat, seq<Pair>)>, names: Names): (r: seq<Lsm>)
    requires forall i :: 0 <= i < |groups| ==> groups[i].0 < |sts|
    ensures |r| == |sts|
    decreases |groups|
  {
    if groups == [] then sts
    else
      var (s, g) := groups[0];
      var next := Update(sts, s, InsertInto(c, sts[s], s, Ids(g), Vectors(g), names));
      if Packable(sts[s].lastLsn + 1, |g|) then InsertGroups(c, next, groups[1..], names) else next
  }

  function DeleteGroups(c: Config, sts: seq<Lsm>, groups: seq<(nat, seq<Id>)>): (r: seq<Lsm>)
    requires forall i :: 0 <= i < |groups| ==> groups[i].0 < |sts|
    ensures |r| == |sts|
    decreases |groups|
  {
    if groups == [] then sts
    else
      var (s, g) := groups[0];
      var next := Update(sts, s, Delete(ForShard(c, s), sts[s], g));
      if Packable(sts[s].lastLsn + 1, |g|) then DeleteGroups(c, next, groups[1..]) else next
  }

  lemma GroupsInRange<T>(items: seq<T>, shardOf: T -> nat, n: nat)
    requires forall e :: e in items ==> shardOf(e) < n
    ensures forall i :: 0 <= i < |Grouped(items, shardOf)| ==> Grouped(items, shardOf)[i].0 < n
  {
    forall i | 0 <= i < |Grouped(items, shardOf)| ensures Grouped(items, shardOf)[i].0 < n {
      GroupsAreShares(items, shardOf, i);
    }
  }

  function InsertAll(c: Config, sts: seq<Lsm>, ids: seq<Id>, vectors: seq<Vec>, names: Names): (r: seq<Lsm>)
    requires sts != []
    ensures |r| == |sts|
  {
    if !ShapeOk(c.dim, ids, vectors) then sts
    else if |sts| == 1 then [InsertInto(c, sts[0], 0, ids, vectors, names)]
    else
      GroupsInRange(Zip(ids, vectors), PairShard(|sts|), |sts|);
      InsertGroups(c, sts, Grouped(Zip(ids, vectors), PairShard(|sts|)), names)
  }

  function DeleteFromAll(c: Config, sts: seq<Lsm>, ids: seq<Id>): (r: seq<Lsm>)
    requires sts != []
    ensures |r| == |sts|
  {
    if |sts| == 1 then [Delete(ForShard(c, 0), sts[0], ids)]
    else
      GroupsInRange(ids, IdShard(|sts|), |sts|);
      DeleteGroups(c, sts, Grouped(ids, IdShard(|sts|)))
  }

  // ---- one operation, shard by shard ------------------------------------------------------------

  // No engine rejects its group.
  ghost predicate GroupsFit<T>(sts: seq<Lsm>, groups: seq<(nat, seq<T>)>) {
    forall i :: 0 <= i < |groups| ==> groups[i].0 < |sts| && Packable(sts[groups[i].0].lastLsn + 1, |groups[i].1|)
  }

  lemma DistinctTail<K, V>(d: Dict<K, V>, k: K)
    requires d != []
    ensures k in ToMap(d) <==> k == d[0].0 || k in ToMap(d[1..])
    ensures d[0].0 !in ToMap(d[1..])
    ensures k in ToMap(d) ==> ToMap(d)[k] == if k == d[0].0 then d[0].1 else ToMap(d[1..])[k]
  {
  }

  lemma TailFits<T>(sts: seq<Lsm>, groups: Dict<nat, seq<T>>, st: Lsm)
    requires groups != [] && GroupsFit(sts, groups)
    ensures GroupsFit(Update(sts, groups[0].0, st), groups[1..])
  {
    forall i | 0 <= i < |groups| - 1
      ensures groups[1..][i].0 < |sts|
           && Packable(Update(sts, groups[0].0, st)[groups[1..][i].0].lastLsn + 1, |groups[1..][i].1|)
    {
      DistinctAt(groups, 0, i + 1);
    }
  }

  // Equal except for what the shared file holds.
  ghost predicate SameButFile(a: Lsm, b: Lsm) {
    a.(diskTombs := b.diskTombs) == b
  }

  lemma FlushMemIgnoresFile(c: Config, a: Lsm, b: Lsm, segId: string)
    requires SameButFile(a, b)
    ensures SameButFile(FlushMem(c, a, segId), FlushMem(c, b, segId))
  {
    CaptureIgnoresFile(a, b);
    if Flushable(a) {
      WriteIgnoresFile(c, a, b, segId);
    }
  }

  lemma CaptureIgnoresFile(a: Lsm, b: Lsm)
    requires SameButFile(a, b)
    ensures SameButFile(CaptureDeletes(a), CaptureDeletes(b))
  {
  }

  lemma WriteIgnoresFile(c: Config, a: Lsm, b: Lsm, segId: string)
    requires SameButFile(a, b) && Flushable(a) && Flushable(b)
    ensures SameButFile(WriteSegment(c, a, segId), WriteSegment(c, b, segId))
  {
    CaptureIgnoresFile(a, b);
  }

  lemma MergeIgnoresFile(c: Config, a: Lsm, b: Lsm, mergedId: string)
    requires SameButFile(a, b)
    ensures SameButFile(Merge(c, a, mergedId), Merge(c, b, mergedId))
  {
  }

  lemma FlushIgnoresFile(c: Config, a: Lsm, b: Lsm, segId: string, mergedId: string)
    requires SameButFile(a, b)
    ensures SameButFile(Flush(c, a, segId, mergedId), Flush(c, b, segId, mergedId))
  {
    FlushMemIgnoresFile(c, a, b, segId);
    MergeIgnoresFile(c, FlushMem(c, a, segId), FlushMem(c, b, segId), mergedId);
  }

  lemma InsertRowsIgnoresFile(c: Config, a: Lsm, b: Lsm, ids: seq<Id>, vectors: seq<Vec>)
    requires SameButFile(a, b)
    ensures SameButFile(InsertRows(c, a, ids, vectors), InsertRows(c, b, ids, vectors))
  {
  }

  lemma InsertIgnoresFile(c: Config, a: Lsm, b: Lsm, s: nat, ids: seq<Id>, vectors: seq<Vec>, names: Names)
    requires SameButFile(a, b)
    ensures SameButFile(InsertInto(c, a, s, ids, vectors, names), InsertInto(c, b, s, ids, vectors, names))
  {
    var d := ForShard(c, s);
    InsertRowsIgnoresFile(d, a, b, ids, vectors);
    FlushIgnoresFile(d, InsertRows(d, a, ids, vectors), InsertRows(d, b, ids, vectors), names(s).0, names(s).1);
  }

  lemma DeleteIgnoresFile(c: Config, a: Lsm, b: Lsm, ids: seq<Id>)
    requires SameButFile(a, b)
    ensures SameButFile(Delete(c, a, ids), Delete(c, b, ids))
  {
  }

  // What the insert loop does to one shard, whatever it does to the others.
  function InsertTo(c: Config, st: Lsm, groups: Dict<nat, seq<Pair>>, names: Names, s: nat): Lsm {
    if Has(groups, s) then InsertInto(c, st, s, Ids(Get(groups, s)), Vectors(Get(groups, s)), names) else st
  }

  function DeleteFrom(c: Config, st: Lsm, groups: Dict<nat, seq<Id>>, s: nat): Lsm {
    if Has(groups, s) then Delete(ForShard(c, s), st, Get(groups, s)) else st
  }

  lemma InsertToIgnoresFile(c: Config, a: Lsm, b: Lsm, groups: Dict<nat, seq<Pair>>, names: Names, s: nat)
    requires SameButFile(a, b)
    ensures SameButFile(InsertTo(c, a, groups, names, s), InsertTo(c, b, groups, names, s))
  {
    if Has(groups, s) {
      InsertIgnoresFile(c, a, b, s, Ids(Get(groups, s)), Vectors(Get(groups, s)), names);
    }
  }

  lemma {:induction false} InsertGroupsAt(c: Config, sts: seq<Lsm>, groups: Dict<nat, seq<Pair>>, names: Names, s: nat)
    requires GroupsFit(sts, groups) && s < |sts|
    ensures SameButFile(InsertGroups(c, sts, groups, names)[s], InsertTo(c, sts[s], groups, names, s))
    decreases |groups|
  {
    if groups != [] {
      var (t, g) := groups[0];
      var st := InsertInto(c, sts[t], t, Ids(g), Vectors(g), names);
      var next := Update(sts, t, st);
      DistinctTail(groups, s);
      TailFits(sts, groups, st);
      InsertGroupsAt(c, next, groups[1..], names, s);
      if s != t {
        InsertToIgnoresFile(c, next[s], sts[s], groups[1..], names, s);
      }
    }
  }

  lemma {:induction false} DeleteGroupsAt(c: Config, sts: seq<Lsm>, groups: Dict<nat, seq<Id>>, s: nat)
    requires GroupsFit(sts, groups) && s < |sts|
    ensures SameButFile(DeleteGroups(c, sts, groups)[s], DeleteFrom(c, sts[s], groups, s))
    decreases |groups|
  {
    if groups != [] {
      var (t, g) := groups[0];
      var st := Delete(ForShard(c, t), sts[t], g);
      var next := Update(sts, t, st);
      DistinctTail(groups, s);
      TailFits(sts, groups, st);
      DeleteGroupsAt(c, next, groups[1..], s);
      if s != t && Has(groups[1..], s) {
        DeleteIgnoresFile(ForShard(c, s), next[s], sts[s], Get(groups[1..], s));
      }
    }
  }

  // ---- whole runs ---------------------------------------------------------------------------------

  datatype PipeOp =
    | PipeInsert(ids: seq<Id>, vectors: seq<Vec>, names: Names)
    | PipeDelete(ids: seq<Id>)

  function PipeStep(c: Config, sts: seq<Lsm>, op: PipeOp): (r: seq<Lsm>)
    requires sts != []
    ensures |r| == |sts|
  {
    match op
    case PipeInsert(ids, vectors, names) => InsertAll(c, sts, ids, vectors, names)
    case PipeDelete(ids) => DeleteFromAll(c, sts, ids)
  }

  function PipeRun(c: Config, n: nat, ops: seq<PipeOp>): (r: seq<Lsm>)
    requires n > 0
    ensures |r| == n
  {
    if ops == [] then seq(n, _ => EMPTY)
    else PipeStep(c, PipeRun(c, n, ops[..|ops| - 1]), ops[|ops| - 1])
  }

  ghost function PlainStep(c: Config, m: map<Id, Vec>, op: PipeOp): map<Id, Vec> {
    match op
    case PipeInsert(ids, vectors, _) => if ShapeOk(c.dim, ids, vectors) then m + Written(Zip(ids, vectors)) else m
    case PipeDelete(ids) => m - IdSet(ids)
  }

  // What a plain map would hold.
  ghost function PlainMap(c: Config, ops: seq<PipeOp>): map<Id, Vec> {
    if ops == [] then map[] else PlainStep(c, PlainMap(c, ops[..|ops| - 1]), ops[|ops| - 1])
  }

  // Small enough for the log's record format.
  predicate InRange(ops: seq<PipeOp>) {
    |ops| < TWO_64 && forall i :: 0 <= i < |ops| ==> |ops[i].ids| < TWO_32
  }

  // What one operation means to one shard.
  function ShardOp(n: nat, s: nat, op: PipeOp): Op
    requires n > 0
  {
    match op
    case PipeInsert(ids, vectors, names) =>
      if n == 1 then DoInsert(ids, vectors, names(s).0, names(s).1)
      else
        var share := Share(Zip(ids, vectors), PairShard(n), s);
        DoInsert(Ids(share), Vectors(share), names(s).0, names(s).1)
    case PipeDelete(ids) =>
      if n == 1 then DoDelete(ids) else DoDelete(Share(ids, IdShard(n), s))
  }

  // Shards an operation does not touch.
  predicate Idle(c: Config, n: nat, s: nat, op: PipeOp)
    requires n > 0
  {
    if op.PipeInsert? then !ShapeOk(c.dim, op.ids, op.vectors) || (n > 1 && ShardOp(n, s, op).ids == [])
    else n > 1 && ShardOp(n, s, op).ids == []
  }

  // The counters are small enough for the next operation.
  ghost predicate Room(sts: seq<Lsm>, op: PipeOp) {
    |op.ids| < TWO_32 && forall s :: 0 <= s < |sts| ==> sts[s].lastLsn + 1 < TWO_64
  }

  lemma GroupHasRoom<T>(sts: seq<Lsm>, items: seq<T>, shardOf: T -> nat, i: nat)
    requires |items| < TWO_32 && forall s :: 0 <= s < |sts| ==> sts[s].lastLsn + 1 < TWO_64
    requires i < |Grouped(items, shardOf)| && Grouped(items, shardOf)[i].0 < |sts|
    ensures var (s, g) := Grouped(items, shardOf)[i]; Packable(sts[s].lastLsn + 1, |g|)
  {
    GroupsAreShares(items, shardOf, i);
    ShareIsShort(items, shardOf, Grouped(items, shardOf)[i].0);
  }

  lemma GroupsHaveRoom<T>(sts: seq<Lsm>, items: seq<T>, shardOf: T -> nat)
    requires |items| < TWO_32 && forall s :: 0 <= s < |sts| ==> sts[s].lastLsn + 1 < TWO_64
    requires forall e :: e in items ==> shardOf(e) < |sts|
    ensures GroupsFit(sts, Grouped(items, shardOf))
  {
    GroupsInRange(items, shardOf, |sts|);
    forall i | 0 <= i < |Grouped(items, shardOf)|
      ensures Packable(sts[Grouped(items, shardOf)[i].0].lastLsn + 1, |Grouped(items, shardOf)[i].1|)
    {
      GroupHasRoom(sts, items, shardOf, i);
    }
  }

  // Shard s takes its own step; the order of the groups shows only in the shared file.
  lemma InsertShardStep(c: Config, sts: seq<Lsm>, op: PipeOp, s: nat)
    requires op.PipeInsert? && ShapeOk(c.dim, op.ids, op.vectors) && s < |sts| && |sts| > 1 && Room(sts, op)
    ensures SameButFile(PipeStep(c, sts, op)[s],
              if Idle(c, |sts|, s, op) then sts[s]
              else InsertInto(c, sts[s], s, ShardOp(|sts|, s, op).ids, ShardOp(|sts|, s, op).vectors, op.names))
  {
    var pairs, shardOf := Zip(op.ids, op.vectors), PairShard(|sts|);
    GroupsHaveRoom(sts, pairs, shardOf);
    InsertGroupsAt(c, sts, Grouped(pairs, shardOf), op.names, s);
    GroupIsShare(pairs, shardOf, s);
  }

  lemma DeleteShardStep(c: Config, sts: seq<Lsm>, op: PipeOp, s: nat)
    requires op.PipeDelete? && s < |sts| && |sts| > 1 && Room(sts, op)
    ensures SameButFile(PipeStep(c, sts, op)[s],
              if Idle(c, |sts|, s, op) then sts[s] else Delete(ForShard(c, s), sts[s], ShardOp(|sts|, s, op).ids))
  {
    GroupsHaveRoom(sts, op.ids, IdShard(|sts|));
    DeleteGroupsAt(c, sts, Grouped(op.ids, IdShard(|sts|)), s);
    GroupIsShare(op.ids, IdShard(|sts|), s);
  }

  lemma ShardShapes(c: Config, n: nat, s: nat, op: PipeOp)
    requires n > 0 && op.PipeInsert? && ShapeOk(c.dim, op.ids, op.vectors)
    ensures ShapeOk(c.dim, ShardOp(n, s, op).ids, ShardOp(n, s, op).vectors)
    ensures |ShardOp(n, s, op).ids| <= |op.ids|
  {
    if n > 1 {
      var pairs := Zip(op.ids, op.vectors);
      var share := Share(pairs, PairShard(n), s);
      ShareIsShort(pairs, PairShard(n), s);
      forall i | 0 <= i < |share| ensures |Vectors(share)[i]| == c.dim {
        assert share[i] in share;
      }
    }
  }

  // The ids an operation gives a shard are its own.
  lemma ShardIds(n: nat, s: nat, op: PipeOp)
    requires n > 0 && s < n
    ensures forall x :: x in ShardOp(n, s, op).ids ==> x % n == s
  {
    if n > 1 {
      if op.PipeInsert? {
        var share := Share(Zip(op.ids, op.vectors), PairShard(n), s);
        ShareIsShort(Zip(op.ids, op.vectors), PairShard(n), s);
        forall i | 0 <= i < |share| ensures Ids(share)[i] % n == s {
          assert share[i] in share;
        }
      } else {
        ShareIsShort(op.ids, IdShard(n), s);
      }
    }
  }

  lemma ShardStep(c: Config, sts: seq<Lsm>, op: PipeOp, s: nat)
    requires s < |sts| && Room(sts, op)
    ensures SameButFile(PipeStep(c, sts, op)[s],
              if Idle(c, |sts|, s, op) then sts[s] else Step(ForShard(c, s), sts[s], ShardOp(|sts|, s, op)))
  {
    match op
    case PipeInsert(ids, vectors, names) =>
      if ShapeOk(c.dim, ids, vectors) {
        ShardShapes(c, |sts|, s, op);
        if |sts| > 1 {
          InsertShardStep(c, sts, op, s);
        }
      }
    case PipeDelete(ids) =>
      if |sts| > 1 {
        DeleteShardStep(c, sts, op, s);
      }
  }

  // ---- the shard maps -----------------------------------------------------------------------------

  lemma OneShardHasAll(m: map<Id, Vec>)
    ensures Part(m, 1, 0) == m
  {
  }

  // A shard's part of the plain step is its own step.
  lemma PartOfStep(c: Config, n: nat, s: nat, m: map<Id, Vec>, op: PipeOp)
    requires n > 0 && s < n
    ensures Part(PlainStep(c, m, op), n, s) ==
            if Idle(c, n, s, op) then Part(m, n, s)
            else if op.PipeInsert? then
              Part(m, n, s) + Written(Zip(ShardOp(n, s, op).ids, ShardOp(n, s, op).vectors))
            else Part(m, n, s) - IdSet(ShardOp(n, s, op).ids)
  {
    if op.PipeInsert? {
      PartOfInsert(n, s, m, op);
    } else {
      PartMinus(m, op.ids, n, s);
      if n == 1 {
        OneShardHasAll(m);
        OneShardHasAll(m - IdSet(op.ids));
      }
    }
  }

  lemma PartOfInsert(n: nat, s: nat, m: map<Id, Vec>, op: PipeOp)
    requires n > 0 && s < n && op.PipeInsert?
    ensures Part(m + Written(Zip(op.ids, op.vectors)), n, s) ==
            Part(m, n, s) + Written(Zip(ShardOp(n, s, op).ids, ShardOp(n, s, op).vectors))
    ensures n > 1 && ShardOp(n, s, op).ids == [] ==>
              Part(m + Written(Zip(op.ids, op.vectors)), n, s) == Part(m, n, s)
  {
    var w := Written(Zip(op.ids, op.vectors));
    PartPlus(m, w, n, s);
    if n == 1 {
      OneShardHasAll(w);
    } else {
      var share := Share(Zip(op.ids, op.vectors), PairShard(n), s);
      WrittenPart(Zip(op.ids, op.vectors), n, s);
      ZipUnzips(share);
      if Ids(share) == [] {
        assert share == [];
        assert Part(m, n, s) + map[] == Part(m, n, s);
      }
    }
  }

  // Ids in the right shard; a stored row under a delete marker is tombstoned.
  ghost predicate Owns(a: Maps, n: nat, s: nat)
    requires n > 0
  {
    && (forall x :: x in a.entries.Keys + a.rows.Keys + a.tombs ==> x % n == s)
    && (forall x :: x in a.entries && a.entries[x].Deleted? && x in a.rows ==> x in a.tombs)
  }

  // A shard after some operations: well formed, with room, and holding its part.
  ghost predicate Holds(c: Config, n: nat, s: nat, st: Lsm, m: map<Id, Vec>, count: nat)
    requires n > 0
  {
    && Layered(ForShard(c, s), st) && Few(ForShard(c, s), st) && Untouched(st) && Owns(MapsOf(st), n, s)
    && View(st) == Part(m, n, s) && st.lastLsn <= count
  }

  lemma HoldsIgnoresFile(c: Config, n: nat, s: nat, a: Lsm, b: Lsm, m: map<Id, Vec>, count: nat)
    requires n > 0 && SameButFile(a, b) && Holds(c, n, s, b, m, count)
    ensures Holds(c, n, s, a, m, count)
  {
    SameVisible(a, b);
  }

  lemma FlushMemOwns(c: Config, st: Lsm, segId: string, n: nat, s: nat)
    requires n > 0 && Layered(c, st) && Owns(MapsOf(st), n, s)
    ensures Owns(MapsOf(FlushMem(c, st, segId)), n, s)
  {
    var a := MapsOf(st);
    if Flushable(st) {
      WriteSegmentMaps(c, st, segId);
      FlushedFields(c, st, segId);
      SegmentOwns(a, MaxLsn(st.mem), n, s);
    } else {
      ClearMaps(st);
      ClearOwns(a, n, s);
    }
  }

  lemma SegmentOwns(a: Maps, top: nat, n: nat, s: nat)
    requires n > 0 && Owns(a, n, s)
    ensures Owns(SegmentStep(a, top), n, s)
  {
    CaptureShows(a);
  }

  lemma ClearOwns(a: Maps, n: nat, s: nat)
    requires n > 0 && Owns(a, n, s)
    ensures Owns(ClearStep(a), n, s)
  {
    CaptureShows(a);
  }

  lemma MergeOwns(c: Config, st: Lsm, mergedId: string, n: nat, s: nat)
    requires n > 0 && Layered(c, st) && Owns(MapsOf(st), n, s) && st.mem == []
    ensures Owns(MapsOf(Merge(c, st, mergedId)), n, s)
  {
    if |st.segs| >= c.mergeThreshold {
      MergeMaps(c, st, mergedId);
      MergedOwns(MapsOf(st), MapsOf(MergeOldest(c, st, mergedId)), Oldest(c, st), Rest(c, st), n, s);
    }
  }

  lemma MergedOwns(a: Maps, b: Maps, oldest: map<Id, Vec>, rest: map<Id, Vec>, n: nat, s: nat)
    requires n > 0 && Owns(a, n, s) && a.entries == map[] && a.rows == oldest + rest
    requires b == MergeStep(a, oldest, rest, b.snap)
    ensures Owns(b, n, s)
  {
    assert b.entries == map[] && b.rows.Keys <= a.rows.Keys && b.tombs <= a.tombs;
  }

  lemma FlushOwns(c: Config, st: Lsm, segId: string, mergedId: string, n: nat, s: nat)
    requires n > 0 && Layered(c, st) && Owns(MapsOf(st), n, s)
    ensures Owns(MapsOf(Flush(c, st, segId, mergedId)), n, s) && Untouched(Flush(c, st, segId, mergedId))
  {
    var a := FlushMem(c, st, segId);
    FlushMemOwns(c, st, segId, n, s);
    FlushMemLayered(c, st, segId);
    FlushMemCount(c, st, segId);
    MergeOwns(c, a, mergedId, n, s);
    assert Merge(c, a, mergedId).mem == a.mem;
  }

  lemma InsertedOwns(a: Maps, w: map<Id, Vec>, lsn: nat, n: nat, s: nat)
    requires n > 0 && Owns(a, n, s) && forall x :: x in w ==> x % n == s
    requires forall x :: x in a.entries && a.entries[x].Live? ==> x !in a.tombs
    ensures var b := InsertStep(a, w, lsn);
            Owns(b, n, s) && forall x :: x in b.entries && b.entries[x].Live? ==> x !in b.tombs
  {
  }

  lemma InsertRowsHolds(c: Config, st: Lsm, ids: seq<Id>, vectors: seq<Vec>, n: nat, s: nat)
    requires n > 0 && ShapeOk(c.dim, ids, vectors) && Packable(st.lastLsn + 1, |ids|)
    requires Owns(MapsOf(st), n, s) && Untouched(st) && forall x :: x in ids ==> x % n == s
    ensures var b := InsertRows(c, st, ids, vectors); Owns(MapsOf(b), n, s) && Untouched(b) && b.segs == st.segs
  {
    InsertRowsMaps(c, st, ids, vectors);
    InsertRowsFields(c, st, ids, vectors);
    WrittenKeys(ids, vectors);
    InsertedOwns(MapsOf(st), Written(Zip(ids, vectors)), st.lastLsn + 1, n, s);
  }

  lemma InsertHolds(c: Config, st: Lsm, op: Op, n: nat, s: nat)
    requires n > 0 && op.DoInsert? && Accepted(c, op) && Packable(st.lastLsn + 1, |op.ids|) && c.mergeThreshold != 1
    requires Layered(c, st) && Few(c, st) && Owns(MapsOf(st), n, s) && Untouched(st)
    requires forall x :: x in op.ids ==> x % n == s
    ensures var b := Step(c, st, op);
            && Layered(c, b) && Few(c, b) && Owns(MapsOf(b), n, s) && Untouched(b)
            && View(b) == View(st) + Written(Zip(op.ids, op.vectors))
  {
    var a := InsertRows(c, st, op.ids, op.vectors);
    InsertRowsRefines(c, st, op.ids, op.vectors);
    InsertRowsHolds(c, st, op.ids, op.vectors, n, s);
    if ShouldFlush(c, a) {
      FlushRefinesIff(c, a, op.segId, op.mergedId);
      FlushIsFew(c, a, op.segId, op.mergedId);
      FlushOwns(c, a, op.segId, op.mergedId, n, s);
    }
  }

  lemma DeletedOwns(a: Maps, ids: set<Id>, lsn: nat, n: nat, s: nat)
    requires n > 0 && Owns(a, n, s) && forall x :: x in ids ==> x % n == s
    requires forall x :: x in a.entries && a.entries[x].Live? ==> x !in a.tombs
    ensures var b := DeleteStep(a, ids, lsn);
            Owns(b, n, s) && forall x :: x in b.entries && b.entries[x].Live? ==> x !in b.tombs
  {
  }

  lemma DeleteHolds(c: Config, st: Lsm, ids: seq<Id>, n: nat, s: nat)
    requires n > 0 && Packable(st.lastLsn + 1, |ids|)
    requires Layered(c, st) && Few(c, st) && Owns(MapsOf(st), n, s) && Untouched(st)
    requires forall x :: x in ids ==> x % n == s
    ensures var b := Delete(c, st, ids);
            && Layered(c, b) && Few(c, b) && Owns(MapsOf(b), n, s) && Untouched(b) && View(b) == View(st) - IdSet(ids)
  {
    DeleteRefines(c, st, ids);
    DeleteMaps(c, st, ids);
    DeleteFields(c, st, ids);
    DeletedOwns(MapsOf(st), IdSet(ids), st.lastLsn + 1, n, s);
  }

  lemma ShardHoldsOn(c: Config, n: nat, s: nat, st: Lsm, m: map<Id, Vec>, op: PipeOp, count: nat)
    requires n > 0 && s < n && c.mergeThreshold != 1 && Holds(c, n, s, st, m, count)
    requires !Idle(c, n, s, op) && |op.ids| < TWO_32 && count + 1 < TWO_64
    ensures Holds(c, n, s, Step(ForShard(c, s), st, ShardOp(n, s, op)), PlainStep(c, m, op), count + 1)
  {
    var d, o := ForShard(c, s), ShardOp(n, s, op);
    ShardIds(n, s, op);
    StepCounter(d, st, o);
    PartOfStep(c, n, s, m, op);
    if op.PipeInsert? {
      ShardShapes(c, n, s, op);
      InsertHolds(d, st, o, n, s);
    } else {
      if n > 1 {
        ShareIsShort(op.ids, IdShard(n), s);
      }
      DeleteHolds(d, st, o.ids, n, s);
    }
  }

  // For any number of shards and any batches, with duplicate or negative ids,
  // every shard holds exactly its part of the plain map.
  lemma {:induction false} ShardsHoldParts(c: Config, n: nat, ops: seq<PipeOp>, s: nat)
    requires n > 0 && s < n && c.mergeThreshold != 1 && InRange(ops)
    ensures Holds(c, n, s, PipeRun(c, n, ops)[s], PlainMap(c, ops), |ops|)
    decreases |ops|
  {
    if ops == [] {
      EmptyIsGood(ForShard(c, s));
    } else {
      var front, op := ops[..|ops| - 1], ops[|ops| - 1];
      var sts := PipeRun(c, n, front);
      forall t | 0 <= t < n ensures sts[t].lastLsn + 1 < TWO_64 {
        ShardsHoldParts(c, n, front, t);
      }
      ShardsHoldParts(c, n, front, s);
      ShardStep(c, sts, op, s);
      var st := if Idle(c, n, s, op) then sts[s] else Step(ForShard(c, s), sts[s], ShardOp(n, s, op));
      if Idle(c, n, s, op) {
        PartOfStep(c, n, s, PlainMap(c, front), op);
      } else {
        ShardHoldsOn(c, n, s, sts[s], PlainMap(c, front), op, |front|);
      }
      HoldsIgnoresFile(c, n, s, PipeStep(c, sts, op)[s], st, PlainMap(c, ops), |ops|);
    }
  }

  // ---- the shared tombstone file ------------------------------------------------------------------

  // A step leaves in the file its own tombstones, or neither changed.
  ghost predicate Wrote(a: Lsm, b: Lsm) {
    b.diskTombs == b.tombs || (b.diskTombs == a.diskTombs && b.tombs == a.tombs)
  }

  // The file holds the tombstones of one shard and of no other.
  ghost predicate OneWriter(sts: seq<Lsm>, w: nat) {
    w < |sts| && forall i :: 0 <= i < |sts| ==> sts[i].diskTombs == sts[w].tombs
  }

  lemma FlushWrote(c: Config, st: Lsm, segId: string, mergedId: string)
    ensures Wrote(st, Flush(c, st, segId, mergedId))
  {
    var a := FlushMem(c, st, segId);
    FlushMemWrote(c, st, segId);
    assert Wrote(a, Merge(c, a, mergedId));
  }

  lemma FlushMemWrote(c: Config, st: Lsm, segId: string)
    ensures Wrote(st, FlushMem(c, st, segId))
  {
    if Flushable(st) {
      FlushedFields(c, st, segId);
    }
  }

  lemma InsertWrote(c: Config, st: Lsm, s: nat, ids: seq<Id>, vectors: seq<Vec>, names: Names)
    ensures Wrote(st, InsertInto(c, st, s, ids, vectors, names))
  {
    var d := ForShard(c, s);
    InsertRowsWrote(d, st, ids, vectors);
    FlushWrote(d, InsertRows(d, st, ids, vectors), names(s).0, names(s).1);
  }

  lemma InsertRowsWrote(c: Config, st: Lsm, ids: seq<Id>, vectors: seq<Vec>)
    ensures Wrote(st, InsertRows(c, st, ids, vectors))
  {
    NothingRemoved(st.tombs, IdSet(ids));
    assert st.tombs - st.tombs * IdSet(ids) == st.tombs - IdSet(ids);
  }

  lemma UpdateOneWriter(sts: seq<Lsm>, w: nat, s: nat, after: Lsm) returns (v: nat)
    requires OneWriter(sts, w) && s < |sts| && Wrote(sts[s], after)
    ensures OneWriter(Update(sts, s, after), v)
  {
    v := if after.diskTombs == after.tombs then s else w;
  }

  lemma {:induction false} InsertGroupsOneWriter(c: Config, sts: seq<Lsm>, groups: seq<(nat, seq<Pair>)>, names: Names,
      w: nat)
    returns (v: nat)
    requires OneWriter(sts, w) && forall i :: 0 <= i < |groups| ==> groups[i].0 < |sts|
    ensures OneWriter(InsertGroups(c, sts, groups, names), v)
    decreases |groups|
  {
    if groups == [] {
      v := w;
    } else {
      var (s, g) := groups[0];
      InsertWrote(c, sts[s], s, Ids(g), Vectors(g), names);
      var after := InsertInto(c, sts[s], s, Ids(g), Vectors(g), names);
      v := UpdateOneWriter(sts, w, s, after);
      if Packable(sts[s].lastLsn + 1, |g|) {
        v := InsertGroupsOneWriter(c, Update(sts, s, after), groups[1..], names, v);
      }
    }
  }

  lemma {:induction false} DeleteGroupsOneWriter(c: Config, sts: seq<Lsm>, groups: seq<(nat, seq<Id>)>, w: nat)
    returns (v: nat)
    requires OneWriter(sts, w) && forall i :: 0 <= i < |groups| ==> groups[i].0 < |sts|
    ensures OneWriter(DeleteGroups(c, sts, groups), v)
    decreases |groups|
  {
    if groups == [] {
      v := w;
    } else {
      var (s, g) := groups[0];
      var after := Delete(ForShard(c, s), sts[s], g);
      v := UpdateOneWriter(sts, w, s, after);
      if Packable(sts[s].lastLsn + 1, |g|) {
        v := DeleteGroupsOneWriter(c, Update(sts, s, after), groups[1..], v);
      }
    }
  }

  lemma StepOneWriter(c: Config, sts: seq<Lsm>, op: PipeOp, w: nat) returns (v: nat)
    requires OneWriter(sts, w)
    ensures OneWriter(PipeStep(c, sts, op), v)
  {
    v := w;
    match op
    case PipeInsert(ids, vectors, names) =>
      if ShapeOk(c.dim, ids, vectors) {
        if |sts| == 1 {
          InsertWrote(c, sts[0], 0, ids, vectors, names);
        } else {
          GroupsInRange(Zip(ids, vectors), PairShard(|sts|), |sts|);
          v := InsertGroupsOneWriter(c, sts, Grouped(Zip(ids, vectors), PairShard(|sts|)), names, w);
        }
      }
    case PipeDelete(ids) =>
      if |sts| > 1 {
        GroupsInRange(ids, IdShard(|sts|), |sts|);
        v := DeleteGroupsOneWriter(c, sts, Grouped(ids, IdShard(|sts|)), w);
      }
  }

  // After every run all shards see one file, and it holds one shard's tombstones alone.
  lemma {:induction false} FileHasOneWriter(c: Config, n: nat, ops: seq<PipeOp>) returns (w: nat)
    requires n > 0
    ensures OneWriter(PipeRun(c, n, ops), w)
  {
    if ops == [] {
      w := 0;
    } else {
      w := FileHasOneWriter(c, n, ops[..|ops| - 1]);
      w := StepOneWriter(c, PipeRun(c, n, ops[..|ops| - 1]), ops[|ops| - 1], w);
    }
  }

  // What the file says about a shard's stored rows, the shard's own tombstones say too.
  lemma FileSaysNoMore(c: Config, n: nat, ops: seq<PipeOp>, s: nat)
    requires n > 0 && s < n && c.mergeThreshold != 1 && InRange(ops)
    ensures var st := PipeRun(c, n, ops)[s];
            st.diskTombs * Stored(st.segs).Keys <= st.tombs
  {
    var sts := PipeRun(c, n, ops);
    var w := FileHasOneWriter(c, n, ops);
    ShardsHoldParts(c, n, ops, s);
    ShardsHoldParts(c, n, ops, w);
    forall x | x in sts[s].diskTombs * Stored(sts[s].segs).Keys ensures x in sts[s].tombs {
      assert x % n == s && x in sts[w].tombs && x % n == w;
    }
  }

  // ---- the shards together ------------------------------------------------------------------------

  // The union of the shards' maps. They are disjoint: shard s holds only ids
  // with remainder s.
  ghost function Together(sts: seq<Lsm>): map<Id, Vec> {
    if sts == [] then map[] else Together(sts[..|sts| - 1]) + View(sts[|sts| - 1])
  }

  // `segments`: every engine's list, one after the other.
  function AllSegments(sts: seq<Lsm>): seq<Segment> {
    if sts == [] then [] else AllSegments(sts[..|sts| - 1]) + sts[|sts| - 1].segs
  }

  lemma {:induction false} AllSegmentsMembers(sts: seq<Lsm>, g: Segment)
    ensures g in AllSegments(sts) <==> exists s :: 0 <= s < |sts| && g in sts[s].segs
  {
    if sts != [] {
      AllSegmentsMembers(sts[..|sts| - 1], g);
    }
  }

  lemma {:induction false} ShardSlice(sts: seq<Lsm>, s: nat) returns (lo: nat)
    requires s < |sts|
    ensures lo + |sts[s].segs| <= |AllSegments(sts)|
    ensures AllSegments(sts)[lo..lo + |sts[s].segs|] == sts[s].segs
  {
    var n := |sts| - 1;
    var front := AllSegments(sts[..n]);
    if s < n {
      lo := ShardSlice(sts[..n], s);
      assert AllSegments(sts)[lo..lo + |sts[s].segs|] == front[lo..lo + |sts[s].segs|];
    } else {
      lo := |front|;
    }
  }

  // The `ntotal` of `health`.
  ghost function TotalCount(sts: seq<Lsm>): nat {
    if sts == [] then 0 else TotalCount(sts[..|sts| - 1]) + Ntotal(sts[|sts| - 1])
  }

  // The ids with remainder below k.
  ghost function Below(m: map<Id, Vec>, n: nat, k: nat): map<Id, Vec>
    requires n > 0
  {
    map x | x in m && x % n < k :: m[x]
  }

  lemma BelowSplits(m: map<Id, Vec>, n: nat, k: nat)
    requires n > 0 && k > 0
    ensures Below(m, n, k) == Below(m, n, k - 1) + Part(m, n, k - 1)
    ensures |Below(m, n, k)| == |Below(m, n, k - 1)| + |Part(m, n, k - 1)|
  {
    var a, b := Below(m, n, k - 1), Part(m, n, k - 1);
    assert Below(m, n, k) == a + b;
    assert (a + b).Keys == a.Keys + b.Keys && a.Keys !! b.Keys;
    SizeOfKeys(a);
    SizeOfKeys(b);
    SizeOfKeys(a + b);
  }

  lemma SizeOfKeys<K, V>(m: map<K, V>)
    ensures |m| == |m.Keys|
  {
  }

  lemma {:induction false} TogetherIs(sts: seq<Lsm>, m: map<Id, Vec>, n: nat)
    requires n > 0 && forall s :: 0 <= s < |sts| ==> View(sts[s]) == Part(m, n, s)
    ensures Together(sts) == Below(m, n, |sts|)
    ensures TotalCount(sts) == |Below(m, n, |sts|)|
    decreases |sts|
  {
    if sts == [] {
      assert Below(m, n, 0) == map[];
    } else {
      var k := |sts| - 1;
      TogetherIs(sts[..k], m, n);
      BelowSplits(m, n, k + 1);
      LsmSearch.NtotalIsSize(sts[k]);
    }
  }

  // Disjoint maps keep their own ids in the union.
  lemma {:induction false} TogetherAt(sts: seq<Lsm>, x: Id, s: nat)
    requires forall t :: 0 <= t < |sts| && x in View(sts[t]) ==> t == s
    ensures x in Together(sts) <==> s < |sts| && x in View(sts[s])
    ensures x in Together(sts) ==> Together(sts)[x] == View(sts[s])[x]
    decreases |sts|
  {
    if sts != [] {
      TogetherAt(sts[..|sts| - 1], x, s);
    }
  }

  lemma TogetherPart(sts: seq<Lsm>, n: nat, s: nat)
    requires n > 0 && s < |sts| && forall t, y :: 0 <= t < |sts| && y in View(sts[t]) ==> y % n == t
    ensures Part(Together(sts), n, s) == View(sts[s])
  {
    forall x: Id ensures x in Part(Together(sts), n, s) <==> x in View(sts[s])
                 ensures x in View(sts[s]) ==> Together(sts)[x] == View(sts[s])[x] {
      TogetherAt(sts, x, x % n);
    }
  }

  // Sharding refines one plain map: the disjoint union of the shards' maps is
  // that map, and the summed counts are its size.
  lemma ShardsRefineMap(c: Config, n: nat, ops: seq<PipeOp>)
    requires n > 0 && c.mergeThreshold != 1 && InRange(ops)
    ensures Together(PipeRun(c, n, ops)) == PlainMap(c, ops)
    ensures TotalCount(PipeRun(c, n, ops)) == |PlainMap(c, ops)|
    ensures forall s, x :: 0 <= s < n && x in View(PipeRun(c, n, ops)[s]) ==> x % n == s
  {
    var m, sts := PlainMap(c, ops), PipeRun(c, n, ops);
    forall s | 0 <= s < n ensures View(sts[s]) == Part(m, n, s) {
      ShardsHoldParts(c, n, ops, s);
    }
    TogetherIs(sts, m, n);
    AllBelow(m, n);
  }

  lemma AllBelow(m: map<Id, Vec>, n: nat)
    requires n > 0
    ensures Below(m, n, n) == m
  {
  }

  // Any number of shards answers like a single engine.
  lemma ShardsRefineOneEngine(c: Config, n: nat, ops: seq<PipeOp>)
    requires n > 0 && c.mergeThreshold != 1 && InRange(ops)
    ensures Together(PipeRun(c, n, ops)) == View(PipeRun(c, 1, ops)[0])
    ensures TotalCount(PipeRun(c, n, ops)) == Ntotal(PipeRun(c, 1, ops)[0])
  {
    ShardsRefineMap(c, n, ops);
    ShardsHoldParts(c, 1, ops, 0);
    OneShardHasAll(PlainMap(c, ops));
    LsmSearch.NtotalIsSize(PipeRun(c, 1, ops)[0]);
  }
}
