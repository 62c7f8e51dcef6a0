// The coordinator's segment registry and the writer's reconciliation with it.
module Registry {
  import opened Dicts
  import opened Segments
  import opened SegmentCaches
  import LsmModel

  function MetaOf(g: Segment): Meta {
    Meta(g.id, g.shard, g.snap)
  }

  function Values(d: seq<(string, Meta)>): (ms: seq<Meta>)
    ensures |ms| == |d|
    ensures forall i :: 0 <= i < |ms| ==> ms[i] == d[i].1
  {
    seq(|d|, i requires 0 <= i < |d| => d[i].1)
  }

  function MaxMetaSnap(metas: seq<Meta>): nat {
    if metas == [] then 0
    else
      var m, last := MaxMetaSnap(metas[..|metas| - 1]), metas[|metas| - 1].snap;
      if m < last then last else m
  }

  lemma {:induction false} ListedAtMost(metas: seq<Meta>, bound: nat)
    requires forall i :: 0 <= i < |metas| ==> metas[i].snap <= bound
    ensures MaxMetaSnap(metas) <= bound
  {
    if metas != [] {
      ListedAtMost(metas[..|metas| - 1], bound);
    }
  }

  lemma ListedSnapsAreRegistered(entries: Dict<string, Meta>, ever: set<Meta>, bound: nat)
    requires forall k :: k in ToMap(entries) ==> ToMap(entries)[k] in ever
    requires forall m :: m in ever ==> m.snap <= bound
    ensures MaxMetaSnap(Values(entries)) <= bound
  {
    forall i | 0 <= i < |entries| ensures Values(entries)[i].snap <= bound {
      EntryAt(entries, i);
    }
    ListedAtMost(Values(entries), bound);
  }

  // The leader's view of the metadata store.
  class Coordinator {
    var entries: Dict<string, Meta>
    var current: nat                      // the stored current snapshot, 0 when absent
    ghost var ever: set<Meta>             // every registration made so far

    ghost predicate Valid()
      reads this
    {
      && (forall k :: k in ToMap(entries) ==> ToMap(entries)[k].id == k && ToMap(entries)[k] in ever)
      && (forall m :: m in ever ==> m.snap <= current)
      && (current > 0 ==> exists m :: m in ever && m.snap == current)
    }

    constructor ()
      ensures Valid() && entries == [] && current == 0 && ever == {}
    {
      entries, current, ever := [], 0, {};
    }

    method RegisterSegment(m: Meta) returns (snapshot: nat)
      requires Valid()
      modifies this
      ensures Valid() && ToMap(entries) == ToMap(old(entries))[m.id := m]
      ensures ever == old(ever) + {m} && snapshot == current
      ensures current == if old(current) < m.snap then m.snap else old(current)
    {
      entries := Put(entries, m.id, m);
      current := if current < m.snap then m.snap else current;
      ever := ever + {m};
      snapshot := current;
    }

    method DeleteSegment(id: string)
      requires Valid()
      modifies this
      ensures Valid() && ToMap(entries) == ToMap(old(entries)) - {id}
      ensures current == old(current) && ever == old(ever)
    {
      entries := Remove(entries, id);
    }

    function GetAllSegments(): seq<Meta>
      reads this
    {
      Values(entries)
    }

    // `_current_snapshot_id`: the stored value, or the newest registered segment. It
    // is the largest snapshot ever registered, deleted segments included.
    method CurrentSnapshotId() returns (snapshot: nat)
      requires Valid()
      ensures snapshot == current
      ensures forall m :: m in ever ==> m.snap <= snapshot
      ensures snapshot > 0 ==> exists m :: m in ever && m.snap == snapshot
    {
      if current > 0 {
        return current;
      }
      ListedSnapsAreRegistered(entries, ever, current);
      return MaxMetaSnap(GetAllSegments());
    }
  }

  // ---- reconciliation --------------------------------------------------------------------

  ghost predicate DistinctSegIds(segs: seq<Segment>) {
    forall i, j :: 0 <= i < j < |segs| ==> segs[i].id != segs[j].id
  }

  function LocalPairs(segs: seq<Segment>): (ps: seq<(string, Meta)>)
    ensures |ps| == |segs|
    ensures forall i :: 0 <= i < |ps| ==> ps[i] == (segs[i].id, MetaOf(segs[i]))
  {
    seq(|segs|, i requires 0 <= i < |segs| => (segs[i].id, MetaOf(segs[i])))
  }

  // The registry this writer's segments call for.
  ghost function LocalEntries(segs: seq<Segment>): map<string, Meta> {
    ToMap(LocalPairs(segs))
  }

  // The part of a registry that belongs to shards 0 .. n-1.
  ghost function OfShards(m: map<string, Meta>, n: nat): map<string, Meta> {
    map k | k in m && m[k].shard < n :: m[k]
  }

  // The writer skips ids it believes registered; each such local segment really
  // is in the registry, under its own meta.
  ghost predicate Tracked(m: map<string, Meta>, registered: set<string>, segs: seq<Segment>) {
    forall i :: 0 <= i < |segs| && segs[i].id in registered ==>
      segs[i].id in m && m[segs[i].id] == MetaOf(segs[i])
  }

  lemma PairsAreDistinct(segs: seq<Segment>)
    requires DistinctSegIds(segs)
    ensures DistinctKeys(LocalPairs(segs))
  {
    DistinctFromIndices(LocalPairs(segs));
  }

  lemma LocalEntryAt(segs: seq<Segment>, i: nat)
    requires DistinctSegIds(segs) && i < |segs|
    ensures segs[i].id in LocalEntries(segs) && LocalEntries(segs)[segs[i].id] == MetaOf(segs[i])
  {
    PairsAreDistinct(segs);
    EntryAt(LocalPairs(segs), i);
  }

  lemma LocalEntryFor(segs: seq<Segment>, k: string) returns (i: nat)
    requires DistinctSegIds(segs) && k in LocalEntries(segs)
    ensures i < |segs| && segs[i].id == k && LocalEntries(segs)[k] == MetaOf(segs[i])
  {
    PairsAreDistinct(segs);
    i := IndexFor(LocalPairs(segs), k);
  }

  lemma LocalSnoc(segs: seq<Segment>, i: nat)
    requires DistinctSegIds(segs) && i < |segs|
    ensures segs[i].id !in LocalEntries(segs[..i])
    ensures LocalEntries(segs[..i + 1]) == LocalEntries(segs[..i])[segs[i].id := MetaOf(segs[i])]
  {
    if segs[i].id in LocalEntries(segs[..i]) {
      var j := LocalEntryFor(segs[..i], segs[i].id);
      assert false;
    }
    LsmModel.SnocDict(LocalPairs(segs[..i]), segs[i].id, MetaOf(segs[i]));
    assert LocalPairs(segs[..i + 1]) == LocalPairs(segs[..i]) + [(segs[i].id, MetaOf(segs[i]))];
  }

  ghost function IdsOf(segs: seq<Segment>): set<string> {
    set g | g in segs :: g.id
  }

  lemma IdsOfSnoc(segs: seq<Segment>, i: nat)
    requires i < |segs|
    ensures IdsOf(segs[..i + 1]) == IdsOf(segs[..i]) + {segs[i].id}
  {
    assert segs[..i + 1] == segs[..i] + [segs[i]];
  }

  lemma IdsOfIsKeys(segs: seq<Segment>)
    requires DistinctSegIds(segs)
    ensures IdsOf(segs) == LocalEntries(segs).Keys
  {
    forall k | k in LocalEntries(segs) ensures k in IdsOf(segs) {
      var i := LocalEntryFor(segs, k);
      assert segs[i] in segs;
    }
    forall k | k in IdsOf(segs) ensures k in LocalEntries(segs) {
      var g :| g in segs && g.id == k;
      var i :| 0 <= i < |segs| && segs[i] == g;
      LocalEntryAt(segs, i);
    }
  }

  class Registrar {
    const numShards: nat
    const coordinator: Coordinator
    var registered: set<string>

    constructor (numShards: nat, coordinator: Coordinator)
      ensures this.numShards == numShards && this.coordinator == coordinator && registered == {}
    {
      this.numShards, this.coordinator, registered := numShards, coordinator, {};
    }

    ghost predicate Ready(segs: seq<Segment>)
      reads this, coordinator
    {
      && coordinator.Valid() && DistinctSegIds(segs)
      && forall i :: 0 <= i < |segs| ==> segs[i].shard < numShards
    }

    // `_load_registered_segments`: what the registry lists, or nothing if it cannot be reached.
    method LoadRegistered(reachable: bool)
      modifies this
      ensures registered == if reachable then ToMap(coordinator.entries).Keys else {}
    {
      registered := {};
      if reachable {
        var entries := coordinator.entries;
        for i := 0 to |entries|
          invariant registered == KeySet(entries[..i])
        {
          assert entries[..i + 1][..i] == entries[..i];
          registered := registered + {entries[i].0};
        }
        assert entries[..|entries|] == entries;
        KeySetIs(entries);
      }
    }

    // `register_unregistered_segments`: stale entries of this writer's shards go, local
    // segments not believed registered are added. That makes the registry's part for
    // these shards the local segments exactly when the bookkeeping was right about it.
    method Reconcile(segs: seq<Segment>)
      requires Ready(segs)
      modifies this, coordinator
      ensures Ready(segs)
      ensures ToMap(coordinator.entries) ==
              Reconciliation(ToMap(old(coordinator.entries)), old(registered), numShards, segs)
      ensures OfShards(ToMap(coordinator.entries), numShards) == LocalEntries(segs) <==>
              Tracked(ToMap(old(coordinator.entries)), old(registered), segs)
      ensures Tracked(ToMap(coordinator.entries), registered, segs) <==>
              Tracked(ToMap(old(coordinator.entries)), old(registered), segs)
      ensures registered ==
              (old(registered) - StaleIds(old(coordinator.GetAllSegments()), numShards, IdsOf(segs))) + IdsOf(segs)
      ensures coordinator.current >= old(coordinator.current) && coordinator.ever >= old(coordinator.ever)
    {
      ghost var before, was := ToMap(coordinator.entries), registered;
      var localIds := set g | g in segs :: g.id;
      assert localIds == IdsOf(segs);
      DropStale(localIds);
      RegisterNew(segs);
      LocalAreNotStale(old(coordinator.GetAllSegments()), numShards, segs, was);
      ReconciledIff(before, was, numShards, segs);
      StillTrackedIff(before, was, numShards, segs, registered);
    }

    method DropStale(localIds: set<string>)
      requires coordinator.Valid()
      modifies this, coordinator
      ensures coordinator.Valid()
      ensures registered == old(registered) - StaleIds(old(coordinator.GetAllSegments()), numShards, localIds)
      ensures ToMap(coordinator.entries) == Fresh(ToMap(old(coordinator.entries)), numShards, localIds)
      ensures coordinator.current == old(coordinator.current) && coordinator.ever == old(coordinator.ever)
    {
      var remote := coordinator.GetAllSegments();
      ghost var entries := coordinator.entries;
      for i := 0 to |remote|
        invariant coordinator.Valid()
        invariant registered == old(registered) - StaleIds(remote[..i], numShards, localIds)
        invariant ToMap(coordinator.entries) == ToMap(entries) - StaleIds(remote[..i], numShards, localIds)
        invariant coordinator.current == old(coordinator.current) && coordinator.ever == old(coordinator.ever)
      {
        assert remote[..i + 1][..i] == remote[..i];
        if remote[i].shard < numShards && remote[i].id !in localIds {
          MinusMinus(ToMap(entries), StaleIds(remote[..i], numShards, localIds), remote[i].id);
          coordinator.DeleteSegment(remote[i].id);
          registered := registered - {remote[i].id};
        }
      }
      assert remote[..|remote|] == remote;
      StaleIsNotFresh(entries, numShards, localIds);
    }

    method RegisterNew(segs: seq<Segment>)
      requires coordinator.Valid() && DistinctSegIds(segs)
      modifies this, coordinator
      ensures coordinator.Valid() && registered == old(registered) + IdsOf(segs)
      ensures ToMap(coordinator.entries) == ToMap(old(coordinator.entries)) + (LocalEntries(segs) - old(registered))
      ensures coordinator.current >= old(coordinator.current) && coordinator.ever >= old(coordinator.ever)
    {
      ghost var before, was := ToMap(coordinator.entries), registered;
      for i := 0 to |segs|
        invariant coordinator.Valid()
        invariant ToMap(coordinator.entries) == before + (LocalEntries(segs[..i]) - was)
        invariant registered == was + IdsOf(segs[..i])
        invariant coordinator.current >= old(coordinator.current) && coordinator.ever >= old(coordinator.ever)
      {
        var g := segs[i];
        LocalSnoc(segs, i);
        IdsOfSnoc(segs, i);
        NotYetSeen(segs, i);
        PlusPut(before, LocalEntries(segs[..i]), was, g.id, MetaOf(g));
        RegisterOne(g);
      }
      assert segs[..|segs|] == segs;
    }

    // One turn of that loop: a segment believed registered is skipped.
    method RegisterOne(g: Segment)
      requires coordinator.Valid()
      modifies this, coordinator
      ensures coordinator.Valid() && registered == old(registered) + {g.id}
      ensures ToMap(coordinator.entries) ==
              if g.id in old(registered) then ToMap(old(coordinator.entries))
              else ToMap(old(coordinator.entries))[g.id := MetaOf(g)]
      ensures coordinator.current >= old(coordinator.current) && coordinator.ever >= old(coordinator.ever)
    {
      if g.id !in registered {
        var snapshot := coordinator.RegisterSegment(MetaOf(g));
        registered := registered + {g.id};
      }
    }
  }

  lemma NotYetSeen(segs: seq<Segment>, i: nat)
    requires DistinctSegIds(segs) && i < |segs|
    ensures segs[i].id !in IdsOf(segs[..i])
  {
    assert forall j :: 0 <= j < i ==> segs[..i][j] == segs[j];
  }

  lemma PlusPut<K, V>(a: map<K, V>, b: map<K, V>, skip: set<K>, k: K, v: V)
    ensures a + (b[k := v] - skip) == if k in skip then a + (b - skip) else (a + (b - skip))[k := v]
  {
    if k in skip {
      assert b[k := v] - skip == b - skip;
    } else {
      assert b[k := v] - skip == (b - skip)[k := v];
    }
  }

  lemma MinusMinus<K, V>(a: map<K, V>, b: set<K>, k: K)
    ensures a - (b + {k}) == (a - b) - {k}
  {
  }

  // No local id is stale.
  lemma LocalAreNotStale(metas: seq<Meta>, n: nat, segs: seq<Segment>, registered: set<string>)
    requires DistinctSegIds(segs)
    ensures var kept := registered - StaleIds(metas, n, IdsOf(segs));
            LocalEntries(segs) - kept == LocalEntries(segs) - registered
  {
    IdsOfIsKeys(segs);
    forall k | k in LocalEntries(segs) ensures k !in StaleIds(metas, n, IdsOf(segs)) {
      StaleMembers(metas, n, IdsOf(segs), k);
    }
  }

  lemma AllTracked(m: map<string, Meta>, registered: set<string>, segs: seq<Segment>)
    requires DistinctSegIds(segs)
    ensures Tracked(m, registered, segs) <==>
            forall k :: k in LocalEntries(segs) && k in registered ==> k in m && m[k] == LocalEntries(segs)[k]
  {
    forall i | 0 <= i < |segs|
      ensures segs[i].id in LocalEntries(segs) && LocalEntries(segs)[segs[i].id] == MetaOf(segs[i])
    {
      LocalEntryAt(segs, i);
    }
    forall k | k in LocalEntries(segs)
      ensures exists i :: 0 <= i < |segs| && segs[i].id == k && LocalEntries(segs)[k] == MetaOf(segs[i])
    {
      var i := LocalEntryFor(segs, k);
    }
  }

  // The registry after a reconcile, given what it and the bookkeeping said before.
  ghost function Reconciliation(before: map<string, Meta>, registered: set<string>, n: nat, segs: seq<Segment>)
    : map<string, Meta>
  {
    Fresh(before, n, IdsOf(segs)) + (LocalEntries(segs) - registered)
  }

  lemma LocalShards(segs: seq<Segment>, n: nat)
    requires DistinctSegIds(segs) && forall i :: 0 <= i < |segs| ==> segs[i].shard < n
    ensures forall k :: k in LocalEntries(segs) ==> LocalEntries(segs)[k].shard < n
  {
    forall k | k in LocalEntries(segs) ensures LocalEntries(segs)[k].shard < n {
      var i := LocalEntryFor(segs, k);
    }
  }

  lemma ReconciledIff(before: map<string, Meta>, registered: set<string>, n: nat, segs: seq<Segment>)
    requires DistinctSegIds(segs) && forall i :: 0 <= i < |segs| ==> segs[i].shard < n
    ensures OfShards(Reconciliation(before, registered, n, segs), n) == LocalEntries(segs) <==>
            Tracked(before, registered, segs)
  {
    var after, local := Reconciliation(before, registered, n, segs), LocalEntries(segs);
    IdsOfIsKeys(segs);
    LocalShards(segs, n);
    AllTracked(before, registered, segs);
    if Tracked(before, registered, segs) {
      forall k ensures k in OfShards(after, n) <==> k in local
               ensures k in local ==> after[k] == local[k] {
      }
    }
    if OfShards(after, n) == local {
      forall k | k in local && k in registered ensures k in before && before[k] == local[k] {
        assert k in OfShards(after, n);
      }
    }
  }

  // A local segment that the bookkeeping lists and the registry has lost stays lost:
  // reconciling neither registers it nor forgets that it was registered.
  lemma StillTrackedIff(before: map<string, Meta>, registered: set<string>, n: nat, segs: seq<Segment>,
      now: set<string>)
    requires DistinctSegIds(segs) && IdsOf(segs) <= now
    ensures Tracked(Reconciliation(before, registered, n, segs), now, segs) <==> Tracked(before, registered, segs)
  {
    var after, local := Reconciliation(before, registered, n, segs), LocalEntries(segs);
    IdsOfIsKeys(segs);
    AllTracked(before, registered, segs);
    AllTracked(after, now, segs);
    forall k | k in local
      ensures (k in after && after[k] == local[k]) <==> (k in registered ==> k in before && before[k] == local[k])
    {
    }
  }

  // The smallest case: the registry has lost the one segment that the writer believes
  // registered, and however often the writer reconciles it stays empty.
  lemma LostStaysLost(g: Segment, n: nat)
    ensures var segs, believed := [g], {g.id};
            && !Tracked(map[], believed, segs) && g.id in LocalEntries(segs)
            && Reconciliation(map[], believed, n, segs) == map[]
            && (believed - StaleIds([], n, IdsOf(segs))) + IdsOf(segs) == believed
  {
    LocalEntryAt([g], 0);
    IdsOfIsKeys([g]);
    assert IdsOf([g]) == {g.id};
    assert Fresh(map[], n, {g.id}) == map[];
  }

  // A writer that has just read the registry, or could not reach it, tracks its segments
  // exactly when the entries listed under their ids are theirs.
  lemma LoadedIsTrackedIff(m: map<string, Meta>, reachable: bool, segs: seq<Segment>)
    requires DistinctSegIds(segs)
    ensures Tracked(m, if reachable then m.Keys else {}, segs) <==>
            (reachable ==> forall k :: k in LocalEntries(segs) && k in m ==> m[k] == LocalEntries(segs)[k])
  {
    AllTracked(m, if reachable then m.Keys else {}, segs);
  }

  ghost function Fresh(m: map<string, Meta>, n: nat, localIds: set<string>): map<string, Meta> {
    map k | k in m && (m[k].shard >= n || k in localIds) :: m[k]
  }

  ghost function StaleIds(metas: seq<Meta>, n: nat, localIds: set<string>): set<string> {
    if metas == [] then {}
    else
      var last := metas[|metas| - 1];
      StaleIds(metas[..|metas| - 1], n, localIds) + if last.shard < n && last.id !in localIds then {last.id} else {}
  }

  function KeySet(d: seq<(string, Meta)>): set<string> {
    if d == [] then {} else KeySet(d[..|d| - 1]) + {d[|d| - 1].0}
  }

  lemma {:induction false} KeySetMembers(d: seq<(string, Meta)>, k: string)
    ensures k in KeySet(d) <==> exists i :: 0 <= i < |d| && d[i].0 == k
  {
    if d != [] {
      KeySetMembers(d[..|d| - 1], k);
      assert forall i :: 0 <= i < |d| - 1 ==> d[..|d| - 1][i] == d[i];
    }
  }

  lemma KeySetIs(d: Dict<string, Meta>)
    ensures KeySet(d) == ToMap(d).Keys
  {
    forall k ensures k in KeySet(d) <==> k in ToMap(d) {
      KeySetMembers(d, k);
      if k in ToMap(d) {
        var i := IndexFor(d, k);
      }
      if i :| 0 <= i < |d| && d[i].0 == k {
        EntryAt(d, i);
      }
    }
  }

  lemma {:induction false} StaleMembers(metas: seq<Meta>, n: nat, localIds: set<string>, k: string)
    ensures k in StaleIds(metas, n, localIds) <==>
            exists i :: 0 <= i < |metas| && metas[i].id == k && metas[i].shard < n && k !in localIds
  {
    if metas != [] {
      StaleMembers(metas[..|metas| - 1], n, localIds, k);
      assert forall i :: 0 <= i < |metas| - 1 ==> metas[..|metas| - 1][i] == metas[i];
    }
  }

  lemma StaleIsNotFresh(d: Dict<string, Meta>, n: nat, localIds: set<string>)
    requires forall k :: k in ToMap(d) ==> ToMap(d)[k].id == k
    ensures ToMap(d) - StaleIds(Values(d), n, localIds) == Fresh(ToMap(d), n, localIds)
  {
    forall k | k in ToMap(d)
      ensures k in StaleIds(Values(d), n, localIds) <==> ToMap(d)[k].shard < n && k !in localIds
    {
      StaleMembers(Values(d), n, localIds, k);
      var j := IndexFor(d, k);
      assert Values(d)[j].id == k;
      forall i | 0 <= i < |d| && Values(d)[i].id == k ensures Values(d)[i] == ToMap(d)[k] {
        EntryAt(d, i);
      }
    }
  }

  // Flushes and merges only add segments under ids never used before, so the
  // writer's bookkeeping stays true until the next reconcile.
  lemma TrackedAcrossChanges(m: map<string, Meta>, registered: set<string>, before: seq<Segment>, after: seq<Segment>)
    requires Tracked(m, registered, before)
    requires forall i :: 0 <= i < |after| ==> after[i] in before || after[i].id !in registered
    ensures Tracked(m, registered, after)
  {
  }
}
