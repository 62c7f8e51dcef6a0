// The writer: one engine per shard, batches spread over them by id, and the
// registry brought up to date after every insert.
module Pipeline {
  import opened Wrappers
  import opened ByteCodec
  import opened WalCodec
  import opened WalRecovery
  import opened Dicts
  import opened Sorting
  import opened Segments
  import opened SegmentCaches
  import opened Sharding
  import opened Registry
  import opened LsmEngine
  import LsmInvariants
  import LsmModel
  import MemTables
  import SegmentNames
  import opened Snapshots
  import WriteAheadLog

  // ---- several engines on the heap -------------------------------------------------------

  // Everything the engines change lies in `repr`; they share the tombstone file.
  ghost predicate Owned(engines: seq<Engine>, file: TombstoneFile, repr: set<object>) {
    && file in repr
    && forall i :: 0 <= i < |engines| ==>
         engines[i] in repr && engines[i].wal in repr && engines[i].memtable in repr && engines[i].tombFile == file
  }

  ghost predicate Apart(engines: seq<Engine>) {
    forall i, j :: 0 <= i < j < |engines| ==>
      engines[i] != engines[j] && engines[i].wal != engines[j].wal && engines[i].memtable != engines[j].memtable
  }

  ghost function StatesOf(engines: seq<Engine>, file: TombstoneFile, repr: set<object>): (sts: seq<Lsm>)
    requires Owned(engines, file, repr)
    reads repr
    ensures |sts| == |engines| && forall i :: 0 <= i < |sts| ==> sts[i] == engines[i].State()
  {
    seq(|engines|, i requires 0 <= i < |engines| reads repr => engines[i].State())
  }

  ghost predicate Fits(config: Config, format: Format, e: Engine)
    reads e, e.wal
  {
    e.config == config && e.format == format && e.Wired()
  }

  ghost predicate Serves(config: Config, format: Format, e: Engine)
    reads e, e.wal
  {
    Fits(config, format, e) && e.started && e.LogIntact()
  }

  // One engine per shard, each under its own shard number.
  ghost predicate Fitted(config: Config, format: Format, engines: seq<Engine>, file: TombstoneFile, repr: set<object>)
    requires Owned(engines, file, repr)
    reads repr
  {
    && Apart(engines)
    && forall i :: 0 <= i < |engines| ==> Fits(ForShard(config, i), format, engines[i])
  }

  lemma OneChanged(before: seq<Lsm>, after: seq<Lsm>, s: nat)
    requires |before| == |after| && s < |after|
    requires forall i :: 0 <= i < |after| && i != s ==> after[i] == before[i].(diskTombs := after[s].diskTombs)
    ensures after == Update(before, s, after[s])
  {
  }

  datatype PipeReply = PipeReply(lsn: nat, inserted: nat, flushed: bool, ntotal: nat, segments: nat, walLsn: nat)

  datatype DeleteReply = DeleteReply(deleted: nat, lsn: nat, ntotal: nat, walLsn: nat)

  // What `insert` collects from the engines, or nothing once one rejects.
  ghost function GroupsReply(c: Config, sts: seq<Lsm>, groups: seq<(nat, seq<Pair>)>, names: Names,
      so: InsertReply): Option<InsertReply>
    requires forall i :: 0 <= i < |groups| ==> groups[i].0 < |sts|
    decreases |groups|
  {
    if groups == [] then Some(so)
    else
      var (s, g) := groups[0];
      var r := InsertResult(ForShard(c, s), sts[s], Ids(g), Vectors(g));
      if r.Failure? then None
      else
        var next := Update(sts, s, InsertInto(c, sts[s], s, Ids(g), Vectors(g), names));
        GroupsReply(c, next, groups[1..], names, Joined(so, r.value))
  }

  function Joined(a: InsertReply, b: InsertReply): InsertReply {
    InsertReply(WriteAheadLog.Max(a.lsn, b.lsn), a.flushed || b.flushed)
  }

  // What `delete` collects: the largest LSN.
  ghost function DeletesReply(c: Config, sts: seq<Lsm>, groups: seq<(nat, seq<Id>)>, lsn: nat): Option<nat>
    requires forall i :: 0 <= i < |groups| ==> groups[i].0 < |sts|
    decreases |groups|
  {
    if groups == [] then Some(lsn)
    else
      var (s, g) := groups[0];
      var r := DeleteResult(sts[s], g);
      if r.Failure? then None
      else
        var next := Update(sts, s, LsmModel.Delete(ForShard(c, s), sts[s], g));
        DeletesReply(c, next, groups[1..], WriteAheadLog.Max(lsn, r.value))
  }

  ghost function InsertAnswer(c: Config, sts: seq<Lsm>, ids: seq<Id>, vectors: seq<Vec>,
      names: Names): Option<InsertReply>
    requires sts != []
  {
    if |sts| == 1 then
      var r := InsertResult(ForShard(c, 0), sts[0], ids, vectors);
      if r.Success? then Some(r.value) else None
    else
      GroupsInRange(MemTables.Zip(ids, vectors), PairShard(|sts|), |sts|);
      GroupsReply(c, sts, Grouped(MemTables.Zip(ids, vectors), PairShard(|sts|)), names, InsertReply(0, false))
  }

  ghost function DeleteAnswer(c: Config, sts: seq<Lsm>, ids: seq<Id>): Option<nat>
    requires sts != []
  {
    if |sts| == 1 then
      var r := DeleteResult(sts[0], ids);
      if r.Success? then Some(r.value) else None
    else
      GroupsInRange(ids, IdShard(|sts|), |sts|);
      DeletesReply(c, sts, Grouped(ids, IdShard(|sts|)), 0)
  }

  // ---- what holds between operations -------------------------------------------------------

  function Draws(names: Names, s: nat): set<string> {
    {names(s).0, names(s).1}
  }

  // Every drawn directory name is new: to each shard, to the registry's
  // bookkeeping, and among the names drawn by the same call.
  ghost predicate FreshDraws(sts: seq<Lsm>, registered: set<string>, names: Names) {
    && (forall s :: 0 <= s < |sts| ==> names(s).0 != names(s).1 && Draws(names, s) !! registered)
    && (forall s, t :: 0 <= s < |sts| && 0 <= t < |sts| ==> Draws(names, s) !! IdsOf(sts[t].segs))
    && (forall s, t :: 0 <= s < t < |sts| ==> Draws(names, s) !! Draws(names, t))
  }

  // Each shard is layered, no two segments share a name, and the segments believed
  // registered are.
  ghost predicate Tidy(c: Config, sts: seq<Lsm>, entries: map<string, Meta>, registered: set<string>) {
    && (forall s :: 0 <= s < |sts| ==>
          && LsmInvariants.Layered(ForShard(c, s), sts[s]) && DistinctSegIds(sts[s].segs)
          && Tracked(entries, registered, sts[s].segs))
    && (forall s, t :: 0 <= s < t < |sts| ==> IdsOf(sts[s].segs) !! IdsOf(sts[t].segs))
  }

  // A shard after an insert or a delete: still layered, with the old segments or new names.
  ghost predicate Advanced(c: Config, s: nat, before: Lsm, after: Lsm, drawn: set<string>) {
    LsmInvariants.Layered(ForShard(c, s), after) && SegmentNames.Renamed(before.segs, after.segs, drawn)
  }

  lemma StayedPut(c: Config, s: nat, st: Lsm, drawn: set<string>)
    requires LsmInvariants.Layered(ForShard(c, s), st) && DistinctSegIds(st.segs)
    ensures Advanced(c, s, st, st, drawn)
  {
  }

  lemma InsertAdvances(c: Config, s: nat, st: Lsm, ids: seq<Id>, vectors: seq<Vec>, names: Names)
    requires LsmInvariants.Layered(ForShard(c, s), st) && DistinctSegIds(st.segs)
    requires names(s).0 != names(s).1 && Draws(names, s) !! IdsOf(st.segs)
    ensures Advanced(c, s, st, InsertInto(c, st, s, ids, vectors, names), Draws(names, s))
  {
    LsmInvariants.InsertLayered(ForShard(c, s), st, ids, vectors, names(s).0, names(s).1);
    SegmentNames.InsertRenames(ForShard(c, s), st, ids, vectors, names(s).0, names(s).1);
  }

  lemma DeleteAdvances(c: Config, s: nat, st: Lsm, ids: seq<Id>)
    requires LsmInvariants.Layered(ForShard(c, s), st) && DistinctSegIds(st.segs)
    ensures Advanced(c, s, st, LsmModel.Delete(ForShard(c, s), st, ids), {})
  {
    LsmInvariants.DeleteLayered(ForShard(c, s), st, ids);
  }

  lemma {:induction false} OthersInsert(c: Config, sts: seq<Lsm>, groups: Dict<nat, seq<Pair>>, names: Names, s: nat)
    requires forall i :: 0 <= i < |groups| ==> groups[i].0 < |sts|
    requires s < |sts| && s !in ToMap(groups)
    ensures SameButFile(InsertGroups(c, sts, groups, names)[s], sts[s])
    decreases |groups|
  {
    if groups != [] {
      var (t, g) := groups[0];
      DistinctTail(groups, s);
      OthersInsert(c, Update(sts, t, InsertInto(c, sts[t], t, Ids(g), Vectors(g), names)), groups[1..], names, s);
    }
  }

  lemma {:induction false} OthersDelete(c: Config, sts: seq<Lsm>, groups: Dict<nat, seq<Id>>, s: nat)
    requires forall i :: 0 <= i < |groups| ==> groups[i].0 < |sts|
    requires s < |sts| && s !in ToMap(groups)
    ensures SameButFile(DeleteGroups(c, sts, groups)[s], sts[s])
    decreases |groups|
  {
    if groups != [] {
      var (t, g) := groups[0];
      DistinctTail(groups, s);
      OthersDelete(c, Update(sts, t, LsmModel.Delete(ForShard(c, t), sts[t], g)), groups[1..], s);
    }
  }

  lemma AdvancedIgnoresFile(c: Config, s: nat, a: Lsm, b: Lsm, x: Lsm, y: Lsm, drawn: set<string>)
    requires SameButFile(a, b) && SameButFile(x, y) && Advanced(c, s, b, y, drawn)
    ensures Advanced(c, s, a, x, drawn)
  {
  }

  // Each shard takes at most one step, even when a later group is rejected.
  lemma {:induction false} InsertGroupsAdvance(c: Config, sts: seq<Lsm>, groups: Dict<nat, seq<Pair>>,
      names: Names, s: nat)
    requires forall i :: 0 <= i < |groups| ==> groups[i].0 < |sts|
    requires s < |sts| && LsmInvariants.Layered(ForShard(c, s), sts[s]) && DistinctSegIds(sts[s].segs)
    requires names(s).0 != names(s).1 && Draws(names, s) !! IdsOf(sts[s].segs)
    ensures Advanced(c, s, sts[s], InsertGroups(c, sts, groups, names)[s], Draws(names, s))
    decreases |groups|
  {
    StayedPut(c, s, sts[s], Draws(names, s));
    if groups != [] {
      var (t, g) := groups[0];
      var next := Update(sts, t, InsertInto(c, sts[t], t, Ids(g), Vectors(g), names));
      var after := if Packable(sts[t].lastLsn + 1, |g|) then InsertGroups(c, next, groups[1..], names) else next;
      DistinctTail(groups, t);
      if t == s {
        InsertAdvances(c, s, sts[s], Ids(g), Vectors(g), names);
        OthersInsert(c, next, groups[1..], names, s);
        AdvancedIgnoresFile(c, s, sts[s], sts[s], after[s], next[s], Draws(names, s));
      } else {
        InsertGroupsAdvance(c, next, groups[1..], names, s);
        StayedPut(c, s, next[s], Draws(names, s));
        AdvancedIgnoresFile(c, s, sts[s], next[s], after[s], after[s], Draws(names, s));
      }
    }
  }

  lemma {:induction false} DeleteGroupsAdvance(c: Config, sts: seq<Lsm>, groups: Dict<nat, seq<Id>>, s: nat)
    requires forall i :: 0 <= i < |groups| ==> groups[i].0 < |sts|
    requires s < |sts| && LsmInvariants.Layered(ForShard(c, s), sts[s]) && DistinctSegIds(sts[s].segs)
    ensures Advanced(c, s, sts[s], DeleteGroups(c, sts, groups)[s], {})
    decreases |groups|
  {
    StayedPut(c, s, sts[s], {});
    if groups != [] {
      var (t, g) := groups[0];
      var next := Update(sts, t, LsmModel.Delete(ForShard(c, t), sts[t], g));
      var after := if Packable(sts[t].lastLsn + 1, |g|) then DeleteGroups(c, next, groups[1..]) else next;
      DistinctTail(groups, t);
      if t == s {
        DeleteAdvances(c, s, sts[s], g);
        OthersDelete(c, next, groups[1..], s);
        AdvancedIgnoresFile(c, s, sts[s], sts[s], after[s], next[s], {});
      } else {
        DeleteGroupsAdvance(c, next, groups[1..], s);
        StayedPut(c, s, next[s], {});
        AdvancedIgnoresFile(c, s, sts[s], next[s], after[s], after[s], {});
      }
    }
  }

  lemma InsertAllAdvances(c: Config, sts: seq<Lsm>, ids: seq<Id>, vectors: seq<Vec>, names: Names, s: nat)
    requires s < |sts| && LsmInvariants.Layered(ForShard(c, s), sts[s]) && DistinctSegIds(sts[s].segs)
    requires names(s).0 != names(s).1 && Draws(names, s) !! IdsOf(sts[s].segs)
    ensures Advanced(c, s, sts[s], InsertAll(c, sts, ids, vectors, names)[s], Draws(names, s))
  {
    if !ShapeOk(c.dim, ids, vectors) {
      StayedPut(c, s, sts[s], Draws(names, s));
    } else if |sts| == 1 {
      InsertAdvances(c, 0, sts[0], ids, vectors, names);
    } else {
      var pairs := MemTables.Zip(ids, vectors);
      GroupsInRange(pairs, PairShard(|sts|), |sts|);
      InsertGroupsAdvance(c, sts, Grouped(pairs, PairShard(|sts|)), names, s);
    }
  }

  lemma DeleteAllAdvances(c: Config, sts: seq<Lsm>, ids: seq<Id>, s: nat)
    requires s < |sts| && LsmInvariants.Layered(ForShard(c, s), sts[s]) && DistinctSegIds(sts[s].segs)
    ensures Advanced(c, s, sts[s], DeleteFromAll(c, sts, ids)[s], {})
  {
    if |sts| == 1 {
      DeleteAdvances(c, 0, sts[0], ids);
    } else {
      GroupsInRange(ids, IdShard(|sts|), |sts|);
      DeleteGroupsAdvance(c, sts, Grouped(ids, IdShard(|sts|)), s);
    }
  }

  lemma AdvancedApart(a: Lsm, a': Lsm, b: Lsm, b': Lsm, x: set<string>, y: set<string>)
    requires SegmentNames.Renamed(a.segs, a'.segs, x) && SegmentNames.Renamed(b.segs, b'.segs, y)
    requires IdsOf(a.segs) !! IdsOf(b.segs) && x !! y && x !! IdsOf(b.segs) && y !! IdsOf(a.segs)
    ensures IdsOf(a'.segs) !! IdsOf(b'.segs)
  {
    SegmentNames.RenamedIds(a.segs, a'.segs, x);
    SegmentNames.RenamedIds(b.segs, b'.segs, y);
  }

  lemma StillTrackedAfter(entries: map<string, Meta>, registered: set<string>, before: seq<Segment>,
      after: seq<Segment>, drawn: set<string>)
    requires Tracked(entries, registered, before) && SegmentNames.Renamed(before, after, drawn) && drawn !! registered
    ensures Tracked(entries, registered, after)
  {
    TrackedAcrossChanges(entries, registered, before, after);
  }

  lemma InsertTidies(c: Config, sts: seq<Lsm>, ids: seq<Id>, vectors: seq<Vec>, names: Names,
      entries: map<string, Meta>, registered: set<string>)
    requires sts != [] && Tidy(c, sts, entries, registered) && FreshDraws(sts, registered, names)
    ensures Tidy(c, InsertAll(c, sts, ids, vectors, names), entries, registered)
  {
    var after := InsertAll(c, sts, ids, vectors, names);
    forall s | 0 <= s < |sts| ensures Advanced(c, s, sts[s], after[s], Draws(names, s)) {
      InsertAllAdvances(c, sts, ids, vectors, names, s);
    }
    forall s | 0 <= s < |sts| ensures Tracked(entries, registered, after[s].segs) {
      StillTrackedAfter(entries, registered, sts[s].segs, after[s].segs, Draws(names, s));
    }
    forall s, t | 0 <= s < t < |sts| ensures IdsOf(after[s].segs) !! IdsOf(after[t].segs) {
      AdvancedApart(sts[s], after[s], sts[t], after[t], Draws(names, s), Draws(names, t));
    }
  }

  lemma DeleteTidies(c: Config, sts: seq<Lsm>, ids: seq<Id>, entries: map<string, Meta>, registered: set<string>)
    requires sts != [] && Tidy(c, sts, entries, registered)
    ensures Tidy(c, DeleteFromAll(c, sts, ids), entries, registered)
  {
    var after := DeleteFromAll(c, sts, ids);
    forall s | 0 <= s < |sts| ensures Advanced(c, s, sts[s], after[s], {}) {
      DeleteAllAdvances(c, sts, ids, s);
    }
    forall s | 0 <= s < |sts| ensures Tracked(entries, registered, after[s].segs) {
      StillTrackedAfter(entries, registered, sts[s].segs, after[s].segs, {});
    }
    forall s, t | 0 <= s < t < |sts| ensures IdsOf(after[s].segs) !! IdsOf(after[t].segs) {
      AdvancedApart(sts[s], after[s], sts[t], after[t], {}, {});
    }
  }

  lemma JoinDistinct(a: seq<Segment>, b: seq<Segment>)
    requires DistinctSegIds(a) && DistinctSegIds(b) && IdsOf(a) !! IdsOf(b)
    ensures DistinctSegIds(a + b)
  {
    forall i, j | 0 <= i < j < |a + b| ensures (a + b)[i].id != (a + b)[j].id {
      if i < |a| <= j {
        assert a[i] in a && b[j - |a|] in b;
        assert a[i].id in IdsOf(a) && b[j - |a|].id in IdsOf(b);
      }
    }
  }

  lemma {:induction false} AllSegmentsDistinct(c: Config, sts: seq<Lsm>, entries: map<string, Meta>,
      registered: set<string>)
    requires Tidy(c, sts, entries, registered)
    ensures DistinctSegIds(AllSegments(sts))
  {
    if sts != [] {
      var n := |sts| - 1;
      AllSegmentsDistinct(c, sts[..n], entries, registered);
      var a := AllSegments(sts[..n]);
      forall k | k in IdsOf(a) ensures k !in IdsOf(sts[n].segs) {
        var g :| g in a && g.id == k;
        AllSegmentsMembers(sts[..n], g);
        var s :| 0 <= s < n && g in sts[..n][s].segs;
        assert k in IdsOf(sts[s].segs);
      }
      JoinDistinct(a, sts[n].segs);
    }
  }

  // The registrar's demands follow from tidiness, and its promises restore it.
  lemma AllSegmentsReady(c: Config, sts: seq<Lsm>, entries: map<string, Meta>, registered: set<string>)
    requires Tidy(c, sts, entries, registered)
    ensures var all := AllSegments(sts);
            && DistinctSegIds(all) && Tracked(entries, registered, all)
            && forall i :: 0 <= i < |all| ==> all[i].shard < |sts|
  {
    var all := AllSegments(sts);
    AllSegmentsDistinct(c, sts, entries, registered);
    forall i | 0 <= i < |all|
      ensures all[i].shard < |sts|
      ensures all[i].id in registered ==> all[i].id in entries && entries[all[i].id] == MetaOf(all[i])
    {
      AllSegmentsMembers(sts, all[i]);
      assert all[i] in all;
      var s :| 0 <= s < |sts| && all[i] in sts[s].segs;
      var j :| 0 <= j < |sts[s].segs| && sts[s].segs[j] == all[i];
    }
  }

  lemma RegisteredTidies(c: Config, sts: seq<Lsm>, before: map<string, Meta>, was: set<string>,
      after: map<string, Meta>, now: set<string>)
    requires Tidy(c, sts, before, was) && Tracked(after, now, AllSegments(sts))
    ensures Tidy(c, sts, after, now)
  {
    forall s | 0 <= s < |sts| ensures Tracked(after, now, sts[s].segs) {
      forall i | 0 <= i < |sts[s].segs| && sts[s].segs[i].id in now
        ensures sts[s].segs[i].id in after && after[sts[s].segs[i].id] == MetaOf(sts[s].segs[i])
      {
        AllSegmentsMembers(sts, sts[s].segs[i]);
        var k :| 0 <= k < |AllSegments(sts)| && AllSegments(sts)[k] == sts[s].segs[i];
      }
    }
  }

  // ---- health ----------------------------------------------------------------------------------

  // The largest LSN any engine has assigned.
  function TopLsn(sts: seq<Lsm>): nat {
    if sts == [] then 0 else WriteAheadLog.Max(TopLsn(sts[..|sts| - 1]), sts[|sts| - 1].lastLsn)
  }

  function Buffered(sts: seq<Lsm>): nat {
    if sts == [] then 0 else Buffered(sts[..|sts| - 1]) + |MemTables.LiveRows(sts[|sts| - 1].mem, None)|
  }

  ghost function TotalHealth(sts: seq<Lsm>, readers: nat): Health {
    Health(TotalCount(sts), |AllSegments(sts)|, Buffered(sts), TopLsn(sts), readers)
  }

  function Plus(a: Health, b: Health): Health {
    Health(a.ntotal + b.ntotal, a.segments + b.segments, a.memtableSize + b.memtableSize,
           WriteAheadLog.Max(a.walLsn, b.walLsn), a.activeSnapshots + b.activeSnapshots)
  }

  // The searches that hold a snapshot of any of the first n engines.
  ghost function Readers(engines: seq<Engine>, n: nat): nat
    requires n <= |engines|
    reads set e | e in engines :: e.snapshots
  {
    if n == 0 then 0 else Readers(engines, n - 1) + Total(engines[n - 1].snapshots.active)
  }

  lemma HealthSnoc(sts: seq<Lsm>, i: nat, readers: nat, more: nat)
    requires i < |sts|
    ensures TotalHealth(sts[..i + 1], readers + more) == Plus(TotalHealth(sts[..i], readers), HealthOf(sts[i], more))
  {
    assert sts[..i + 1][..i] == sts[..i];
  }

  // ---- engines -------------------------------------------------------------------------------------

  ghost predicate OverFiles(engines: seq<Engine>, file: TombstoneFile, repr: set<object>, disk: LogFiles, from: nat)
    requires Owned(engines, file, repr)
    reads repr
  {
    forall s :: from <= s < |engines| ==> engines[s].wal.file == disk(s).0 && engines[s].wal.meta == disk(s).1
  }

  // One more engine, with objects of its own.
  lemma EngineAdded(config: Config, format: Format, engines: seq<Engine>, file: TombstoneFile, own: set<object>,
      disk: LogFiles, e: Engine, mine: set<object>)
    requires Owned(engines, file, own + {file}) && mine == {e, e.wal, e.memtable}
    requires Fitted(config, format, engines, file, own + {file}) && OverFiles(engines, file, own + {file}, disk, 0)
    requires Fits(ForShard(config, |engines|), format, e) && e.tombFile == file
    requires e.wal.file == disk(|engines|).0 && e.wal.meta == disk(|engines|).1
    requires e !in own + {file} && e.wal !in own + {file} && e.memtable !in own + {file}
    ensures Owned(engines + [e], file, own + mine + {file})
    ensures Fitted(config, format, engines + [e], file, own + mine + {file})
    ensures OverFiles(engines + [e], file, own + mine + {file}, disk, 0)
  {
  }

  method BuildEngines(config: Config, format: Format, n: nat, disk: LogFiles, file: TombstoneFile)
    returns (engines: seq<Engine>, ghost own: set<object>)
    requires format.dim == config.dim
    ensures |engines| == n && fresh(own) && Owned(engines, file, own + {file})
    ensures Fitted(config, format, engines, file, own + {file}) && OverFiles(engines, file, own + {file}, disk, 0)
  {
    engines, own := [], {};
    for i := 0 to n
      invariant |engines| == i && fresh(own) && Owned(engines, file, own + {file})
      invariant Fitted(config, format, engines, file, own + {file}) && OverFiles(engines, file, own + {file}, disk, 0)
    {
      var e, mine := BuildEngine(ForShard(config, i), format, disk(i).0, disk(i).1, file);
      EngineAdded(config, format, engines, file, own, disk, e, mine);
      engines, own := engines + [e], own + mine;
    }
  }

  method BuildEngine(config: Config, format: Format, log: seq<byte>, meta: nat, file: TombstoneFile)
    returns (e: Engine, ghost mine: set<object>)
    requires format.dim == config.dim
    ensures mine == {e, e.wal, e.memtable} && fresh(mine)
    ensures Fits(config, format, e) && e.tombFile == file && e.wal.file == log && e.wal.meta == meta
  {
    e := new Engine(config, format, log, meta, file);
    mine := {e, e.wal, e.memtable};
  }

  ghost predicate Begun(e: Engine, log: seq<byte>, want: Lsm)
    reads e, e.wal, e.memtable, e.tombFile
  {
    e.started && e.wal.file == log && e.State() == want
  }

  // No shard's log ends in unread bytes.
  ghost predicate AllIntact(format: Format, disk: LogFiles, n: nat) {
    forall s :: 0 <= s < n ==> Intact(format, disk(s).0)
  }

  method StartIt(e: Engine, listing: seq<Segment>, ghost want: Lsm)
    requires e.Wired()
    requires want ==
             LsmModel.Start(e.config, listing, e.tombFile.ids, Parse(e.format, e.wal.file), e.wal.meta)
    modifies e, e.wal, e.memtable
    ensures e.Wired() && Begun(e, old(e.wal.file), want)
  {
    e.Start(listing);
  }

  method GroupBatch<T>(items: seq<T>, shardOf: T -> nat) returns (groups: Dict<nat, seq<T>>)
    ensures groups == Grouped(items, shardOf)
  {
    groups := [];
    for i := 0 to |items|
      invariant groups == Grouped(items[..i], shardOf)
    {
      assert items[..i + 1][..i] == items[..i];
      groups := AddTo(groups, shardOf(items[i]), items[i]);
    }
    assert items[..|items|] == items;
  }

  // What `insert` answers, given the engines before it.
  ghost function InsertOutcome(c: Config, sts: seq<Lsm>, ids: seq<Id>, vectors: seq<Vec>,
      names: Names): Result<PipeReply, EngineError>
    requires sts != []
  {
    var answer := InsertAnswer(c, sts, ids, vectors, names);
    if !ShapeOk(c.dim, ids, vectors) then Failure(BadArgument)
    else if answer.None? then Failure(Rejected)
    else
      Success(ReplyOf(InsertAll(c, sts, ids, vectors, names), |ids|, answer.value))
  }

  ghost function ReplyOf(after: seq<Lsm>, count: nat, so: InsertReply): PipeReply {
    PipeReply(so.lsn, count, so.flushed, TotalCount(after), |AllSegments(after)|, TopLsn(after))
  }

  // What `delete` answers.
  ghost function DeleteOutcome(c: Config, sts: seq<Lsm>, ids: seq<Id>): Result<DeleteReply, EngineError>
    requires sts != []
  {
    var answer := DeleteAnswer(c, sts, ids);
    if answer.None? then Failure(Rejected)
    else
      var after := DeleteFromAll(c, sts, ids);
      Success(DeleteReply(|ids|, answer.value, TotalCount(after), TopLsn(after)))
  }

  // ---- start -----------------------------------------------------------------------------------------

  // The log file and the meta value in each shard's directory.
  type LogFiles = nat -> (seq<byte>, nat)

  // What starting a shard's engine gives.
  function Started(c: Config, format: Format, disk: LogFiles, listing: seq<Segment>, file: set<Id>, s: nat): Lsm {
    LsmModel.Start(ForShard(c, s), listing, file, Parse(format, disk(s).0), disk(s).1)
  }

  function StartedAll(c: Config, format: Format, disk: LogFiles, listing: seq<Segment>, file: set<Id>, n: nat)
    : (sts: seq<Lsm>)
    ensures |sts| == n && forall s :: 0 <= s < n ==> sts[s] == Started(c, format, disk, listing, file, s)
  {
    seq(n, s requires 0 <= s < n => Started(c, format, disk, listing, file, s))
  }

  // Every shard has loaded its own directories of a listing.
  ghost predicate FromDisk(sts: seq<Lsm>, listing: seq<Segment>) {
    forall s :: 0 <= s < |sts| ==> sts[s].segs == SortSegs(LsmModel.Own(s, listing))
  }

  lemma StartedLoaded(c: Config, format: Format, disk: LogFiles, listing: seq<Segment>, file: set<Id>, n: nat)
    ensures FromDisk(StartedAll(c, format, disk, listing, file, n), listing)
  {
  }

  lemma {:induction false} OwnCount(shard: nat, listing: seq<Segment>, g: Segment)
    ensures multiset(LsmModel.Own(shard, listing))[g] == if g.shard == shard then multiset(listing)[g] else 0
  {
    if listing != [] {
      OwnCount(shard, listing[1..], g);
      assert listing == [listing[0]] + listing[1..];
    }
  }

  lemma OnceListed(listing: seq<Segment>, g: Segment)
    requires DistinctSegIds(listing)
    ensures multiset(listing)[g] <= 1
  {
    if listing != [] {
      var front, last := listing[..|listing| - 1], listing[|listing| - 1];
      OnceListed(front, g);
      assert listing == front + [last];
      assert forall i :: 0 <= i < |front| ==> front[i] == listing[i] && listing[i] != last;
    }
  }

  // Every listed directory is loaded by the shard it names, and by no other.
  lemma {:induction false} LoadedOnce(sts: seq<Lsm>, listing: seq<Segment>, g: Segment)
    requires FromDisk(sts, listing)
    ensures multiset(AllSegments(sts))[g] == if g.shard < |sts| then multiset(listing)[g] else 0
  {
    if sts != [] {
      var n := |sts| - 1;
      LoadedOnce(sts[..n], listing, g);
      OwnCount(n, listing, g);
      assert multiset(sts[n].segs) == multiset(LsmModel.Own(n, listing));
    }
  }

  lemma InListing(sts: seq<Lsm>, listing: seq<Segment>, i: nat)
    requires FromDisk(sts, listing)
    requires i < |AllSegments(sts)|
    ensures AllSegments(sts)[i] in listing && AllSegments(sts)[i].shard < |sts|
  {
    var g := AllSegments(sts)[i];
    LoadedOnce(sts, listing, g);
    assert g in multiset(AllSegments(sts));
  }

  // No two loaded segments share a directory.
  lemma LoadedDistinct(sts: seq<Lsm>, listing: seq<Segment>)
    requires DistinctSegIds(listing)
    requires FromDisk(sts, listing)
    ensures DistinctSegIds(AllSegments(sts))
    ensures forall i :: 0 <= i < |AllSegments(sts)| ==> AllSegments(sts)[i].shard < |sts|
  {
    var all := AllSegments(sts);
    forall i | 0 <= i < |all| ensures all[i] in listing && all[i].shard < |sts| {
      InListing(sts, listing, i);
    }
    forall i, j | 0 <= i < j < |all| ensures all[i].id != all[j].id {
      var k :| 0 <= k < |listing| && listing[k] == all[i];
      var l :| 0 <= l < |listing| && listing[l] == all[j];
      if all[i].id == all[j].id {
        assert k == l;
        TwoPositions(all, i, j);
        LoadedOnce(sts, listing, all[i]);
        OnceListed(listing, all[i]);
      }
    }
  }

  // A writer started on what an earlier one left: every shard is restarted, in whatever
  // order the directories are listed.
  lemma StartedAreRestarts(c: Config, sts: seq<Lsm>, format: Format, disk: LogFiles, listing: seq<Segment>,
      file: set<Id>)
    requires forall s :: 0 <= s < |sts| ==>
               && LsmInvariants.Layered(ForShard(c, s), sts[s]) && sts[s].diskTombs == file
               && LsmInvariants.Lists(ForShard(c, s), listing, sts[s].segs)
               && Parse(format, disk(s).0) == sts[s].log && disk(s).1 == sts[s].meta
    ensures forall s :: 0 <= s < |sts| ==>
              var st := StartedAll(c, format, disk, listing, file, |sts|)[s];
              st == LsmInvariants.Restart(ForShard(c, s), sts[s]) && LsmInvariants.Layered(ForShard(c, s), st)
  {
    forall s | 0 <= s < |sts|
      ensures var st := Started(c, format, disk, listing, file, s);
              st == LsmInvariants.Restart(ForShard(c, s), sts[s]) && LsmInvariants.Layered(ForShard(c, s), st)
    {
      LsmInvariants.StartIsRestart(ForShard(c, s), sts[s], listing);
      LsmInvariants.RestartLayered(ForShard(c, s), sts[s]);
    }
  }

  // Started shards are tidy when they are layered and the registry's entries under the
  // loaded names are theirs.
  lemma StartTidies(c: Config, sts: seq<Lsm>, listing: seq<Segment>, entries: map<string, Meta>,
      registered: set<string>)
    requires DistinctSegIds(listing)
    requires FromDisk(sts, listing) && forall s :: 0 <= s < |sts| ==> LsmInvariants.Layered(ForShard(c, s), sts[s])
    requires Tracked(entries, registered, AllSegments(sts))
    ensures Tidy(c, sts, entries, registered)
  {
    LoadedDistinct(sts, listing);
    forall s | 0 <= s < |sts| ensures DistinctSegIds(sts[s].segs) && Tracked(entries, registered, sts[s].segs) {
      ShardOfAll(sts, s, entries, registered);
    }
    forall s, t | 0 <= s < t < |sts| ensures IdsOf(sts[s].segs) !! IdsOf(sts[t].segs) {
      OwnNames(sts, listing, s, t);
    }
  }

  lemma ShardOfAll(sts: seq<Lsm>, s: nat, entries: map<string, Meta>, registered: set<string>)
    requires s < |sts| && DistinctSegIds(AllSegments(sts)) && Tracked(entries, registered, AllSegments(sts))
    ensures DistinctSegIds(sts[s].segs) && Tracked(entries, registered, sts[s].segs)
  {
    var lo := ShardSlice(sts, s);
    var all, segs := AllSegments(sts), sts[s].segs;
    assert forall i :: 0 <= i < |segs| ==> segs[i] == all[lo..lo + |segs|][i] == all[lo + i];
  }

  lemma OwnNames(sts: seq<Lsm>, listing: seq<Segment>, s: nat, t: nat)
    requires DistinctSegIds(listing) && s < t < |sts|
    requires FromDisk(sts, listing)
    ensures IdsOf(sts[s].segs) !! IdsOf(sts[t].segs)
  {
    forall g, h | g in sts[s].segs && h in sts[t].segs ensures g.id != h.id {
      LoadedFrom(s, listing, g);
      LoadedFrom(t, listing, h);
      var k :| 0 <= k < |listing| && listing[k] == g;
      var l :| 0 <= l < |listing| && listing[l] == h;
      assert k != l;
    }
  }

  lemma LoadedFrom(shard: nat, listing: seq<Segment>, g: Segment)
    requires g in SortSegs(LsmModel.Own(shard, listing))
    ensures g in listing && g.shard == shard
  {
    OwnCount(shard, listing, g);
    assert g in multiset(SortSegs(LsmModel.Own(shard, listing)));
    assert g in multiset(listing);
  }

  ghost predicate AllLayered(c: Config, sts: seq<Lsm>) {
    forall s :: 0 <= s < |sts| ==> LsmInvariants.Layered(ForShard(c, s), sts[s])
  }

  // A registry that can be reached lists no foreign entry under the name of a local segment.
  ghost predicate RightlyListed(entries: map<string, Meta>, reachable: bool, segs: seq<Segment>) {
    reachable ==> forall k :: k in LocalEntries(segs) && k in entries ==> entries[k] == LocalEntries(segs)[k]
  }

  class WriterPipeline {
    const config: Config
    const format: Format
    const numShards: nat
    const engines: seq<Engine>
    const tombFile: TombstoneFile
    const registrar: Registrar
    ghost const repr: set<object>

    ghost predicate Built()
      reads repr
    {
      && numShards == |engines| && numShards > 0
      && format.dim == config.dim
      && Owned(engines, tombFile, repr) && registrar !in repr && registrar.coordinator !in repr
      && Fitted(config, format, engines, tombFile, repr)
    }

    ghost predicate Up()
      reads repr
    {
      Built() && forall i :: 0 <= i < |engines| ==> engines[i].started
    }

    // Up, and whatever is appended next is recoverable.
    ghost predicate Durable()
      reads repr
    {
      Up() && forall i :: 0 <= i < |engines| ==> engines[i].LogIntact()
    }

    ghost function States(): (sts: seq<Lsm>)
      requires Built()
      reads repr
      ensures |sts| == |engines|
    {
      StatesOf(engines, tombFile, repr)
    }

    ghost predicate Valid()
      reads repr, registrar, registrar.coordinator
    {
      && Durable() && registrar.numShards == numShards && registrar.coordinator.Valid()
      && Tidy(config, States(), ToMap(registrar.coordinator.entries), registrar.registered)
    }

    // One engine per shard, and at least one, over each shard's log directory and the
    // one tombstone file; nothing is started.
    constructor (config: Config, format: Format, shards: int, disk: LogFiles, tombFile: TombstoneFile,
        coordinator: Coordinator)
      requires format.dim == config.dim
      ensures Built() && this.config == config && this.format == format && this.tombFile == tombFile
      ensures numShards == (if shards < 1 then 1 else shards) == registrar.numShards
      ensures OverFiles(engines, tombFile, repr, disk, 0)
      ensures fresh(repr - {tombFile}) && fresh(registrar) && registrar.coordinator == coordinator
    {
      var n := if shards < 1 then 1 else shards;
      var es, own := BuildEngines(config, format, n, disk, tombFile);
      var r := new Registrar(n, coordinator);
      this.config, this.format, this.numShards, engines, this.tombFile, registrar, repr :=
        config, format, n, es, tombFile, r, own + {tombFile};
    }

    // `start`: every engine replays its log, the bookkeeping is read from the registry, or
    // is empty if that cannot be reached, and the registry is reconciled.
    method Start(ghost disk: LogFiles, listing: seq<Segment>, reachable: bool)
      requires Built() && registrar.numShards == numShards && registrar.coordinator.Valid()
      requires OverFiles(engines, tombFile, repr, disk, 0) && DistinctSegIds(listing)
      modifies repr, registrar, registrar.coordinator
      ensures Up() && States() == StartedAll(config, format, disk, listing, old(tombFile.ids), numShards)
      ensures tombFile.ids == old(tombFile.ids)
      ensures OfShards(ToMap(registrar.coordinator.entries), numShards) == LocalEntries(AllSegments(States())) <==>
              RightlyListed(ToMap(old(registrar.coordinator.entries)), reachable, AllSegments(States()))
      ensures var right := RightlyListed(ToMap(old(registrar.coordinator.entries)), reachable, AllSegments(States()));
              right && AllLayered(config, States()) && AllIntact(format, disk, numShards) ==> Valid()
    {
      StartEngines(disk, listing);
      StartedLoaded(config, format, disk, listing, tombFile.ids, numShards);
      Announce(listing, reachable);
    }

    method Announce(ghost listing: seq<Segment>, reachable: bool)
      requires Up() && registrar.numShards == numShards && registrar.coordinator.Valid()
      requires FromDisk(States(), listing) && DistinctSegIds(listing)
      modifies registrar, registrar.coordinator
      ensures Up() && States() == old(States())
      ensures OfShards(ToMap(registrar.coordinator.entries), numShards) == LocalEntries(AllSegments(States())) <==>
              RightlyListed(ToMap(old(registrar.coordinator.entries)), reachable, AllSegments(States()))
      ensures var right := RightlyListed(ToMap(old(registrar.coordinator.entries)), reachable, AllSegments(States()));
              right && AllLayered(config, States()) && Durable() ==> Valid()
    {
      ghost var sts, before := States(), ToMap(registrar.coordinator.entries);
      LoadedDistinct(sts, listing);
      LoadRegistered(reachable);
      LoadedIsTrackedIff(before, reachable, AllSegments(sts));
      var segs := Segments();
      ReconcileAll(segs);
      if RightlyListed(before, reachable, segs) && AllLayered(config, sts) {
        StartTidies(config, sts, listing, ToMap(registrar.coordinator.entries), registrar.registered);
        assert Tidy(config, States(), ToMap(registrar.coordinator.entries), registrar.registered);
      }
    }

    method LoadRegistered(reachable: bool)
      requires Up()
      modifies registrar
      ensures Up() && States() == old(States()) && unchanged(registrar.coordinator)
      ensures registrar.registered == if reachable then ToMap(registrar.coordinator.entries).Keys else {}
    {
      registrar.LoadRegistered(reachable);
    }

    // The first i engines have started and hold what is wanted, the others are as they were.
    ghost predicate Starting(disk: LogFiles, want: seq<Lsm>, i: nat)
      requires i <= |engines| == |want|
      reads repr
    {
      && Built() && OverFiles(engines, tombFile, repr, disk, i)
      && forall j :: 0 <= j < i ==> Begun(engines[j], disk(j).0, want[j])
    }

    method StartEngines(ghost disk: LogFiles, listing: seq<Segment>)
      requires Built() && OverFiles(engines, tombFile, repr, disk, 0)
      modifies repr
      ensures Up() && States() == StartedAll(config, format, disk, listing, old(tombFile.ids), numShards)
      ensures AllIntact(format, disk, numShards) ==> Durable()
      ensures tombFile.ids == old(tombFile.ids)
    {
      ghost var want := StartedAll(config, format, disk, listing, tombFile.ids, numShards);
      for i := 0 to |engines|
        invariant Starting(disk, want, i) && tombFile.ids == old(tombFile.ids)
      {
        StartNext(disk, listing, want, i);
      }
      AllStarted(disk, want);
    }

    lemma AllStarted(disk: LogFiles, want: seq<Lsm>)
      requires |want| == |engines| && Starting(disk, want, |engines|)
      ensures Up() && States() == want && (AllIntact(format, disk, numShards) ==> Durable())
    {
    }

    method StartNext(ghost disk: LogFiles, listing: seq<Segment>, ghost want: seq<Lsm>, i: nat)
      requires i < |engines| == |want| && Starting(disk, want, i)
      requires want[i] == Started(config, format, disk, listing, tombFile.ids, i)
      modifies engines[i], engines[i].wal, engines[i].memtable
      ensures Starting(disk, want, i + 1)
    {
      var e := engines[i];
      StartIt(e, listing, want[i]);
      forall j | 0 <= j < i ensures Begun(engines[j], disk(j).0, want[j]) {
        assert engines[j] != e && engines[j].wal != e.wal && engines[j].memtable != e.memtable;
      }
    }

    // `insert`: every shard takes its step, and then the registry's part for this
    // writer's shards is its segments.
    method Insert(ids: seq<Id>, vectors: seq<Vec>, names: Names) returns (r: Result<PipeReply, EngineError>)
      requires Valid() && FreshDraws(States(), registrar.registered, names)
      modifies repr, registrar, registrar.coordinator
      ensures Valid()
      ensures States() == InsertAll(config, old(States()), ids, vectors, names)
      ensures r == InsertOutcome(config, old(States()), ids, vectors, names)
      ensures r.Success? ==>
                OfShards(ToMap(registrar.coordinator.entries), numShards) == LocalEntries(AllSegments(States()))
      ensures r.Failure? ==> registrar.coordinator.entries == old(registrar.coordinator.entries)
      ensures registrar.coordinator.current >= old(registrar.coordinator.current)
    {
      if !ShapeOk(config.dim, ids, vectors) {
        return Failure(BadArgument);
      }
      var answer := Ingest(ids, vectors, names);
      if answer.None? {
        return Failure(Rejected);
      }
      r := Answer(|ids|, answer.value);
    }

    // What `insert` does once every engine has taken its share.
    method Answer(count: nat, so: InsertReply) returns (r: Result<PipeReply, EngineError>)
      requires Valid()
      modifies registrar, registrar.coordinator
      ensures Valid() && States() == old(States())
      ensures r == Success(ReplyOf(States(), count, so))
      ensures OfShards(ToMap(registrar.coordinator.entries), numShards) == LocalEntries(AllSegments(States()))
      ensures registrar.coordinator.current >= old(registrar.coordinator.current)
    {
      RegisterUnregistered();
      var h := GetHealth();
      r := Success(PipeReply(so.lsn, count, so.flushed, h.ntotal, h.segments, h.walLsn));
    }

    method Ingest(ids: seq<Id>, vectors: seq<Vec>, names: Names) returns (so: Option<InsertReply>)
      requires Valid() && ShapeOk(config.dim, ids, vectors) && FreshDraws(States(), registrar.registered, names)
      modifies repr
      ensures Valid()
      ensures States() == InsertAll(config, old(States()), ids, vectors, names)
      ensures so == InsertAnswer(config, old(States()), ids, vectors, names)
    {
      ghost var before := States();
      so := InsertEngines(ids, vectors, names);
      InsertTidies(config, before, ids, vectors, names, ToMap(registrar.coordinator.entries), registrar.registered);
    }

    method RegisterUnregistered()
      requires Valid()
      modifies registrar, registrar.coordinator
      ensures Valid() && States() == old(States())
      ensures OfShards(ToMap(registrar.coordinator.entries), numShards) == LocalEntries(AllSegments(States()))
      ensures registrar.coordinator.current >= old(registrar.coordinator.current)
    {
      ghost var entries, registered := ToMap(registrar.coordinator.entries), registrar.registered;
      AllSegmentsReady(config, States(), entries, registered);
      var segs := Segments();
      ReconcileAll(segs);
      RegisteredTidies(
        config, States(), entries, registered, ToMap(registrar.coordinator.entries), registrar.registered);
    }

    // Reconciling touches no engine.
    method ReconcileAll(segs: seq<Segment>)
      requires Up() && registrar.Ready(segs)
      modifies registrar, registrar.coordinator
      ensures Up() && States() == old(States()) && registrar.Ready(segs)
      ensures OfShards(ToMap(registrar.coordinator.entries), registrar.numShards) == LocalEntries(segs) <==>
              Tracked(ToMap(old(registrar.coordinator.entries)), old(registrar.registered), segs)
      ensures Tracked(ToMap(registrar.coordinator.entries), registrar.registered, segs) <==>
              Tracked(ToMap(old(registrar.coordinator.entries)), old(registrar.registered), segs)
      ensures registrar.coordinator.current >= old(registrar.coordinator.current)
    {
      registrar.Reconcile(segs);
    }

    method Delete(ids: seq<Id>) returns (r: Result<DeleteReply, EngineError>)
      requires Valid()
      modifies repr
      ensures Valid()
      ensures States() == DeleteFromAll(config, old(States()), ids)
      ensures r == DeleteOutcome(config, old(States()), ids)
    {
      ghost var before := States();
      var answer := DeleteEngines(ids);
      DeleteTidies(config, before, ids, ToMap(registrar.coordinator.entries), registrar.registered);
      if answer.None? {
        return Failure(Rejected);
      }
      var h := GetHealth();
      r := Success(DeleteReply(|ids|, answer.value, h.ntotal, h.walLsn));
    }

    method Segments() returns (all: seq<Segment>)
      requires Up()
      ensures all == AllSegments(States())
    {
      all := [];
      for i := 0 to |engines|
        invariant all == AllSegments(States()[..i])
      {
        assert States()[..i + 1][..i] == States()[..i];
        all := all + engines[i].segments;
      }
      assert States()[..|engines|] == States();
    }

    method GetHealth() returns (h: Health)
      requires Up()
      ensures h == TotalHealth(States(), Readers(engines, |engines|))
    {
      ghost var sts := States();
      h := Health(0, 0, 0, 0, 0);
      for i := 0 to |engines|
        invariant Counted(h, sts, i)
      {
        h := AddHealth(h, sts, i);
      }
      AllCounted(h, sts);
    }

    ghost predicate Counted(h: Health, sts: seq<Lsm>, i: nat)
      requires i <= |sts| == |engines|
      reads set e | e in engines :: e.snapshots
    {
      h == TotalHealth(sts[..i], Readers(engines, i))
    }

    lemma AllCounted(h: Health, sts: seq<Lsm>)
      requires |sts| == |engines| && Counted(h, sts, |sts|)
      ensures h == TotalHealth(sts, Readers(engines, |engines|))
    {
      assert sts[..|sts|] == sts;
    }

    method AddHealth(h: Health, ghost sts: seq<Lsm>, i: nat) returns (r: Health)
      requires Up() && sts == States() && i < |engines| && Counted(h, sts, i)
      ensures Counted(r, sts, i + 1)
    {
      HealthSnoc(sts, i, Readers(engines, i), Total(engines[i].snapshots.active));
      var one := engines[i].GetHealth();
      r := Plus(h, one);
    }

    lemma StillDurable()
      requires numShards == |engines| && numShards > 0 && format.dim == config.dim
      requires Owned(engines, tombFile, repr) && registrar !in repr && registrar.coordinator !in repr
      requires Apart(engines)
      requires forall i :: 0 <= i < |engines| ==> Serves(ForShard(config, i), format, engines[i])
      ensures Durable()
    {
    }

    // One engine inserts; the others see only what it left in the tombstone file.
    method InsertShard(s: nat, ids: seq<Id>, vectors: seq<Vec>, names: Names)
      returns (r: Result<InsertReply, EngineError>)
      requires Durable() && s < numShards && ShapeOk(config.dim, ids, vectors)
      modifies repr
      ensures Durable()
      ensures States() == Update(old(States()), s, InsertInto(config, old(States())[s], s, ids, vectors, names))
      ensures r == InsertResult(ForShard(config, s), old(States())[s], ids, vectors)
    {
      ghost var before := States();
      var e := engines[s];
      assert Serves(ForShard(config, s), format, e);
      r := e.Insert(ids, vectors, names(s).0, names(s).1);
      forall i | 0 <= i < |engines| && i != s
        ensures Serves(ForShard(config, i), format, engines[i])
        ensures engines[i].State() == before[i].(diskTombs := tombFile.ids)
      {
      }
      StillDurable();
      OneChanged(before, States(), s);
    }

    method DeleteShard(s: nat, ids: seq<Id>) returns (r: Result<nat, EngineError>)
      requires Durable() && s < numShards
      modifies repr
      ensures Durable()
      ensures States() == Update(old(States()), s, LsmModel.Delete(ForShard(config, s), old(States())[s], ids))
      ensures r == DeleteResult(old(States())[s], ids)
    {
      ghost var before := States();
      var e := engines[s];
      r := e.Delete(ids);
      forall i | 0 <= i < |engines| && i != s
        ensures Serves(ForShard(config, i), format, engines[i])
        ensures engines[i].State() == before[i].(diskTombs := tombFile.ids)
      {
      }
      StillDurable();
      OneChanged(before, States(), s);
    }

    method InsertEngines(ids: seq<Id>, vectors: seq<Vec>, names: Names) returns (so: Option<InsertReply>)
      requires Durable() && ShapeOk(config.dim, ids, vectors)
      modifies repr
      ensures Durable()
      ensures States() == InsertAll(config, old(States()), ids, vectors, names)
      ensures so == InsertAnswer(config, old(States()), ids, vectors, names)
    {
      if numShards == 1 {
        var r := InsertShard(0, ids, vectors, names);
        return if r.Success? then Some(r.value) else None;
      }
      var pairs := MemTables.Zip(ids, vectors);
      var groups := GroupBatch(pairs, PairShard(numShards));
      GroupsInRange(pairs, PairShard(numShards), numShards);
      PairGroupShapes(config.dim, ids, vectors, numShards);
      so := InsertLoop(groups, names);
    }

    method InsertLoop(groups: seq<(nat, seq<Pair>)>, names: Names) returns (so: Option<InsertReply>)
      requires Durable() && GroupsOk(config.dim, numShards, groups)
      modifies repr
      ensures Durable()
      ensures States() == InsertGroups(config, old(States()), groups, names)
      ensures so == GroupsReply(config, old(States()), groups, names, InsertReply(0, false))
    {
      var sum := InsertReply(0, false);
      for i := 0 to |groups|
        invariant Durable()
        invariant InsertGroups(config, States(), groups[i..], names)
               == InsertGroups(config, old(States()), groups, names)
        invariant GroupsReply(config, States(), groups[i..], names, sum)
               == GroupsReply(config, old(States()), groups, names, InsertReply(0, false))
      {
        var (s, g) := groups[i];
        assert groups[i..][1..] == groups[i + 1..];
        var r := InsertShard(s, Ids(g), Vectors(g), names);
        if r.Failure? {
          return None;
        }
        sum := Joined(sum, r.value);
      }
      return Some(sum);
    }

    method DeleteEngines(ids: seq<Id>) returns (so: Option<nat>)
      requires Durable()
      modifies repr
      ensures Durable()
      ensures States() == DeleteFromAll(config, old(States()), ids)
      ensures so == DeleteAnswer(config, old(States()), ids)
    {
      if numShards == 1 {
        var r := DeleteShard(0, ids);
        return if r.Success? then Some(r.value) else None;
      }
      var groups := GroupBatch(ids, IdShard(numShards));
      GroupsInRange(ids, IdShard(numShards), numShards);
      so := DeleteLoop(groups);
    }

    method DeleteLoop(groups: seq<(nat, seq<Id>)>) returns (so: Option<nat>)
      requires Durable() && ShardsBelow(numShards, groups)
      modifies repr
      ensures Durable()
      ensures States() == DeleteGroups(config, old(States()), groups)
      ensures so == DeletesReply(config, old(States()), groups, 0)
    {
      var lsn := 0;
      for i := 0 to |groups|
        invariant Durable()
        invariant DeleteGroups(config, States(), groups[i..]) == DeleteGroups(config, old(States()), groups)
        invariant DeletesReply(config, States(), groups[i..], lsn) == DeletesReply(config, old(States()), groups, 0)
      {
        var (s, g) := groups[i];
        assert groups[i..][1..] == groups[i + 1..];
        var r := DeleteShard(s, g);
        if r.Failure? {
          return None;
        }
        lsn := WriteAheadLog.Max(lsn, r.value);
      }
      return Some(lsn);
    }
  }

  ghost predicate ShardsBelow(n: nat, groups: seq<(nat, seq<Id>)>) {
    forall i :: 0 <= i < |groups| ==> groups[i].0 < n
  }

  ghost predicate GroupsOk(dim: nat, n: nat, groups: seq<(nat, seq<Pair>)>) {
    forall i :: 0 <= i < |groups| ==> groups[i].0 < n && ShapeOk(dim, Ids(groups[i].1), Vectors(groups[i].1))
  }

  lemma PairGroupShapes(dim: nat, ids: seq<Id>, vectors: seq<Vec>, n: nat)
    requires n > 0 && ShapeOk(dim, ids, vectors)
    ensures GroupsOk(dim, n, Grouped(MemTables.Zip(ids, vectors), PairShard(n)))
  {
    var pairs := MemTables.Zip(ids, vectors);
    var groups := Grouped(pairs, PairShard(n));
    GroupsInRange(pairs, PairShard(n), n);
    forall i | 0 <= i < |groups| ensures ShapeOk(dim, Ids(groups[i].1), Vectors(groups[i].1)) {
      GroupsAreShares(pairs, PairShard(n), i);
      var g := groups[i].1;
      ShareIsShort(pairs, PairShard(n), groups[i].0);
      forall j | 0 <= j < |g| ensures |Vectors(g)[j]| == dim {
        assert g[j] in g;
      }
    }
  }
}
