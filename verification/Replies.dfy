// What inserts and deletes answer, by what the batch and the engines hold: which LSN,
// and whether a segment was written.
module Replies {
  import opened Wrappers
  import opened WalCodec
  import opened Dicts
  import opened Segments
  import opened MemTables
  import opened LsmModel
  import opened LsmInvariants
  import opened Sharding
  import opened Pipeline

  // ---- one engine -------------------------------------------------------------------------

  // The memtable with the batch in it.
  ghost function EntriesWith(st: Lsm, ids: seq<Id>, vectors: seq<Vec>): map<Id, Entry> {
    ToMap(st.mem) + Lives(Written(Zip(ids, vectors)), st.lastLsn + 1)
  }

  // It holds live rows, and as many as the flush threshold; delete markers do not count.
  ghost predicate WritesSegment(c: Config, st: Lsm, ids: seq<Id>, vectors: seq<Vec>) {
    var live := LiveOf(EntriesWith(st, ids, vectors), None);
    live != map[] && |live| >= c.flushThreshold
  }

  lemma LiveFlushes(c: Config, st: Lsm)
    requires Layered(c, st)
    ensures var live := LiveOf(ToMap(st.mem), None);
            && (ShouldFlush(c, st) <==> |live| >= c.flushThreshold) && (Flushable(st) <==> live != map[])
  {
    var live := LiveOf(ToMap(st.mem), None);
    LiveCount(st.mem);
    MaxLsnIs(st.mem);
    if x :| x in live {
      assert ToMap(st.mem)[x].lsn > MaxSnap(st.segs);
    }
    LiveRowsAre(st.mem, None);
    assert live == map[] <==> |live| == 0;
  }

  lemma InsertedMem(c: Config, st: Lsm, ids: seq<Id>, vectors: seq<Vec>)
    requires Packable(st.lastLsn + 1, |ids|)
    ensures ToMap(InsertRows(c, st, ids, vectors).mem) == EntriesWith(st, ids, vectors)
  {
    InsertRowsFields(c, st, ids, vectors);
    InsertedEntries(st, ids, vectors);
  }

  // An insert is refused for its size alone. It answers with the LSN of its record, and
  // with a flush exactly if the live rows then buffered reach the threshold; the memtable
  // is empty afterwards exactly then, or if nothing was ever in it.
  lemma InsertFlushesIff(c: Config, st: Lsm, ids: seq<Id>, vectors: seq<Vec>, segId: string, mergedId: string)
    requires Layered(c, st)
    ensures var r := LsmEngine.InsertResult(c, st, ids, vectors);
            r.Success? <==> Packable(st.lastLsn + 1, |ids|)
    ensures Packable(st.lastLsn + 1, |ids|) ==>
              var r, after := LsmEngine.InsertResult(c, st, ids, vectors).value,
                              Insert(c, st, ids, vectors, segId, mergedId);
              var entries := EntriesWith(st, ids, vectors);
              && r.lsn == after.lastLsn == st.lastLsn + 1
              && (r.flushed <==> WritesSegment(c, st, ids, vectors))
              && (after.mem == [] <==> |LiveOf(entries, None)| >= c.flushThreshold || entries == map[])
  {
    if Packable(st.lastLsn + 1, |ids|) {
      var a := InsertRows(c, st, ids, vectors);
      InsertRowsLayered(c, st, ids, vectors);
      InsertRowsFields(c, st, ids, vectors);
      InsertedMem(c, st, ids, vectors);
      LiveFlushes(c, a);
      LsmRuns.FlushCounter(c, a, segId, mergedId);
      FlushEmpties(c, a, segId, mergedId);
      EmptyIff(a.mem);
    }
  }

  lemma FlushEmpties(c: Config, st: Lsm, segId: string, mergedId: string)
    requires Layered(c, st)
    ensures Flush(c, st, segId, mergedId).mem == []
  {
    LsmRuns.FlushMemCount(c, st, segId);
    var a := FlushMem(c, st, segId);
    assert LsmModel.Merge(c, a, mergedId).mem == a.mem;
  }

  lemma EmptyIff(mem: Entries)
    ensures mem == [] <==> ToMap(mem) == map[]
  {
    SizeIsLength(mem);
  }

  lemma DeleteReplyIs(c: Config, st: Lsm, ids: seq<Id>)
    ensures var r := LsmEngine.DeleteResult(st, ids);
            && (r.Success? <==> Packable(st.lastLsn + 1, |ids|))
            && (r.Success? ==> r.value == Delete(c, st, ids).lastLsn == st.lastLsn + 1)
  {
  }

  // The health report counts the logical map and the live buffered rows.
  lemma HealthIs(st: Lsm, readers: nat)
    ensures var h := LsmEngine.HealthOf(st, readers);
            && h.ntotal == |View(st)| && h.memtableSize == |LiveOf(ToMap(st.mem), None)|
  {
    LsmSearch.NtotalIsSize(st);
    LiveCount(st.mem);
  }

  // A flush that writes a segment saves the counter, so that a new process continues from
  // it even if rejected batches have used up LSNs.
  lemma FlushSavesCounter(c: Config, st: Lsm, segId: string, mergedId: string)
    requires Layered(c, st) && Flushable(st)
    ensures Restart(c, Flush(c, st, segId, mergedId)).lastLsn == st.lastLsn
  {
    var a := FlushMem(c, st, segId);
    assert a.meta == st.lastLsn;
    assert LsmModel.Merge(c, a, mergedId).meta == a.meta;
    FlushLayered(c, st, segId, mergedId);
    RestartFields(c, Flush(c, st, segId, mergedId));
  }

  // ---- several engines -----------------------------------------------------------------------

  // Shards that a batch reaches: the only one, or those some id falls on.
  ghost predicate Takes(n: nat, ids: seq<Id>, s: nat)
    requires n > 0
  {
    s < n && (n == 1 || exists x :: x in ids && x % n == s)
  }

  // What shard s takes of an insert.
  function PartOf(n: nat, ids: seq<Id>, vectors: seq<Vec>, s: nat): seq<Pair>
    requires n > 0
  {
    if n == 1 then Zip(ids, vectors) else Share(Zip(ids, vectors), PairShard(n), s)
  }

  ghost predicate ShardWrites(c: Config, sts: seq<Lsm>, ids: seq<Id>, vectors: seq<Vec>, s: nat)
    requires s < |sts|
  {
    var part := PartOf(|sts|, ids, vectors, s);
    WritesSegment(ForShard(c, s), sts[s], Ids(part), Vectors(part))
  }

  // On some shard that takes a part, that part fills a segment.
  ghost predicate SomeShardWrites(c: Config, sts: seq<Lsm>, ids: seq<Id>, vectors: seq<Vec>)
    requires sts != []
  {
    exists s: nat :: Takes(|sts|, ids, s) && ShardWrites(c, sts, ids, vectors, s)
  }

  // ---- the insert loop's answer -----------------------------------------------------------------

  ghost predicate GroupWrites(c: Config, sts: seq<Lsm>, group: (nat, seq<Pair>))
    requires group.0 < |sts|
  {
    WritesSegment(ForShard(c, group.0), sts[group.0], Ids(group.1), Vectors(group.1))
  }

  ghost predicate ShardsExist<T>(sts: seq<Lsm>, groups: seq<(nat, seq<T>)>) {
    forall i :: 0 <= i < |groups| ==> groups[i].0 < |sts|
  }

  // The largest of lsn and the LSNs that the groups' engines assign.
  ghost predicate LargestOf<T>(sts: seq<Lsm>, groups: seq<(nat, seq<T>)>, lsn: nat, r: nat)
    requires ShardsExist(sts, groups)
  {
    && lsn <= r && (forall i :: 0 <= i < |groups| ==> sts[groups[i].0].lastLsn + 1 <= r)
    && (r == lsn || exists i :: 0 <= i < |groups| && r == sts[groups[i].0].lastLsn + 1)
  }

  ghost predicate SomeWrites(c: Config, sts: seq<Lsm>, groups: seq<(nat, seq<Pair>)>)
    requires ShardsExist(sts, groups)
  {
    exists i :: 0 <= i < |groups| && GroupWrites(c, sts, groups[i])
  }

  // The later groups' engines are as before but for the tombstone file.
  ghost predicate LaterSame<T>(sts: seq<Lsm>, next: seq<Lsm>, groups: seq<(nat, seq<T>)>)
    requires |next| == |sts| && ShardsExist(sts, groups)
  {
    forall i :: 0 < i < |groups| ==> SameButFile(next[groups[i].0], sts[groups[i].0])
  }

  lemma UpdateLeavesLater<T>(sts: seq<Lsm>, groups: Dict<nat, seq<T>>, after: Lsm)
    requires groups != [] && ShardsExist(sts, groups)
    ensures var next := Update(sts, groups[0].0, after);
            ShardsExist(next, groups[1..]) && LaterSame(sts, next, groups)
  {
    forall i | 0 < i < |groups| ensures groups[i].0 != groups[0].0 {
      DistinctAt(groups, 0, i);
    }
  }

  lemma LargestStep<T>(sts: seq<Lsm>, next: seq<Lsm>, groups: seq<(nat, seq<T>)>, lsn: nat, first: nat, r: nat)
    requires groups != [] && |next| == |sts| && ShardsExist(sts, groups) && ShardsExist(next, groups[1..])
    requires LaterSame(sts, next, groups) && first == sts[groups[0].0].lastLsn + 1
    requires LargestOf(next, groups[1..], WriteAheadLog.Max(lsn, first), r)
    ensures LargestOf(sts, groups, lsn, r)
  {
    forall i | 0 <= i < |groups| ensures sts[groups[i].0].lastLsn + 1 <= r {
      if i > 0 {
        assert groups[1..][i - 1] == groups[i];
        assert SameButFile(next[groups[i].0], sts[groups[i].0]);
      }
    }
    if r != WriteAheadLog.Max(lsn, first) {
      var i :| 0 <= i < |groups[1..]| && r == next[groups[1..][i].0].lastLsn + 1;
      assert groups[1..][i] == groups[i + 1] && SameButFile(next[groups[i + 1].0], sts[groups[i + 1].0]);
    } else if r != lsn {
      assert r == sts[groups[0].0].lastLsn + 1;
    }
  }

  lemma SameGroupWrites(c: Config, sts: seq<Lsm>, next: seq<Lsm>, group: (nat, seq<Pair>))
    requires group.0 < |sts| == |next| && SameButFile(next[group.0], sts[group.0])
    ensures GroupWrites(c, next, group) <==> GroupWrites(c, sts, group)
  {
  }

  lemma WritesStep(c: Config, sts: seq<Lsm>, next: seq<Lsm>, groups: seq<(nat, seq<Pair>)>)
    requires groups != [] && |next| == |sts| && ShardsExist(sts, groups) && ShardsExist(next, groups[1..])
    requires LaterSame(sts, next, groups)
    ensures SomeWrites(c, sts, groups) <==> GroupWrites(c, sts, groups[0]) || SomeWrites(c, next, groups[1..])
  {
    forall i | 0 < i < |groups| ensures GroupWrites(c, next, groups[1..][i - 1]) <==> GroupWrites(c, sts, groups[i]) {
      assert groups[1..][i - 1] == groups[i] && SameButFile(next[groups[i].0], sts[groups[i].0]);
      SameGroupWrites(c, sts, next, groups[i]);
    }
    if SomeWrites(c, sts, groups) && !GroupWrites(c, sts, groups[0]) {
      var i :| 0 <= i < |groups| && GroupWrites(c, sts, groups[i]);
      assert GroupWrites(c, next, groups[1..][i - 1]);
    }
    if SomeWrites(c, next, groups[1..]) {
      var i :| 0 <= i < |groups[1..]| && GroupWrites(c, next, groups[1..][i]);
      assert GroupWrites(c, sts, groups[i + 1]);
    }
  }

  lemma FitsStep<T>(sts: seq<Lsm>, next: seq<Lsm>, groups: seq<(nat, seq<T>)>)
    requires groups != [] && |next| == |sts| && ShardsExist(sts, groups) && ShardsExist(next, groups[1..])
    requires LaterSame(sts, next, groups)
    ensures GroupsFit(sts, groups) <==>
            Packable(sts[groups[0].0].lastLsn + 1, |groups[0].1|) && GroupsFit(next, groups[1..])
  {
    forall i | 0 < i < |groups|
      ensures groups[1..][i - 1] == groups[i] && next[groups[i].0].lastLsn == sts[groups[i].0].lastLsn
    {
      assert SameButFile(next[groups[i].0], sts[groups[i].0]);
    }
    if GroupsFit(next, groups[1..]) && Packable(sts[groups[0].0].lastLsn + 1, |groups[0].1|) {
      forall i | 0 <= i < |groups| ensures Packable(sts[groups[i].0].lastLsn + 1, |groups[i].1|) {
        assert i > 0 ==> groups[1..][i - 1] == groups[i];
      }
    }
  }

  ghost predicate GroupsLayered<T>(c: Config, sts: seq<Lsm>, groups: seq<(nat, seq<T>)>)
    requires ShardsExist(sts, groups)
  {
    forall i :: 0 <= i < |groups| ==> Layered(ForShard(c, groups[i].0), sts[groups[i].0])
  }

  lemma LayeredStep<T>(c: Config, sts: seq<Lsm>, next: seq<Lsm>, groups: seq<(nat, seq<T>)>)
    requires groups != [] && |next| == |sts| && ShardsExist(sts, groups) && ShardsExist(next, groups[1..])
    requires LaterSame(sts, next, groups) && GroupsLayered(c, sts, groups)
    ensures GroupsLayered(c, next, groups[1..])
  {
    forall i | 0 < i < |groups| ensures Layered(ForShard(c, groups[i].0), next[groups[1..][i - 1].0]) {
      assert groups[1..][i - 1] == groups[i] && SameButFile(next[groups[i].0], sts[groups[i].0]);
    }
  }

  lemma {:induction false} GroupsReplyIs(c: Config, sts: seq<Lsm>, groups: Dict<nat, seq<Pair>>, names: Names,
      so: LsmEngine.InsertReply)
    requires ShardsExist(sts, groups) && GroupsLayered(c, sts, groups)
    ensures var r := GroupsReply(c, sts, groups, names, so);
            && (r.Some? <==> GroupsFit(sts, groups))
            && (r.Some? ==> LargestOf(sts, groups, so.lsn, r.value.lsn) &&
                            (r.value.flushed <==> so.flushed || SomeWrites(c, sts, groups)))
    decreases |groups|
  {
    if groups != [] {
      var (s, g) := groups[0];
      var first := LsmEngine.InsertResult(ForShard(c, s), sts[s], Ids(g), Vectors(g));
      var after := InsertInto(c, sts[s], s, Ids(g), Vectors(g), names);
      var next := Update(sts, s, after);
      FirstAnswer(c, sts, groups[0]);
      UpdateLeavesLater(sts, groups, after);
      FitsStep(sts, next, groups);
      if first.Success? {
        var sum := Joined(so, first.value);
        LayeredStep(c, sts, next, groups);
        GroupsReplyIs(c, next, groups[1..], names, sum);
        GroupsReplyTail(c, sts, next, groups, names, so, sum);
        JoinedStep(c, sts, next, groups, so, first.value, sum, GroupsReply(c, next, groups[1..], names, sum));
      }
    }
  }

  lemma GroupsReplyTail(c: Config, sts: seq<Lsm>, next: seq<Lsm>, groups: seq<(nat, seq<Pair>)>, names: Names,
      so: LsmEngine.InsertReply, sum: LsmEngine.InsertReply)
    requires groups != [] && |next| == |sts| && ShardsExist(sts, groups) && ShardsExist(next, groups[1..])
    requires var (s, g) := groups[0];
             var first := LsmEngine.InsertResult(ForShard(c, s), sts[s], Ids(g), Vectors(g));
             && first.Success? && sum == Joined(so, first.value)
             && next == Update(sts, s, InsertInto(c, sts[s], s, Ids(g), Vectors(g), names))
    ensures GroupsReply(c, sts, groups, names, so) == GroupsReply(c, next, groups[1..], names, sum)
  {
  }

  lemma FirstAnswer(c: Config, sts: seq<Lsm>, group: (nat, seq<Pair>))
    requires group.0 < |sts| && Layered(ForShard(c, group.0), sts[group.0])
    ensures var (s, g) := group;
            var r := LsmEngine.InsertResult(ForShard(c, s), sts[s], Ids(g), Vectors(g));
            && (r.Success? <==> Packable(sts[s].lastLsn + 1, |g|))
            && (r.Success? ==> r.value.lsn == sts[s].lastLsn + 1 && (r.value.flushed <==> GroupWrites(c, sts, group)))
  {
    var (s, g) := group;
    InsertFlushesIff(ForShard(c, s), sts[s], Ids(g), Vectors(g), "", "");
  }

  lemma JoinedStep(c: Config, sts: seq<Lsm>, next: seq<Lsm>, groups: seq<(nat, seq<Pair>)>, so: LsmEngine.InsertReply,
      first: LsmEngine.InsertReply, sum: LsmEngine.InsertReply, r: Option<LsmEngine.InsertReply>)
    requires groups != [] && |next| == |sts| && ShardsExist(sts, groups) && ShardsExist(next, groups[1..])
    requires LaterSame(sts, next, groups) && first.lsn == sts[groups[0].0].lastLsn + 1
    requires (first.flushed <==> GroupWrites(c, sts, groups[0])) && sum == Joined(so, first)
    requires r.Some? ==> LargestOf(next, groups[1..], sum.lsn, r.value.lsn) &&
                         (r.value.flushed <==> sum.flushed || SomeWrites(c, next, groups[1..]))
    ensures r.Some? ==> LargestOf(sts, groups, so.lsn, r.value.lsn) &&
                        (r.value.flushed <==> so.flushed || SomeWrites(c, sts, groups))
  {
    if r.Some? {
      LargestStep(sts, next, groups, so.lsn, first.lsn, r.value.lsn);
      WritesStep(c, sts, next, groups);
    }
  }

  lemma {:induction false} DeletesReplyIs(c: Config, sts: seq<Lsm>, groups: Dict<nat, seq<Id>>, lsn: nat)
    requires ShardsExist(sts, groups)
    ensures var r := DeletesReply(c, sts, groups, lsn);
            && (r.Some? <==> GroupsFit(sts, groups)) && (r.Some? ==> LargestOf(sts, groups, lsn, r.value))
    decreases |groups|
  {
    if groups != [] {
      var (s, g) := groups[0];
      var first, after := LsmEngine.DeleteResult(sts[s], g), Delete(ForShard(c, s), sts[s], g);
      var next := Update(sts, s, after);
      DeleteReplyIs(ForShard(c, s), sts[s], g);
      UpdateLeavesLater(sts, groups, after);
      FitsStep(sts, next, groups);
      if first.Success? {
        var more := WriteAheadLog.Max(lsn, first.value);
        DeletesReplyIs(c, next, groups[1..], more);
        var r := DeletesReply(c, next, groups[1..], more);
        if r.Some? {
          LargestStep(sts, next, groups, lsn, first.value, r.value);
        }
      }
    }
  }

  // ---- whole batches --------------------------------------------------------------------------------

  // The shards that take a share are those with a group, and the group is the share.
  lemma TakenPart(n: nat, ids: seq<Id>, vectors: seq<Vec>, s: nat)
    requires n > 1 && |ids| == |vectors| && s < n
    ensures var groups := Grouped(Zip(ids, vectors), PairShard(n));
            && (Takes(n, ids, s) <==> s in ToMap(groups))
            && (s in ToMap(groups) ==> ToMap(groups)[s] == PartOf(n, ids, vectors, s))
  {
    var pairs := Zip(ids, vectors);
    GroupedShards(pairs, PairShard(n), s);
    GroupIsShare(pairs, PairShard(n), s);
    if x :| x in ids && x % n == s {
      var i :| 0 <= i < |ids| && ids[i] == x;
      assert PairShard(n)(pairs[i]) == s;
    }
    if i :| 0 <= i < |pairs| && PairShard(n)(pairs[i]) == s {
      assert ids[i] in ids;
    }
  }

  lemma TakenIds(n: nat, ids: seq<Id>, s: nat)
    requires n > 1 && s < n
    ensures var groups := Grouped(ids, IdShard(n));
            && (Takes(n, ids, s) <==> s in ToMap(groups))
            && (s in ToMap(groups) ==> ToMap(groups)[s] == Share(ids, IdShard(n), s))
  {
    GroupedShards(ids, IdShard(n), s);
    GroupIsShare(ids, IdShard(n), s);
    if x :| x in ids && x % n == s {
      var i :| 0 <= i < |ids| && ids[i] == x;
      assert IdShard(n)(ids[i]) == s;
    }
    if i :| 0 <= i < |ids| && IdShard(n)(ids[i]) == s {
      assert ids[i] in ids;
    }
  }

  // lsn is the largest that a shard taking part has reached; 0 if none takes part.
  ghost predicate LargestLsn(after: seq<Lsm>, ids: seq<Id>, lsn: nat)
    requires after != []
  {
    && (forall s: nat :: Takes(|after|, ids, s) ==> after[s].lastLsn <= lsn)
    && ((exists s: nat :: Takes(|after|, ids, s) && lsn == after[s].lastLsn) || (|after| > 1 && ids == [] && lsn == 0))
  }

  // Among the groups' engines, each of which has moved on by one.
  lemma LargestOfGroups<T>(sts: seq<Lsm>, after: seq<Lsm>, ids: seq<Id>, groups: Dict<nat, seq<T>>, r: nat)
    requires |after| == |sts| > 1 && ShardsExist(sts, groups) && LargestOf(sts, groups, 0, r)
    requires forall s :: 0 <= s < |sts| ==> (Takes(|sts|, ids, s) <==> s in ToMap(groups))
    requires forall i :: 0 <= i < |groups| ==> after[groups[i].0].lastLsn == sts[groups[i].0].lastLsn + 1
    ensures LargestLsn(after, ids, r)
  {
    forall s: nat | Takes(|after|, ids, s) ensures after[s].lastLsn <= r {
      var i := IndexFor(groups, s);
      assert groups[i].0 == s;
    }
    if ids != [] {
      var s: nat := ids[0] % |after|;
      assert ids[0] in ids && Takes(|after|, ids, s);
      var i := IndexFor(groups, s);
      assert groups[i].0 == s;
    }
    if i :| 0 <= i < |groups| && r == sts[groups[i].0].lastLsn + 1 {
      EntryAt(groups, i);
      assert Takes(|after|, ids, groups[i].0) && r == after[groups[i].0].lastLsn;
    }
  }

  // Each taking part, by one record.
  lemma InsertedCounters(c: Config, sts: seq<Lsm>, groups: Dict<nat, seq<Pair>>, names: Names, i: nat)
    requires GroupsFit(sts, groups) && i < |groups|
    ensures InsertGroups(c, sts, groups, names)[groups[i].0].lastLsn == sts[groups[i].0].lastLsn + 1
  {
    var (s, g) := groups[i];
    EntryAt(groups, i);
    InsertGroupsAt(c, sts, groups, names, s);
    InsertCounter(ForShard(c, s), sts[s], Ids(g), Vectors(g), names(s).0, names(s).1);
  }

  lemma InsertCounter(c: Config, st: Lsm, ids: seq<Id>, vectors: seq<Vec>, segId: string, mergedId: string)
    ensures Insert(c, st, ids, vectors, segId, mergedId).lastLsn == st.lastLsn + 1
  {
    LsmRuns.FlushCounter(c, InsertRows(c, st, ids, vectors), segId, mergedId);
  }

  lemma DeletedCounters(c: Config, sts: seq<Lsm>, groups: Dict<nat, seq<Id>>, i: nat)
    requires GroupsFit(sts, groups) && i < |groups|
    ensures DeleteGroups(c, sts, groups)[groups[i].0].lastLsn == sts[groups[i].0].lastLsn + 1
  {
    EntryAt(groups, i);
    DeleteGroupsAt(c, sts, groups, groups[i].0);
  }

  // No shard refuses its part.
  ghost predicate AllAccept(sts: seq<Lsm>, ids: seq<Id>, vectors: seq<Vec>)
    requires sts != []
  {
    forall s: nat :: Takes(|sts|, ids, s) ==> Packable(sts[s].lastLsn + 1, |PartOf(|sts|, ids, vectors, s)|)
  }

  ghost predicate AllAcceptDelete(sts: seq<Lsm>, ids: seq<Id>)
    requires sts != []
  {
    forall s: nat :: Takes(|sts|, ids, s) ==>
                       Packable(sts[s].lastLsn + 1, if |sts| == 1 then |ids| else |Share(ids, IdShard(|sts|), s)|)
  }

  lemma AcceptIsFit(sts: seq<Lsm>, ids: seq<Id>, vectors: seq<Vec>)
    requires |sts| > 1 && |ids| == |vectors|
    ensures var groups := Grouped(Zip(ids, vectors), PairShard(|sts|));
            ShardsExist(sts, groups) && (GroupsFit(sts, groups) <==> AllAccept(sts, ids, vectors))
  {
    var n, groups := |sts|, Grouped(Zip(ids, vectors), PairShard(|sts|));
    GroupsInRange(Zip(ids, vectors), PairShard(n), n);
    forall i | 0 <= i < |groups|
      ensures Takes(n, ids, groups[i].0) && groups[i].1 == PartOf(n, ids, vectors, groups[i].0)
    {
      EntryAt(groups, i);
      TakenPart(n, ids, vectors, groups[i].0);
    }
    if GroupsFit(sts, groups) {
      forall s: nat | Takes(n, ids, s) ensures Packable(sts[s].lastLsn + 1, |PartOf(n, ids, vectors, s)|) {
        TakenPart(n, ids, vectors, s);
        var i := IndexFor(groups, s);
        assert groups[i].0 == s;
      }
    }
  }

  lemma SomeGroupWrites(c: Config, sts: seq<Lsm>, ids: seq<Id>, vectors: seq<Vec>)
    requires |sts| > 1 && |ids| == |vectors|
    requires ShardsExist(sts, Grouped(Zip(ids, vectors), PairShard(|sts|)))
    ensures SomeWrites(c, sts, Grouped(Zip(ids, vectors), PairShard(|sts|))) <==>
            SomeShardWrites(c, sts, ids, vectors)
  {
    var n, groups := |sts|, Grouped(Zip(ids, vectors), PairShard(|sts|));
    if i :| 0 <= i < |groups| && GroupWrites(c, sts, groups[i]) {
      EntryAt(groups, i);
      TakenPart(n, ids, vectors, groups[i].0);
      assert Takes(n, ids, groups[i].0) && ShardWrites(c, sts, ids, vectors, groups[i].0);
    }
    if s: nat :| Takes(n, ids, s) && ShardWrites(c, sts, ids, vectors, s) {
      TakenPart(n, ids, vectors, s);
      var i := IndexFor(groups, s);
      assert GroupWrites(c, sts, groups[i]);
    }
  }

  lemma SeveralReply(c: Config, sts: seq<Lsm>, ids: seq<Id>, vectors: seq<Vec>, names: Names)
    requires |sts| > 1 && ShapeOk(c.dim, ids, vectors) && AllLayered(c, sts)
    ensures var answer, after := InsertAnswer(c, sts, ids, vectors, names), InsertAll(c, sts, ids, vectors, names);
            && (answer.Some? <==> AllAccept(sts, ids, vectors))
            && (answer.Some? ==>
                  && LargestLsn(after, ids, answer.value.lsn)
                  && (answer.value.flushed <==> SomeShardWrites(c, sts, ids, vectors)))
  {
    var n, groups := |sts|, Grouped(Zip(ids, vectors), PairShard(|sts|));
    var none := LsmEngine.InsertReply(0, false);
    AcceptIsFit(sts, ids, vectors);
    GroupsReplyIs(c, sts, groups, names, none);
    SomeGroupWrites(c, sts, ids, vectors);
    if GroupsFit(sts, groups) {
      forall i | 0 <= i < |groups|
        ensures InsertGroups(c, sts, groups, names)[groups[i].0].lastLsn == sts[groups[i].0].lastLsn + 1
      {
        InsertedCounters(c, sts, groups, names, i);
      }
      forall s | 0 <= s < n ensures Takes(n, ids, s) <==> s in ToMap(groups) {
        TakenPart(n, ids, vectors, s);
      }
      LargestOfGroups(sts, InsertGroups(c, sts, groups, names), ids, groups,
                      GroupsReply(c, sts, groups, names, none).value.lsn);
    }
  }

  lemma SingleReply(c: Config, sts: seq<Lsm>, ids: seq<Id>, vectors: seq<Vec>, names: Names)
    requires |sts| == 1 && ShapeOk(c.dim, ids, vectors) && AllLayered(c, sts)
    ensures var answer, after := InsertAnswer(c, sts, ids, vectors, names), InsertAll(c, sts, ids, vectors, names);
            && (answer.Some? <==> AllAccept(sts, ids, vectors))
            && (answer.Some? ==>
                  && LargestLsn(after, ids, answer.value.lsn)
                  && (answer.value.flushed <==> SomeShardWrites(c, sts, ids, vectors)))
  {
    SinglePart(c, sts, ids, vectors);
    InsertFlushesIff(ForShard(c, 0), sts[0], ids, vectors, names(0).0, names(0).1);
    SingleLargest(InsertAll(c, sts, ids, vectors, names), ids);
  }

  lemma SinglePart(c: Config, sts: seq<Lsm>, ids: seq<Id>, vectors: seq<Vec>)
    requires |sts| == 1 && |ids| == |vectors|
    ensures AllAccept(sts, ids, vectors) <==> Packable(sts[0].lastLsn + 1, |ids|)
    ensures SomeShardWrites(c, sts, ids, vectors) <==> WritesSegment(ForShard(c, 0), sts[0], ids, vectors)
  {
    var part := PartOf(1, ids, vectors, 0);
    assert Ids(part) == ids && Vectors(part) == vectors;
    assert Takes(1, ids, 0);
    assert ShardWrites(c, sts, ids, vectors, 0) <==> WritesSegment(ForShard(c, 0), sts[0], ids, vectors);
  }

  lemma SingleLargest(after: seq<Lsm>, ids: seq<Id>)
    requires |after| == 1
    ensures LargestLsn(after, ids, after[0].lastLsn)
  {
    assert Takes(1, ids, 0);
  }

  // The largest LSN of all engines.
  ghost predicate IsTopLsn(sts: seq<Lsm>, lsn: nat) {
    && (forall s :: 0 <= s < |sts| ==> sts[s].lastLsn <= lsn)
    && exists s :: 0 <= s < |sts| && sts[s].lastLsn == lsn
  }

  // The `wal_lsn` of every reply.
  lemma {:induction false} TopLsnIs(sts: seq<Lsm>)
    ensures sts != [] ==> IsTopLsn(sts, TopLsn(sts))
  {
    if sts != [] {
      var n := |sts| - 1;
      TopLsnIs(sts[..n]);
      forall s | 0 <= s < n ensures sts[s].lastLsn <= TopLsn(sts[..n]) {
        assert sts[..n][s] == sts[s];
      }
      if sts[n].lastLsn < TopLsn(sts[..n]) {
        var s :| 0 <= s < n && sts[..n][s].lastLsn == TopLsn(sts[..n]);
        assert sts[s].lastLsn == TopLsn(sts);
      } else {
        assert sts[n].lastLsn == TopLsn(sts);
      }
    }
  }

  // What the writer answers to a well-shaped insert, for any number of shards: it succeeds
  // if no shard refuses its part, with the largest LSN that a shard taking part has then
  // reached, and with a flush exactly if on some of them the part fills a segment.
  lemma InsertReplyIs(c: Config, sts: seq<Lsm>, ids: seq<Id>, vectors: seq<Vec>, names: Names)
    requires sts != [] && ShapeOk(c.dim, ids, vectors) && AllLayered(c, sts)
    ensures var r, after := InsertOutcome(c, sts, ids, vectors, names), InsertAll(c, sts, ids, vectors, names);
            && (r.Success? <==> AllAccept(sts, ids, vectors))
            && (r.Success? ==>
                  && r.value.inserted == |ids| && LargestLsn(after, ids, r.value.lsn)
                  && IsTopLsn(after, r.value.walLsn)
                  && r.value.ntotal == TotalCount(after) && r.value.segments == |AllSegments(after)|
                  && (r.value.flushed <==> SomeShardWrites(c, sts, ids, vectors)))
  {
    TopLsnIs(InsertAll(c, sts, ids, vectors, names));
    if |sts| == 1 {
      SingleReply(c, sts, ids, vectors, names);
    } else {
      SeveralReply(c, sts, ids, vectors, names);
    }
  }

  // What it answers to a delete: the largest LSN that a shard some id falls on has reached.
  lemma DeleteReplyIsLargest(c: Config, sts: seq<Lsm>, ids: seq<Id>)
    requires sts != []
    ensures var r, after := DeleteOutcome(c, sts, ids), DeleteFromAll(c, sts, ids);
            && (r.Success? <==> AllAcceptDelete(sts, ids))
            && (r.Success? ==>
                  && r.value.deleted == |ids| && LargestLsn(after, ids, r.value.lsn)
                  && IsTopLsn(after, r.value.walLsn) && r.value.ntotal == TotalCount(after))
  {
    TopLsnIs(DeleteFromAll(c, sts, ids));
    var n := |sts|;
    if n == 1 {
      DeleteReplyIs(ForShard(c, 0), sts[0], ids);
      assert Takes(1, ids, 0);
      SingleLargest(DeleteFromAll(c, sts, ids), ids);
    } else {
      SeveralDeleted(c, sts, ids);
    }
  }

  lemma DeleteFits(sts: seq<Lsm>, ids: seq<Id>)
    requires |sts| > 1
    ensures var groups := Grouped(ids, IdShard(|sts|));
            && ShardsExist(sts, groups)
            && (GroupsFit(sts, groups) <==> AllAcceptDelete(sts, ids))
  {
    var n, groups := |sts|, Grouped(ids, IdShard(|sts|));
    GroupsInRange(ids, IdShard(n), n);
    forall i | 0 <= i < |groups|
      ensures Takes(n, ids, groups[i].0) && groups[i].1 == Share(ids, IdShard(n), groups[i].0)
    {
      EntryAt(groups, i);
      TakenIds(n, ids, groups[i].0);
    }
    if GroupsFit(sts, groups) {
      forall s: nat | Takes(n, ids, s) ensures Packable(sts[s].lastLsn + 1, |Share(ids, IdShard(n), s)|) {
        TakenIds(n, ids, s);
        var i := IndexFor(groups, s);
        assert groups[i].0 == s;
      }
    }
  }

  lemma SeveralDeleted(c: Config, sts: seq<Lsm>, ids: seq<Id>)
    requires |sts| > 1
    ensures var answer, after := DeleteAnswer(c, sts, ids), DeleteFromAll(c, sts, ids);
            && (answer.Some? <==> AllAcceptDelete(sts, ids))
            && (answer.Some? ==> LargestLsn(after, ids, answer.value))
  {
    var n, groups := |sts|, Grouped(ids, IdShard(|sts|));
    DeleteFits(sts, ids);
    DeletesReplyIs(c, sts, groups, 0);
    if GroupsFit(sts, groups) {
      forall i | 0 <= i < |groups|
        ensures DeleteGroups(c, sts, groups)[groups[i].0].lastLsn == sts[groups[i].0].lastLsn + 1
      {
        DeletedCounters(c, sts, groups, i);
      }
      forall s | 0 <= s < n ensures Takes(n, ids, s) <==> s in ToMap(groups) {
        TakenIds(n, ids, s);
      }
      LargestOfGroups(sts, DeleteGroups(c, sts, groups), ids, groups, DeletesReply(c, sts, groups, 0).value);
    }
  }

  // ---- a refused batch -------------------------------------------------------------------------------

  // No group before r is refused, group r is.
  ghost predicate FirstRefused<T>(sts: seq<Lsm>, groups: seq<(nat, seq<T>)>, r: nat)
    requires ShardsExist(sts, groups) && r < |groups|
  {
    && (forall j :: 0 <= j < r ==> Packable(sts[groups[j].0].lastLsn + 1, |groups[j].1|))
    && !Packable(sts[groups[r].0].lastLsn + 1, |groups[r].1|)
  }

  lemma NextRefused<T>(sts: seq<Lsm>, next: seq<Lsm>, groups: seq<(nat, seq<T>)>, r: nat)
    requires 0 < r < |groups| && |next| == |sts| && ShardsExist(sts, groups) && ShardsExist(next, groups[1..])
    requires LaterSame(sts, next, groups) && FirstRefused(sts, groups, r)
    ensures FirstRefused(next, groups[1..], r - 1)
  {
    forall j | 0 < j < |groups|
      ensures groups[1..][j - 1] == groups[j] && next[groups[j].0].lastLsn == sts[groups[j].0].lastLsn
    {
      assert SameButFile(next[groups[j].0], sts[groups[j].0]);
    }
    forall j | 0 <= j < r - 1 ensures Packable(next[groups[1..][j].0].lastLsn + 1, |groups[1..][j].1|) {
      assert groups[1..][j] == groups[j + 1];
    }
  }

  // An engine that has refused a batch: only its counter has moved on.
  function Refused(sts: seq<Lsm>, s: nat): seq<Lsm>
    requires s < |sts|
  {
    Update(sts, s, sts[s].(lastLsn := sts[s].lastLsn + 1))
  }

  lemma RefusedFirst(c: Config, sts: seq<Lsm>, groups: seq<(nat, seq<Pair>)>, names: Names)
    requires groups != [] && ShardsExist(sts, groups) && FirstRefused(sts, groups, 0)
    ensures InsertGroups(c, sts, groups, names) == Refused(sts, groups[0].0)
  {
    var (s, g) := groups[0];
    assert InsertInto(c, sts[s], s, Ids(g), Vectors(g), names) == sts[s].(lastLsn := sts[s].lastLsn + 1);
  }

  // The insert loop stops at the first engine that refuses: those before it keep their
  // parts, those after it are not asked.
  lemma {:induction false} RefusalStops(c: Config, sts: seq<Lsm>, groups: Dict<nat, seq<Pair>>, names: Names, r: nat)
    requires ShardsExist(sts, groups) && r < |groups| && FirstRefused(sts, groups, r)
    ensures InsertGroups(c, sts, groups, names) == Refused(InsertGroups(c, sts, groups[..r], names), groups[r].0)
    decreases |groups|
  {
    if r == 0 {
      RefusedFirst(c, sts, groups, names);
    } else {
      var next, rest := AfterFirst(c, sts, groups, names);
      NextRefused(sts, next, groups, r);
      RefusalStops(c, next, rest, names, r - 1);
      RefusedLater(c, sts, next, groups, names, r);
    }
  }

  lemma RefusedLater(c: Config, sts: seq<Lsm>, next: seq<Lsm>, groups: seq<(nat, seq<Pair>)>, names: Names, r: nat)
    requires 0 < r < |groups| && |next| == |sts| && ShardsExist(sts, groups) && ShardsExist(next, groups[1..])
    requires var (s, g) := groups[0];
             && Packable(sts[s].lastLsn + 1, |g|)
             && next == Update(sts, s, InsertInto(c, sts[s], s, Ids(g), Vectors(g), names))
    requires InsertGroups(c, next, groups[1..], names)
          == Refused(InsertGroups(c, next, groups[1..][..r - 1], names), groups[1..][r - 1].0)
    ensures InsertGroups(c, sts, groups, names) == Refused(InsertGroups(c, sts, groups[..r], names), groups[r].0)
  {
    InsertGroupsTail(c, sts, next, groups, names);
    RefusalTail(c, sts, next, groups, names, r);
  }

  lemma RefusalTail(c: Config, sts: seq<Lsm>, next: seq<Lsm>, groups: seq<(nat, seq<Pair>)>, names: Names, r: nat)
    requires 0 < r < |groups| && |next| == |sts| && ShardsExist(sts, groups) && ShardsExist(next, groups[1..])
    requires var (s, g) := groups[0];
             && Packable(sts[s].lastLsn + 1, |g|)
             && next == Update(sts, s, InsertInto(c, sts[s], s, Ids(g), Vectors(g), names))
    ensures InsertGroups(c, sts, groups[..r], names) == InsertGroups(c, next, groups[1..][..r - 1], names)
  {
    assert groups[..r][1..] == groups[1..][..r - 1];
    InsertGroupsTail(c, sts, next, groups[..r], names);
  }

  // The engines after the first group, when it is not refused.
  lemma AfterFirst(c: Config, sts: seq<Lsm>, groups: Dict<nat, seq<Pair>>, names: Names)
    returns (next: seq<Lsm>, rest: Dict<nat, seq<Pair>>)
    requires groups != [] && ShardsExist(sts, groups) && Packable(sts[groups[0].0].lastLsn + 1, |groups[0].1|)
    ensures rest == groups[1..] && |next| == |sts| && ShardsExist(next, groups[1..]) && LaterSame(sts, next, groups)
    ensures var (s, g) := groups[0]; next == Update(sts, s, InsertInto(c, sts[s], s, Ids(g), Vectors(g), names))
  {
    var (t, h) := groups[0];
    var st := InsertInto(c, sts[t], t, Ids(h), Vectors(h), names);
    next, rest := Update(sts, t, st), groups[1..];
    UpdateLeavesLater(sts, groups, st);
  }

  lemma InsertGroupsTail(c: Config, sts: seq<Lsm>, next: seq<Lsm>, groups: seq<(nat, seq<Pair>)>, names: Names)
    requires groups != [] && |next| == |sts| && ShardsExist(sts, groups) && ShardsExist(next, groups[1..])
    requires var (s, g) := groups[0];
             && Packable(sts[s].lastLsn + 1, |g|)
             && next == Update(sts, s, InsertInto(c, sts[s], s, Ids(g), Vectors(g), names))
    ensures InsertGroups(c, sts, groups, names) == InsertGroups(c, next, groups[1..], names)
  {
  }

  // So does the delete loop.
  lemma {:induction false} DeleteRefusalStops(c: Config, sts: seq<Lsm>, groups: Dict<nat, seq<Id>>, r: nat)
    requires ShardsExist(sts, groups) && r < |groups| && FirstRefused(sts, groups, r)
    ensures DeleteGroups(c, sts, groups) == Refused(DeleteGroups(c, sts, groups[..r]), groups[r].0)
    decreases |groups|
  {
    var (s, g) := groups[0];
    var st := Delete(ForShard(c, s), sts[s], g);
    var next := Update(sts, s, st);
    if r > 0 {
      UpdateLeavesLater(sts, groups, st);
      NextRefused(sts, next, groups, r);
      DeleteRefusalStops(c, next, groups[1..], r - 1);
      assert groups[..r][1..] == groups[1..][..r - 1];
    }
  }
}
