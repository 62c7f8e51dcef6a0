// The read path end to end: batches sharded over several engines, one refreshed
// reader per shard, the readers' answers gathered. The result is the exact top k
// of what the readers see, and the lemmas say when that is the plain map.
module DistributedSearch {
  import opened Wrappers
  import opened WalCodec
  import opened Dicts
  import opened MergeResults
  import opened ScatterGather
  import opened Segments
  import opened MemTables
  import opened SegmentCaches
  import opened Registry
  import opened LsmModel
  import opened LsmMaps
  import opened LsmInvariants
  import opened LsmSearch
  import opened Sharding
  import opened ReaderAgreement

  // What the readers work from: the directories, the registry's listing, the
  // tombstone file all shards share, and the snapshot the coordinator sends.
  datatype Source = Source(universe: Universe, listing: Dict<string, Meta>, file: set<Id>, snapshot: nat)

  // The writer has reconciled the registry, nothing in it is newer than the snapshot,
  // the directories exist, and each reader has room for its shard.
  ghost predicate InStep(w: Source, sts: seq<Lsm>, max: nat) {
    var all := AllSegments(sts);
    && DistinctSegIds(all) && (forall i :: 0 <= i < |all| ==> w.universe(all[i].id) == all[i])
    && (forall k :: k in ToMap(w.listing) ==> ToMap(w.listing)[k].id == k)
    && OfShards(ToMap(w.listing), |sts|) == LocalEntries(all) && NoOlder(w.listing, w.snapshot)
    && forall s :: 0 <= s < |sts| ==> |sts[s].segs| <= max && sts[s].diskTombs == w.file
  }

  // One reader per shard; every reply arrives.
  ghost function ReaderReplies(f: Faiss, w: Source, max: nat, n: nat, q: Vec, k: nat, nprobe: nat)
    : (rs: seq<Option<seq<Hit>>>)
    ensures |rs| == n
    ensures forall s :: 0 <= s < n ==>
              rs[s] == Some(Reply(f, w.universe, s, w.listing, max, w.file, w.snapshot, q, k, nprobe))
  {
    seq(n, s requires 0 <= s < n => Some(Reply(f, w.universe, s, w.listing, max, w.file, w.snapshot, q, k, nprobe)))
  }

  // What the coordinator answers.
  ghost function Gathered(f: Faiss, w: Source, max: nat, n: nat, q: Vec, k: nat, nprobe: nat): seq<Hit> {
    Merged(Flatten(Received(ReaderReplies(f, w, max, n, q, k, nprobe))), k, {})
  }

  // ---- a reader's shard ---------------------------------------------------------------

  function AsReads(sts: seq<Lsm>, file: set<Id>): (rs: seq<Lsm>)
    ensures |rs| == |sts|
    ensures forall s :: 0 <= s < |rs| ==> rs[s] == AsRead(sts[s], file)
  {
    seq(|sts|, s requires 0 <= s < |sts| => AsRead(sts[s], file))
  }

  // The map the readers see together.
  ghost function ReadMap(sts: seq<Lsm>, file: set<Id>): map<Id, Vec> {
    Together(AsReads(sts, file))
  }

  lemma ShardIdsDistinct(sts: seq<Lsm>, s: nat)
    requires s < |sts| && DistinctSegIds(AllSegments(sts))
    ensures DistinctSegIds(sts[s].segs)
  {
    var lo := ShardSlice(sts, s);
    var all, segs := AllSegments(sts), sts[s].segs;
    forall i, j | 0 <= i < j < |segs| ensures segs[i].id != segs[j].id {
      assert segs[i] == all[lo + i] && segs[j] == all[lo + j];
    }
  }

  // A segment listed by any shard carries that shard's number.
  lemma HomeShard(c: Config, sts: seq<Lsm>, i: nat) returns (s: nat)
    requires forall t :: 0 <= t < |sts| ==> Layered(ForShard(c, t), sts[t])
    requires i < |AllSegments(sts)|
    ensures s < |sts| && AllSegments(sts)[i].shard == s && AllSegments(sts)[i] in sts[s].segs
  {
    var g := AllSegments(sts)[i];
    AllSegmentsMembers(sts, g);
    s :| 0 <= s < |sts| && g in sts[s].segs;
    var j :| 0 <= j < |sts[s].segs| && sts[s].segs[j] == g;
  }

  lemma ListedAtHome(c: Config, w: Source, sts: seq<Lsm>, max: nat, s: nat, k: string)
    requires forall t :: 0 <= t < |sts| ==> Layered(ForShard(c, t), sts[t])
    requires InStep(w, sts, max) && s < |sts| && k in ToMap(w.listing) && ToMap(w.listing)[k].shard == s
    ensures k in LocalEntries(sts[s].segs) && LocalEntries(sts[s].segs)[k] == ToMap(w.listing)[k]
  {
    var all := AllSegments(sts);
    assert k in OfShards(ToMap(w.listing), |sts|);
    var i := LocalEntryFor(all, k);
    var t := HomeShard(c, sts, i);
    assert OfShards(ToMap(w.listing), |sts|)[k] == MetaOf(all[i]);
    var j :| 0 <= j < |sts[s].segs| && sts[s].segs[j] == all[i];
    ShardIdsDistinct(sts, s);
    LocalEntryAt(sts[s].segs, j);
  }

  lemma HomeIsListed(c: Config, w: Source, sts: seq<Lsm>, max: nat, s: nat, j: nat)
    requires InStep(w, sts, max) && s < |sts| && Layered(ForShard(c, s), sts[s]) && j < |sts[s].segs|
    ensures var g := sts[s].segs[j];
            && g.shard == s && w.universe(g.id) == g
            && g.id in ToMap(w.listing) && ToMap(w.listing)[g.id] == MetaOf(g)
  {
    var g, all := sts[s].segs[j], AllSegments(sts);
    AllSegmentsMembers(sts, g);
    assert g in sts[s].segs;
    var i :| 0 <= i < |all| && all[i] == g;
    LocalEntryAt(all, i);
    assert g.id in OfShards(ToMap(w.listing), |sts|);
  }

  // The part of the listing that a reader asks for is its shard's segments.
  lemma ShardReconciled(c: Config, w: Source, sts: seq<Lsm>, max: nat, s: nat)
    requires forall t :: 0 <= t < |sts| ==> Layered(ForShard(c, t), sts[t])
    requires InStep(w, sts, max) && s < |sts|
    ensures Refreshable(w.universe, s, w.listing, sts[s].segs, max, w.snapshot)
  {
    var m, segs := ToMap(w.listing), sts[s].segs;
    var mine := map k | k in m && m[k].shard == s :: m[k];
    ShardIdsDistinct(sts, s);
    forall k | k in mine ensures k in LocalEntries(segs) && LocalEntries(segs)[k] == mine[k] {
      ListedAtHome(c, w, sts, max, s, k);
    }
    forall k | k in LocalEntries(segs) ensures k in mine {
      var j := LocalEntryFor(segs, k);
      HomeIsListed(c, w, sts, max, s, j);
    }
    forall j | 0 <= j < |segs| ensures w.universe(segs[j].id) == segs[j] {
      HomeIsListed(c, w, sts, max, s, j);
    }
    assert mine == LocalEntries(segs);
  }

  // ---- gathering the replies ------------------------------------------------------------

  // What each shard answers at its current snapshot.
  function ShardAnswers(f: Faiss, sts: seq<Lsm>, q: Vec, k: nat, nprobe: nat): (rs: seq<seq<Hit>>)
    ensures |rs| == |sts|
    ensures forall s :: 0 <= s < |rs| ==> rs[s] == Search(f, sts[s], q, k, nprobe, sts[s].lastLsn)
  {
    seq(|sts|, s requires 0 <= s < |sts| => Search(f, sts[s], q, k, nprobe, sts[s].lastLsn))
  }

  lemma {:induction false} AllReceived(rs: seq<Option<seq<Hit>>>, answers: seq<seq<Hit>>)
    requires |rs| == |answers| && forall s :: 0 <= s < |rs| ==> rs[s] == Some(answers[s])
    ensures Received(rs) == answers
  {
    if rs != [] {
      var n := |rs| - 1;
      AllReceived(rs[..n], answers[..n]);
      assert answers == answers[..n] + [answers[n]];
    }
  }

  lemma ReplyIsSearch(c: Config, f: Faiss, w: Source, sts: seq<Lsm>, max: nat, q: Vec, k: nat, nprobe: nat, s: nat)
    requires Sound(f) && InStep(w, sts, max) && s < |sts|
    requires forall t :: 0 <= t < |sts| ==> Layered(ForShard(c, t), sts[t])
    ensures Reply(f, w.universe, s, w.listing, max, w.file, w.snapshot, q, k, nprobe) ==
            Search(f, AsRead(sts[s], w.file), q, k, nprobe, sts[s].lastLsn)
  {
    ShardReconciled(c, w, sts, max, s);
    RefreshedReply(ForShard(c, s), f, w.universe, sts[s], w.listing, max, w.file, w.snapshot, q, k, nprobe);
    ReaderIsEngineAsRead(ForShard(c, s), f, sts[s], w.file, w.snapshot, q, k, nprobe);
  }

  // The readers' replies are the searches of the shards as read.
  lemma RepliesAreSearches(c: Config, f: Faiss, w: Source, sts: seq<Lsm>, max: nat, q: Vec, k: nat, nprobe: nat)
    requires Sound(f) && InStep(w, sts, max)
    requires forall t :: 0 <= t < |sts| ==> Layered(ForShard(c, t), sts[t])
    ensures Received(ReaderReplies(f, w, max, |sts|, q, k, nprobe)) ==
            ShardAnswers(f, AsReads(sts, w.file), q, k, nprobe)
  {
    var rs := ReaderReplies(f, w, max, |sts|, q, k, nprobe);
    var answers := ShardAnswers(f, AsReads(sts, w.file), q, k, nprobe);
    forall s | 0 <= s < |sts| ensures rs[s] == Some(answers[s]) {
      ReplyIsSearch(c, f, w, sts, max, q, k, nprobe, s);
    }
    AllReceived(rs, answers);
  }

  // Each shard holds its part of m and searches exactly.
  ghost predicate Exact(c: Config, f: Faiss, sts: seq<Lsm>, m: map<Id, Vec>, q: Vec, k: nat, nprobe: nat) {
    && Sound(f) && sts != []
    && forall s :: 0 <= s < |sts| ==>
         && Layered(ForShard(c, s), sts[s]) && View(sts[s]) == Part(m, |sts|, s)
         && Undisturbed(f, sts[s], q, k, nprobe, sts[s].lastLsn)
  }

  lemma ShardIsExact(c: Config, f: Faiss, sts: seq<Lsm>, m: map<Id, Vec>, q: Vec, k: nat, nprobe: nat, d: real, s: nat)
    requires Exact(c, f, sts, m, q, k, nprobe) && s < |sts|
    ensures var near := set x | x in NearIn(f, m, q, d) && x % |sts| == s;
            var w := Within(ShardAnswers(f, sts, q, k, nprobe)[s], {}, d);
            w <= near && |w| == Min(k, |near|)
  {
    var near := set x | x in NearIn(f, m, q, d) && x % |sts| == s;
    SearchIsExact(ForShard(c, s), f, sts[s], q, k, nprobe, d);
    assert Near(f, sts[s], q, d) == near;
  }

  // Within any distance the answers hold what the map has there, up to k.
  lemma AnswersAreNear(c: Config, f: Faiss, sts: seq<Lsm>, m: map<Id, Vec>, q: Vec, k: nat, nprobe: nat, d: real)
    requires Exact(c, f, sts, m, q, k, nprobe)
    ensures var found := Within(Flatten(ShardAnswers(f, sts, q, k, nprobe)), {}, d);
            found <= NearIn(f, m, q, d) && (|found| < k ==> found == NearIn(f, m, q, d))
  {
    var answers := ShardAnswers(f, sts, q, k, nprobe);
    var found := Within(Flatten(answers), {}, d);
    forall x | x in found ensures x in NearIn(f, m, q, d) {
      AnsweredIsNear(c, f, sts, m, q, k, nprobe, d, x);
    }
    if |found| < k {
      forall x | x in NearIn(f, m, q, d) ensures x in found {
        NearIsAnswered(c, f, sts, m, q, k, nprobe, d, x);
      }
    }
  }

  lemma AnsweredIsNear(c: Config, f: Faiss, sts: seq<Lsm>, m: map<Id, Vec>, q: Vec, k: nat, nprobe: nat, d: real, x: Id)
    requires Exact(c, f, sts, m, q, k, nprobe)
    requires x in Within(Flatten(ShardAnswers(f, sts, q, k, nprobe)), {}, d)
    ensures x in NearIn(f, m, q, d)
  {
    var answers := ShardAnswers(f, sts, q, k, nprobe);
    var h: Hit :| h in Flatten(answers) && h.dist <= d && h.id == x;
    InFlatten(answers, h);
    var s :| 0 <= s < |answers| && h in answers[s];
    ShardIsExact(c, f, sts, m, q, k, nprobe, d, s);
    assert x in Within(answers[s], {}, d);
  }

  lemma NearIsAnswered(c: Config, f: Faiss, sts: seq<Lsm>, m: map<Id, Vec>, q: Vec, k: nat, nprobe: nat, d: real, x: Id)
    requires Exact(c, f, sts, m, q, k, nprobe) && x in NearIn(f, m, q, d)
    requires |Within(Flatten(ShardAnswers(f, sts, q, k, nprobe)), {}, d)| < k
    ensures x in Within(Flatten(ShardAnswers(f, sts, q, k, nprobe)), {}, d)
  {
    var answers, s := ShardAnswers(f, sts, q, k, nprobe), x % |sts|;
    var near := set y | y in NearIn(f, m, q, d) && y % |sts| == s;
    var w := Within(answers[s], {}, d);
    ShardIsExact(c, f, sts, m, q, k, nprobe, d, s);
    GroupWithin(answers, s, {}, d);
    SubsetSize(w, Within(Flatten(answers), {}, d));
    SubsetSize(w, near);
  }

  lemma AnswersGiveTop(c: Config, f: Faiss, sts: seq<Lsm>, m: map<Id, Vec>, q: Vec, k: nat, nprobe: nat)
    requires Exact(c, f, sts, m, q, k, nprobe)
    ensures IsTopOf(f, m, q, k, Merged(Flatten(ShardAnswers(f, sts, q, k, nprobe)), k, {}))
  {
    var hits := Flatten(ShardAnswers(f, sts, q, k, nprobe));
    var top := Merged(hits, k, {});
    MergedIsWellFormed(hits, k, {});
    forall d: real
      ensures Within(top, {}, d) <= NearIn(f, m, q, d) && |Within(top, {}, d)| == Min(k, |NearIn(f, m, q, d)|)
    {
      AnswersAreNear(c, f, sts, m, q, k, nprobe, d);
      MergedIsTopK(hits, k, {}, d);
      SubsetSize(Within(hits, {}, d), NearIn(f, m, q, d));
    }
  }

  // ---- whole runs -----------------------------------------------------------------------------

  ghost predicate AllUndisturbed(f: Faiss, sts: seq<Lsm>, q: Vec, k: nat, nprobe: nat) {
    forall s :: 0 <= s < |sts| ==> Undisturbed(f, sts[s], q, k, nprobe, sts[s].lastLsn)
  }

  // What a caller can see to before searching: segment searches are exact, and each
  // segment has at most k rows, or none that is negative, in the file, or held by a
  // newer segment of its shard.
  ghost predicate Clear(f: Faiss, segs: seq<Segment>, file: set<Id>, q: Vec, k: nat, nprobe: nat) {
    forall i :: 0 <= i < |segs| ==>
      && NearestHits(f.dist, segs[i].rows, q, k, f.index(segs[i].rows, q, k, nprobe))
      && (|segs[i].rows| <= k || forall x :: x in ToMap(segs[i].rows) ==> ClearRow(segs, i, file, x))
  }

  ghost predicate ClearRow(segs: seq<Segment>, i: nat, file: set<Id>, x: Id) {
    x >= 0 && x !in file && forall j :: i < j < |segs| ==> x !in ToMap(segs[j].rows)
  }

  ghost predicate AllClear(f: Faiss, sts: seq<Lsm>, file: set<Id>, q: Vec, k: nat, nprobe: nat) {
    forall s :: 0 <= s < |sts| ==> Clear(f, sts[s].segs, file, q, k, nprobe)
  }

  lemma ClearRowIsNewest(segs: seq<Segment>, i: nat, file: set<Id>, x: Id)
    requires Segments.Ascending(segs) && i < |segs| && x in ToMap(segs[i].rows) && ClearRow(segs, i, file, x)
    ensures x !in Newer(LatestSnap(segs), segs[i].snap)
  {
    HeldIsStored(segs, i, x);
    var j := NewestHolder(segs, x);
    assert !(i < j);
  }

  lemma HiddenFromReader(c: Config, st: Lsm, file: set<Id>, g: Segment)
    requires Layered(c, st)
    ensures HiddenFrom(AsRead(st, file), st.lastLsn, g) == file + Newer(LatestSnap(st.segs), g.snap)
  {
    var rd := AsRead(st, file);
    AsReadLayered(c, st, file);
    CurrentSnapshot(c, rd, st.lastLsn);
    assert Deletions(ToMap(rd.mem)) == {} && LiveOf(ToMap(rd.mem), None).Keys == {};
  }

  lemma ClearIsUndisturbed(c: Config, f: Faiss, st: Lsm, file: set<Id>, q: Vec, k: nat, nprobe: nat)
    requires Layered(c, st) && Sound(f) && Clear(f, st.segs, file, q, k, nprobe)
    ensures Undisturbed(f, AsRead(st, file), q, k, nprobe, st.lastLsn)
  {
    var rd := AsRead(st, file);
    forall i, x | 0 <= i < |st.segs| && x in ToMap(st.segs[i].rows) && ClearRow(st.segs, i, file, x)
      ensures x !in HiddenFrom(rd, st.lastLsn, st.segs[i])
    {
      ClearRowIsNewest(st.segs, i, file, x);
      HiddenFromReader(c, st, file, st.segs[i]);
    }
    assert MemRows(rd, st.lastLsn) == [];
    UnobstructedIsUndisturbed(f, rd, q, k, nprobe, st.lastLsn);
  }

  lemma RunHolds(c: Config, n: nat, ops: seq<PipeOp>)
    requires n > 0 && c.mergeThreshold != 1 && InRange(ops)
    ensures forall s :: 0 <= s < n ==> Holds(c, n, s, PipeRun(c, n, ops)[s], PlainMap(c, ops), |ops|)
  {
    forall s | 0 <= s < n ensures Holds(c, n, s, PipeRun(c, n, ops)[s], PlainMap(c, ops), |ops|) {
      ShardsHoldParts(c, n, ops, s);
    }
  }

  // A reader sees ids of its own shard only.
  lemma ReadIsOwn(c: Config, n: nat, s: nat, st: Lsm, file: set<Id>, m: map<Id, Vec>, count: nat, x: Id)
    requires n > 0 && Holds(c, n, s, st, m, count) && x in View(AsRead(st, file))
    ensures x % n == s
  {
    AsReadLayered(ForShard(c, s), st, file);
    assert x in MapsOf(st).rows;
  }

  lemma ReadsAreParts(c: Config, n: nat, sts: seq<Lsm>, file: set<Id>, m: map<Id, Vec>, count: nat)
    requires n > 0 && |sts| == n && forall s :: 0 <= s < n ==> Holds(c, n, s, sts[s], m, count)
    ensures forall s :: 0 <= s < n ==> View(AsReads(sts, file)[s]) == Part(ReadMap(sts, file), n, s)
  {
    var rs := AsReads(sts, file);
    forall s, x | 0 <= s < n && x in View(rs[s]) ensures x % n == s {
      ReadIsOwn(c, n, s, sts[s], file, m, count, x);
    }
    forall s | 0 <= s < n ensures View(rs[s]) == Part(Together(rs), n, s) {
      TogetherPart(rs, n, s);
    }
  }

  // For any number of shards, any batches and refreshed readers, the coordinator's
  // answer is the exact top k of the map the readers see.
  lemma DistributedSearchIsExact(c: Config, f: Faiss, n: nat, ops: seq<PipeOp>, sts: seq<Lsm>, w: Source, max: nat,
      q: Vec, k: nat, nprobe: nat)
    requires n > 0 && c.mergeThreshold != 1 && InRange(ops) && Sound(f)
    requires sts == PipeRun(c, n, ops) && InStep(w, sts, max)
    requires AllUndisturbed(f, AsReads(sts, w.file), q, k, nprobe)
    ensures IsTopOf(f, ReadMap(sts, w.file), q, k, Gathered(f, w, max, n, q, k, nprobe))
  {
    var rs := AsReads(sts, w.file);
    RunHolds(c, n, ops);
    RepliesAreSearches(c, f, w, sts, max, q, k, nprobe);
    ReadsAreParts(c, n, sts, w.file, PlainMap(c, ops), |ops|);
    forall s | 0 <= s < n ensures Layered(ForShard(c, s), rs[s]) {
      AsReadLayered(ForShard(c, s), sts[s], w.file);
    }
    AnswersGiveTop(c, f, rs, ReadMap(sts, w.file), q, k, nprobe);
  }

  // ---- what the readers see against the plain map --------------------------------------------

  // Every buffered row repeats the stored one.
  ghost predicate NothingBuffered(st: Lsm) {
    var m, rows := ToMap(st.mem), Stored(st.segs);
    forall x :: x in m && m[x].Live? ==> x in rows && rows[x] == m[x].vec
  }

  // The file has every tombstone over a stored row.
  ghost predicate TombsOnDisk(st: Lsm) {
    st.tombs * Stored(st.segs).Keys <= st.diskTombs
  }

  lemma ShardSeenIff(a: Maps, seen: map<Id, Vec>)
    requires seen == a.rows - a.diskTombs
    requires forall x :: x in a.entries && a.entries[x].Deleted? && x in a.rows ==> x in a.tombs
    requires forall x :: x in a.entries && a.entries[x].Live? ==> x !in a.tombs
    requires a.diskTombs * a.rows.Keys <= a.tombs
    ensures seen == Visible(a) <==>
            && (forall x :: x in a.entries && a.entries[x].Live? ==> x in a.rows && a.rows[x] == a.entries[x].vec)
            && a.tombs * a.rows.Keys <= a.diskTombs
  {
    forall x: Id
      ensures SameAt(seen, Visible(a), x) <==>
              && (x in a.entries && a.entries[x].Live? ==> x in a.rows && a.rows[x] == a.entries[x].vec)
              && (x in a.tombs * a.rows.Keys ==> x in a.diskTombs)
    {
      assert x in a.diskTombs * a.rows.Keys <==> x in a.diskTombs && x in a.rows;
    }
    SameEverywhere(seen, Visible(a));
  }

  // A reader sees its shard's part of the plain map exactly when nothing new is buffered
  // and the file has every tombstone over the shard's stored rows.
  lemma ReaderSeesPartIff(c: Config, n: nat, s: nat, st: Lsm, m: map<Id, Vec>, count: nat)
    requires n > 0 && Holds(c, n, s, st, m, count) && st.diskTombs * Stored(st.segs).Keys <= st.tombs
    ensures View(AsRead(st, st.diskTombs)) == Part(m, n, s) <==> NothingBuffered(st) && TombsOnDisk(st)
  {
    ViewIsVisible(st);
    AsReadLayered(ForShard(c, s), st, st.diskTombs);
    ShardSeenIff(MapsOf(st), View(AsRead(st, st.diskTombs)));
  }

  lemma AllParts(rs: seq<Lsm>, m: map<Id, Vec>)
    requires rs != [] && forall s :: 0 <= s < |rs| ==> View(rs[s]) == Part(m, |rs|, s)
    ensures Together(rs) == m
  {
    TogetherIs(rs, m, |rs|);
    AllBelow(m, |rs|);
  }

  lemma PartsFixMap(rs: seq<Lsm>, m: map<Id, Vec>)
    requires rs != [] && forall s :: 0 <= s < |rs| ==> View(rs[s]) == Part(Together(rs), |rs|, s)
    ensures Together(rs) == m <==> forall s :: 0 <= s < |rs| ==> View(rs[s]) == Part(m, |rs|, s)
  {
    if forall s :: 0 <= s < |rs| ==> View(rs[s]) == Part(m, |rs|, s) {
      AllParts(rs, m);
    }
  }

  // The readers together see the plain map exactly when, on every shard, nothing new is
  // buffered and the shared file has every tombstone over a stored row.
  lemma ReadersSeePlainMapIff(c: Config, n: nat, ops: seq<PipeOp>, sts: seq<Lsm>, file: set<Id>)
    requires n > 0 && c.mergeThreshold != 1 && InRange(ops) && sts == PipeRun(c, n, ops)
    requires forall s :: 0 <= s < n ==> sts[s].diskTombs == file
    ensures ReadMap(sts, file) == PlainMap(c, ops) <==>
            forall s :: 0 <= s < n ==> NothingBuffered(sts[s]) && TombsOnDisk(sts[s])
  {
    var m := PlainMap(c, ops);
    RunHolds(c, n, ops);
    ReadsAreParts(c, n, sts, file, m, |ops|);
    PartsFixMap(AsReads(sts, file), m);
    forall s | 0 <= s < n
      ensures View(AsReads(sts, file)[s]) == Part(m, n, s) <==> NothingBuffered(sts[s]) && TombsOnDisk(sts[s])
    {
      FileSaysNoMore(c, n, ops, s);
      ReaderSeesPartIff(c, n, s, sts[s], m, |ops|);
    }
  }

  lemma OnlyWriterHides(c: Config, n: nat, sts: seq<Lsm>, w: nat, m: map<Id, Vec>, count: nat, s: nat)
    requires |sts| == n && OneWriter(sts, w) && s < n
    requires Holds(c, n, s, sts[s], m, count) && Holds(c, n, w, sts[w], m, count)
    ensures TombsOnDisk(sts[s]) <==> s == w || sts[s].tombs * Stored(sts[s].segs).Keys == {}
  {
    var hiding := sts[s].tombs * Stored(sts[s].segs).Keys;
    if s != w && hiding != {} {
      var x :| x in hiding;
      assert x % n == s;
      assert x !in sts[w].tombs;
    }
  }

  // Since every shard overwrites the file with its own tombstones, that is: nothing new
  // is buffered, and no shard but the one whose tombstones the file holds has one over a
  // stored row.
  lemma ReadersSeeOneShardsDeletes(c: Config, n: nat, ops: seq<PipeOp>, sts: seq<Lsm>) returns (w: nat)
    requires n > 0 && c.mergeThreshold != 1 && InRange(ops) && sts == PipeRun(c, n, ops)
    ensures OneWriter(sts, w)
    ensures ReadMap(sts, sts[w].tombs) == PlainMap(c, ops) <==>
            forall s :: 0 <= s < n ==>
              NothingBuffered(sts[s]) && (s == w || sts[s].tombs * Stored(sts[s].segs).Keys == {})
  {
    w := FileHasOneWriter(c, n, ops);
    RunHolds(c, n, ops);
    ReadersSeePlainMapIff(c, n, ops, sts, sts[w].tombs);
    forall s | 0 <= s < n
      ensures TombsOnDisk(sts[s]) <==> s == w || sts[s].tombs * Stored(sts[s].segs).Keys == {}
    {
      OnlyWriterHides(c, n, sts, w, PlainMap(c, ops), |ops|, s);
    }
  }

  // The readers are refreshed after a run, and every segment search is exact enough.
  ghost predicate Served(c: Config, f: Faiss, n: nat, ops: seq<PipeOp>, w: Source, max: nat, q: Vec, k: nat,
      nprobe: nat)
    requires n > 0
  {
    var sts := PipeRun(c, n, ops);
    InStep(w, sts, max) && AllUndisturbed(f, AsReads(sts, w.file), q, k, nprobe)
  }

  ghost predicate CaughtUp(c: Config, n: nat, ops: seq<PipeOp>)
    requires n > 0
  {
    forall s :: 0 <= s < n ==> NothingBuffered(PipeRun(c, n, ops)[s]) && TombsOnDisk(PipeRun(c, n, ops)[s])
  }

  // Then the coordinator answers with the exact top k of the plain map,
  lemma ReadersServePlainMap(c: Config, f: Faiss, n: nat, ops: seq<PipeOp>, w: Source, max: nat, q: Vec, k: nat,
      nprobe: nat)
    requires n > 0 && c.mergeThreshold != 1 && InRange(ops) && Sound(f)
    requires Served(c, f, n, ops, w, max, q, k, nprobe) && CaughtUp(c, n, ops)
    ensures IsTopOf(f, PlainMap(c, ops), q, k, Gathered(f, w, max, n, q, k, nprobe))
  {
    DistributedSearchIsExact(c, f, n, ops, PipeRun(c, n, ops), w, max, q, k, nprobe);
    ReadersSeePlainMapIff(c, n, ops, PipeRun(c, n, ops), w.file);
  }

  // which a caller can check beforehand to be so;
  lemma ClearReadersServePlainMap(c: Config, f: Faiss, n: nat, ops: seq<PipeOp>, w: Source, max: nat, q: Vec, k: nat,
      nprobe: nat)
    requires n > 0 && c.mergeThreshold != 1 && InRange(ops) && Sound(f) && CaughtUp(c, n, ops)
    requires InStep(w, PipeRun(c, n, ops), max) && AllClear(f, PipeRun(c, n, ops), w.file, q, k, nprobe)
    ensures IsTopOf(f, PlainMap(c, ops), q, k, Gathered(f, w, max, n, q, k, nprobe))
  {
    var sts := PipeRun(c, n, ops);
    RunHolds(c, n, ops);
    forall s | 0 <= s < n ensures Undisturbed(f, AsReads(sts, w.file)[s], q, k, nprobe, sts[s].lastLsn) {
      ClearIsUndisturbed(ForShard(c, s), f, sts[s], w.file, q, k, nprobe);
    }
    ReadersServePlainMap(c, f, n, ops, w, max, q, k, nprobe);
  }

  // it is that of the whole map exactly when no negative id is among the k nearest;
  lemma ReadersServeWholeMapIff(c: Config, f: Faiss, n: nat, ops: seq<PipeOp>, w: Source, max: nat, q: Vec, k: nat,
      nprobe: nat)
    requires n > 0 && c.mergeThreshold != 1 && InRange(ops) && Sound(f)
    requires Served(c, f, n, ops, w, max, q, k, nprobe) && CaughtUp(c, n, ops)
    ensures IsTopOfAll(f, PlainMap(c, ops), q, k, Gathered(f, w, max, n, q, k, nprobe)) <==>
            NegativesAreFar(f, PlainMap(c, ops), q, k)
  {
    ReadersServePlainMap(c, f, n, ops, w, max, q, k, nprobe);
    TopOfAllIff(f, PlainMap(c, ops), q, k, Gathered(f, w, max, n, q, k, nprobe));
  }

  // and the number of shards does not show in the distances it returns.
  lemma ShardCountDoesNotShow(c: Config, f: Faiss, a: nat, b: nat, ops: seq<PipeOp>, v: Source, w: Source, max: nat,
      q: Vec, k: nat, nprobe: nat)
    requires a > 0 && b > 0 && c.mergeThreshold != 1 && InRange(ops) && Sound(f)
    requires Served(c, f, a, ops, v, max, q, k, nprobe) && CaughtUp(c, a, ops)
    requires Served(c, f, b, ops, w, max, q, k, nprobe) && CaughtUp(c, b, ops)
    ensures Dists(Gathered(f, v, max, a, q, k, nprobe)) == Dists(Gathered(f, w, max, b, q, k, nprobe))
  {
    ReadersServePlainMap(c, f, a, ops, v, max, q, k, nprobe);
    ReadersServePlainMap(c, f, b, ops, w, max, q, k, nprobe);
    CountsFixDistances(Gathered(f, v, max, a, q, k, nprobe), Gathered(f, w, max, b, q, k, nprobe));
  }
}
