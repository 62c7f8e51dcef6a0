// The coordinator's search: every reader returns its own top_k, the coordinator
// merges the replies it got and takes top_k again.
module ScatterGather {
  import opened Wrappers
  import opened WalCodec
  import opened Dicts
  import opened MergeResults

  datatype Answer = Answer(hits: seq<Hit>, incomplete: bool)

  // A reader that failed counts as None.
  function Received(responses: seq<Option<seq<Hit>>>): seq<seq<Hit>> {
    if responses == [] then []
    else
      var last := responses[|responses| - 1];
      Received(responses[..|responses| - 1]) + if last.Some? then [last.value] else []
  }

  // The gather loop of `search`.
  method Gather(responses: seq<Option<seq<Hit>>>, topK: nat) returns (answer: Answer)
    ensures answer.hits == Merged(Flatten(Received(responses)), topK, {})
    ensures answer.incomplete <==> None in responses
  {
    var incomplete := false;
    var results := [];
    for i := 0 to |responses|
      invariant results == Received(responses[..i])
      invariant incomplete <==> None in responses[..i]
    {
      assert responses[..i + 1] == responses[..i] + [responses[i]];
      if responses[i].None? {
        incomplete := true;
        continue;
      }
      results := results + [responses[i].value];
    }
    assert responses[..|responses|] == responses;
    var hits := Merge(results, topK, {});
    answer := Answer(hits, incomplete);
  }

  lemma {:induction false} FlattenConcat<T>(a: seq<seq<T>>, b: seq<seq<T>>)
    ensures Flatten(a + b) == Flatten(a) + Flatten(b)
  {
    if b == [] {
      assert a + b == a;
    } else {
      var n := |b| - 1;
      FlattenConcat(a, b[..n]);
      assert (a + b)[..|a| + n] == a + b[..n];
    }
  }

  lemma {:induction false} ReceivedConcat(a: seq<Option<seq<Hit>>>, b: seq<Option<seq<Hit>>>)
    ensures Received(a + b) == Received(a) + Received(b)
  {
    if b == [] {
      assert a + b == a;
    } else {
      var n := |b| - 1;
      ReceivedConcat(a, b[..n]);
      assert (a + b)[..|a| + n] == a + b[..n];
    }
  }

  ghost predicate Mentions(hits: seq<Hit>, x: Id) {
    exists i :: 0 <= i < |hits| && hits[i].id == x
  }

  lemma {:induction false} FirstMention(hits: seq<Hit>, x: Id) returns (i: nat)
    requires Mentions(hits, x)
    ensures i < |hits| && hits[i].id == x && FirstOfId(hits, i)
  {
    var n := |hits| - 1;
    if Mentions(hits[..n], x) {
      i := FirstMention(hits[..n], x);
    } else {
      forall l | 0 <= l < n ensures hits[l].id != x {
        assert hits[..n][l] == hits[l];
      }
      i := n;
    }
  }

  // Of two equally near ids the one that an earlier reply mentions first comes first, and
  // is not cut off before the other.
  lemma EarlierReplyWins(a: seq<Option<seq<Hit>>>, b: seq<Option<seq<Hit>>>, k: nat, x: Id, y: Id, n: nat)
    requires Mentions(Flatten(Received(a)), x) && !Mentions(Flatten(Received(a)), y)
    requires NoFarther(Flatten(Received(a + b)), x, y)
    requires var top := Merged(Flatten(Received(a + b)), k, {}); n < |top| && top[n].id == y
    ensures var top := Merged(Flatten(Received(a + b)), k, {}); exists m :: 0 <= m < n && top[m].id == x
  {
    ReceivedConcat(a, b);
    FlattenConcat(Received(a), Received(b));
    EarlierPartWins(Flatten(Received(a)), Flatten(Received(b)), Flatten(Received(a + b)), k, x, y, n);
  }

  lemma EarlierPartWins(front: seq<Hit>, rest: seq<Hit>, hits: seq<Hit>, k: nat, x: Id, y: Id, n: nat)
    requires hits == front + rest && Mentions(front, x) && !Mentions(front, y) && NoFarther(hits, x, y)
    requires n < |Merged(hits, k, {})| && Merged(hits, k, {})[n].id == y
    ensures exists m :: 0 <= m < n && Merged(hits, k, {})[m].id == x
  {
    TopIsMentioned(hits, k, n);
    var i := FirstMention(front, x);
    var j := FirstMention(hits, y);
    FirstInFront(front, rest, i);
    assert forall l :: 0 <= l < |front| ==> hits[l] == front[l] && front[l].id != y;
    FirstSeenWins(hits, k, {}, i, j, n);
  }

  lemma TopIsMentioned(hits: seq<Hit>, k: nat, n: nat)
    requires n < |Merged(hits, k, {})|
    ensures Mentions(hits, Merged(hits, k, {})[n].id)
  {
    MergedIsWellFormed(hits, k, {});
    var l :| 0 <= l < |hits| && hits[l] == Merged(hits, k, {})[n];
  }

  lemma FirstInFront(front: seq<Hit>, rest: seq<Hit>, i: nat)
    requires i < |front| && FirstOfId(front, i)
    ensures FirstOfId(front + rest, i) && (front + rest)[i] == front[i]
  {
  }

  // What each reader replies, given its raw hits.
  function Replies(groups: seq<seq<Hit>>, k: nat, deleted: set<Id>): (rs: seq<seq<Hit>>)
    ensures |rs| == |groups|
    ensures forall i :: 0 <= i < |rs| ==> rs[i] == Merged(groups[i], k, deleted)
  {
    seq(|groups|, i requires 0 <= i < |groups| => Merged(groups[i], k, deleted))
  }

  lemma {:induction false} InFlatten<T>(lists: seq<seq<T>>, x: T)
    ensures x in Flatten(lists) <==> exists i :: 0 <= i < |lists| && x in lists[i]
  {
    if lists != [] {
      var n := |lists| - 1;
      InFlatten(lists[..n], x);
      assert forall i :: 0 <= i < n ==> lists[..n][i] == lists[i];
    }
  }

  lemma GroupWithin(groups: seq<seq<Hit>>, i: nat, deleted: set<Id>, d: real)
    requires i < |groups|
    ensures Within(groups[i], deleted, d) <= Within(Flatten(groups), deleted, d)
  {
    forall h | h in groups[i] ensures h in Flatten(groups) {
      InFlatten(groups, h);
    }
  }

  // Within any distance the replies hold as many candidates as the raw hits, up to k.
  lemma RepliesKeepCounts(groups: seq<seq<Hit>>, k: nat, deleted: set<Id>, d: real)
    ensures var g, h := Within(Flatten(Replies(groups, k, deleted)), {}, d), Within(Flatten(groups), deleted, d);
            g <= h && (|g| < k ==> g == h)
  {
    var replies := Replies(groups, k, deleted);
    var g, h := Within(Flatten(replies), {}, d), Within(Flatten(groups), deleted, d);
    forall x | x in g ensures x in h {
      var hit: Hit :| hit in Flatten(replies) && hit.dist <= d && hit.id == x;
      InFlatten(replies, hit);
      var i :| 0 <= i < |replies| && hit in replies[i];
      MergedIsTopK(groups[i], k, deleted, d);
      GroupWithin(groups, i, deleted, d);
      assert x in Within(replies[i], {}, d);
    }
    if |g| < k {
      forall x | x in h ensures x in g {
        var hit: Hit :| hit in Flatten(groups) && hit.id !in deleted && hit.dist <= d && hit.id == x;
        InFlatten(groups, hit);
        var i :| 0 <= i < |groups| && hit in groups[i];
        FullReply(groups, i, k, deleted, d);
      }
    }
  }

  // A group whose reply falls short of k within d has replied with all it has there.
  lemma FullReply(groups: seq<seq<Hit>>, i: nat, k: nat, deleted: set<Id>, d: real)
    requires i < |groups| && |Within(Flatten(Replies(groups, k, deleted)), {}, d)| < k
    ensures Within(groups[i], deleted, d) <= Within(Flatten(Replies(groups, k, deleted)), {}, d)
  {
    var replies := Replies(groups, k, deleted);
    MergedIsTopK(groups[i], k, deleted, d);
    GroupWithin(replies, i, {}, d);
    SubsetSize(Within(replies[i], {}, d), Within(Flatten(replies), {}, d));
    SubsetSize(Within(replies[i], {}, d), Within(groups[i], deleted, d));
  }

  // Scatter-gather law: merging the readers' top_k lists gives the same distances
  // as one merge over all raw hits, for every k and every grouping.
  lemma ScatterGatherLaw(groups: seq<seq<Hit>>, k: nat, deleted: set<Id>)
    ensures Dists(Merged(Flatten(Replies(groups, k, deleted)), k, {})) == Dists(Merged(Flatten(groups), k, deleted))
  {
    var g, h := Flatten(Replies(groups, k, deleted)), Flatten(groups);
    var a, b := Merged(g, k, {}), Merged(h, k, deleted);
    MergedIsWellFormed(g, k, {});
    MergedIsWellFormed(h, k, deleted);
    forall d ensures |Within(a, {}, d)| == |Within(b, {}, d)| {
      MergedIsTopK(g, k, {}, d);
      MergedIsTopK(h, k, deleted, d);
      RepliesKeepCounts(groups, k, deleted, d);
      SubsetSize(Within(g, {}, d), Within(h, deleted, d));
    }
    CountsFixDistances(a, b);
  }

  // No two candidates are equally near.
  ghost predicate DistinctDistances(hits: seq<Hit>, deleted: set<Id>) {
    var best := ToMap(SeenOf(hits, deleted));
    forall x, y :: x in best && y in best && best[x] == best[y] ==> x == y
  }

  // Every hit that survives the second merge carries its id's overall best distance.
  lemma GatheredIsBest(groups: seq<seq<Hit>>, k: nat, deleted: set<Id>, i: nat)
    requires var a := Merged(Flatten(Replies(groups, k, deleted)), k, {}); i < |a|
    ensures var hit := Merged(Flatten(Replies(groups, k, deleted)), k, {})[i];
            var best := ToMap(SeenOf(Flatten(groups), deleted));
            hit.id in best && best[hit.id] == hit.dist
  {
    var g, h := Flatten(Replies(groups, k, deleted)), Flatten(groups);
    var a, best := Merged(g, k, {}), ToMap(SeenOf(h, deleted));
    var hit := a[i];
    MergedIsWellFormed(g, k, {});
    SeenIsBest(h, deleted);
    RepliesKeepCounts(groups, k, deleted, hit.dist);
    assert hit.id in Within(g, {}, hit.dist);
    var source: Hit :| source in h && source.id !in deleted && source.dist <= hit.dist && source.id == hit.id;
    var d := best[hit.id];
    if d < hit.dist {
      assert Hit(d, hit.id) in h;
      assert hit.id in Within(h, deleted, d);
      RepliesKeepCounts(groups, k, deleted, d);
      NoCloserHit(g, k, i, d);
      CrowdedOut(g, k, i, d);
    }
  }

  lemma NoCloserHit(g: seq<Hit>, k: nat, i: nat, d: real)
    requires i < |Merged(g, k, {})| && d < Merged(g, k, {})[i].dist
    ensures Merged(g, k, {})[i].id !in Within(g, {}, d)
  {
    MergedIsWellFormed(g, k, {});
  }

  // With k candidates within d, nothing in the top k lies beyond d.
  lemma CrowdedOut(g: seq<Hit>, k: nat, i: nat, d: real)
    requires |Within(g, {}, d)| >= k && i < |Merged(g, k, {})|
    ensures Merged(g, k, {})[i].dist <= d
  {
    var c := WithinIsPrefix(g, {}, d);
  }

  // When all candidate distances differ, the ids agree as well.
  lemma ScatterGatherIds(groups: seq<seq<Hit>>, k: nat, deleted: set<Id>)
    requires DistinctDistances(Flatten(groups), deleted)
    ensures Merged(Flatten(Replies(groups, k, deleted)), k, {}) == Merged(Flatten(groups), k, deleted)
  {
    var a, b := Merged(Flatten(Replies(groups, k, deleted)), k, {}), Merged(Flatten(groups), k, deleted);
    ScatterGatherLaw(groups, k, deleted);
    RankedIsSorted(Flatten(groups), deleted);
    assert |a| == |Dists(a)| == |Dists(b)| == |b|;
    forall i | 0 <= i < |a| ensures a[i] == b[i] {
      assert Dists(a)[i] == Dists(b)[i];
      GatheredIsBest(groups, k, deleted, i);
      EntryAt(Ranked(Flatten(groups), deleted), i);
    }
  }
}
