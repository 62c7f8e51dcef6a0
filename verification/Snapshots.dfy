// Reference counts of the snapshots that searches are reading.
module Snapshots {

  // One more, or one fewer, reader of a snapshot; a count of zero is not kept.
  function Acquire(active: map<nat, nat>, s: nat): map<nat, nat> {
    active[s := (if s in active then active[s] else 0) + 1]
  }

  function Release(active: map<nat, nat>, s: nat): map<nat, nat> {
    if s !in active || active[s] <= 1 then active - {s} else active[s := active[s] - 1]
  }

  ghost predicate Positive(active: map<nat, nat>) {
    forall s :: s in active ==> active[s] > 0
  }

  // Readers may finish in any order: a release undoes its own acquire whatever
  // was acquired in between.
  lemma ReleaseUndoesAcquire(active: map<nat, nat>, s: nat, t: nat)
    requires Positive(active)
    ensures Release(Acquire(active, s), s) == active
    ensures Release(Acquire(Acquire(active, s), t), s) == Acquire(active, t)
    ensures Positive(Acquire(active, s)) && Positive(Release(active, s))
  {
    assert Release(Acquire(active, s), s) == active;
    assert Release(Acquire(Acquire(active, s), t), s) == Acquire(active, t);
  }

  // ---- how many readers there are ------------------------------------------------------

  ghost function Any(active: map<nat, nat>): (s: nat)
    requires active != map[]
    ensures s in active
  {
    var s :| s in active;
    s
  }

  ghost function Total(active: map<nat, nat>): nat
    decreases active.Keys
  {
    if active == map[] then 0 else active[Any(active)] + Total(active - {Any(active)})
  }

  lemma {:induction false} TotalWithout(active: map<nat, nat>, s: nat)
    requires s in active
    ensures Total(active) == active[s] + Total(active - {s})
    decreases active.Keys
  {
    var t := Any(active);
    if s != t {
      TotalWithout(active - {t}, s);
      TotalWithout(active - {s}, t);
      assert active - {t} - {s} == active - {s} - {t};
    }
  }

  // The count goes up by one with each snapshot created and down by one with each released.
  lemma CountsReaders(active: map<nat, nat>, s: nat)
    ensures Total(Acquire(active, s)) == Total(active) + 1
    ensures Positive(active) && s in active ==> Total(Release(active, s)) == Total(active) - 1
  {
    AcquireCounts(active, s);
    if Positive(active) && s in active {
      ReleaseCounts(active, s);
    }
  }

  lemma ReleaseCounts(active: map<nat, nat>, s: nat)
    requires s in active && active[s] > 0
    ensures Total(Release(active, s)) == Total(active) - 1
  {
    TotalWithout(active, s);
    if active[s] > 1 {
      TotalWithout(Release(active, s), s);
      assert Release(active, s) - {s} == active - {s};
    }
  }

  lemma AcquireCounts(active: map<nat, nat>, s: nat)
    ensures Total(Acquire(active, s)) == Total(active) + 1
  {
    TotalWithout(Acquire(active, s), s);
    assert Acquire(active, s) - {s} == active - {s};
    if s in active {
      TotalWithout(active, s);
    } else {
      assert active - {s} == active;
    }
  }

  class SnapshotManager {
    var active: map<nat, nat>

    constructor ()
      ensures active == map[]
    {
      active := map[];
    }

    method CreateSnapshot(currentLsn: nat) returns (snapshotId: nat)
      modifies this
      ensures snapshotId == currentLsn && active == Acquire(old(active), currentLsn)
    {
      snapshotId := currentLsn;
      var count := if snapshotId in active then active[snapshotId] else 0;
      active := active[snapshotId := count + 1];
    }

    method ReleaseSnapshot(snapshotId: nat)
      modifies this
      ensures active == Release(old(active), snapshotId)
    {
      if snapshotId !in active || active[snapshotId] <= 1 {
        active := active - {snapshotId};
      } else {
        active := active[snapshotId := active[snapshotId] - 1];
      }
    }

    method ActiveCount() returns (n: nat)
      ensures n == Total(active)
    {
      n := 0;
      var rest := active;
      while rest != map[]
        invariant n + Total(rest) == Total(active)
        decreases rest.Keys
      {
        var s :| s in rest;
        TotalWithout(rest, s);
        n := n + rest[s];
        rest := rest - {s};
      }
    }
  }
}
