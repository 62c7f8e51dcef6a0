// A run after which a stored and counted id is returned by no search, however many
// hits are asked for: the id is negative.
module NegativeIds {
  import opened WalCodec
  import opened Segments
  import opened MemTables
  import opened LsmModel
  import opened LsmInvariants
  import opened LsmRuns
  import opened LsmSearch

  const NEGATIVE_ID: Id := -1

  function StoreNegative(v: Vec): seq<Op> {
    [DoInsert([NEGATIVE_ID], [v], "a", "b")]
  }

  lemma NegativeWritten(v: Vec)
    ensures Written(Zip([NEGATIVE_ID], [v])) == map[NEGATIVE_ID := v]
  {
    assert Zip([NEGATIVE_ID], [v]) == [(NEGATIVE_ID, v)];
    assert Zip([NEGATIVE_ID], [v])[..0] == [];
  }

  // The plain map after the run.
  lemma NegativeIsModelled(c: Config, v: Vec)
    requires |v| == c.dim
    ensures Model(c, StoreNegative(v)) == map[NEGATIVE_ID := v]
  {
    var ops := StoreNegative(v);
    NegativeWritten(v);
    assert ops[..0] == [];
    assert Run(c, ops[..0]) == EMPTY && Model(c, ops[..0]) == map[];
    assert map[] + map[NEGATIVE_ID := v] == map[NEGATIVE_ID := v];
  }

  lemma NegativeIsShown(c: Config, v: Vec)
    requires c.mergeThreshold != 1 && |v| == c.dim
    ensures View(Run(c, StoreNegative(v))) == map[NEGATIVE_ID := v]
  {
    NegativeIsModelled(c, v);
    CrashFreeRunsRefine(c, StoreNegative(v));
  }

  lemma NegativeIsLost(c: Config, f: Faiss, v: Vec, q: Vec, k: nat, nprobe: nat)
    requires c.mergeThreshold != 1 && |v| == c.dim && Sound(f)
    ensures var st := Run(c, StoreNegative(v));
            && View(st) == map[NEGATIVE_ID := v] && Ntotal(st) == 1
            && Search(f, st, q, k, nprobe, st.lastLsn) == []
  {
    var st := Run(c, StoreNegative(v));
    NegativeIsShown(c, v);
    NtotalIsSize(st);
    EveryRunIsGood(c, StoreNegative(v));
    SearchIsSound(c, f, st, q, k, nprobe);
    var top := Search(f, st, q, k, nprobe, st.lastLsn);
    assert top != [] ==> IsCurrent(f, st, q, top[0]);
  }
}
