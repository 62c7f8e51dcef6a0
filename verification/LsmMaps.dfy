// The engine's state as mappings, and what each step does to what is visible.
// Nothing here knows about lists, files or objects.
module LsmMaps {
  import opened Wrappers
  import opened WalCodec
  import opened MemTables

  // entries: memtable; rows: newest segment row of each id; last: the last write
  // of each id in the log; snap: the newest segment's snapshot; dels: the ids with
  // a delete in the log.
  datatype Maps = Maps(
    entries: map<Id, Entry>,
    rows: map<Id, Vec>,
    tombs: set<Id>,
    diskTombs: set<Id>,
    last: map<Id, Entry>,
    snap: nat,
    dels: set<Id>)

  // What a search can see: tombstones and delete markers hide an id, otherwise
  // the memtable wins over the segments.
  ghost function Visible(a: Maps): map<Id, Vec> {
    map x | x in a.entries.Keys + a.rows.Keys && x !in a.tombs && (x in a.entries ==> a.entries[x].Live?)
          :: if x in a.entries then a.entries[x].vec else a.rows[x]
  }

  // The ids that only a tombstone could hide.
  ghost function Untombed(a: Maps): set<Id> {
    set x | x in a.entries.Keys + a.rows.Keys && (x in a.entries ==> a.entries[x].Live?)
  }

  ghost function Deletions(m: map<Id, Entry>): set<Id> {
    set x | x in m && m[x].Deleted?
  }

  ghost function After(m: map<Id, Entry>, lsn: nat): map<Id, Entry> {
    map x | x in m && m[x].lsn > lsn :: m[x]
  }

  // ---- what holds in every run ------------------------------------------------------

  // The memtable repeats the log, and what it does not hold is older.
  ghost predicate Repeats(a: Maps) {
    && (forall x :: x in a.entries ==> x in a.last && a.last[x] == a.entries[x])
    && (forall x, y :: x in a.last && x !in a.entries && y in a.entries ==> a.last[x].lsn < a.entries[y].lsn)
  }

  // A live write that left the memtable is in a segment, or was merged away under
  // a tombstone.
  ghost predicate Kept(a: Maps) {
    forall x :: x in a.last && a.last[x].Live? && x !in a.entries ==>
      (x in a.rows || x in a.dels) && (a.last[x].lsn <= a.snap || (a.snap == 0 && a.rows == map[]))
  }

  // A tombstone over a live write comes from a delete still in the log.
  ghost predicate Blamed(a: Maps) {
    a.diskTombs <= a.tombs && forall x :: x in a.tombs && x in a.last && a.last[x].Live? ==> x in a.dels
  }

  ghost predicate Sane(a: Maps) {
    Repeats(a) && Kept(a) && Blamed(a)
  }

  // ---- insert and delete --------------------------------------------------------------

  ghost function InsertStep(a: Maps, w: map<Id, Vec>, lsn: nat): Maps {
    var tombs := a.tombs - w.Keys;
    a.(entries := a.entries + Lives(w, lsn), last := a.last + Lives(w, lsn), tombs := tombs,
       diskTombs := if a.tombs * w.Keys != {} then tombs else a.diskTombs)
  }

  // lsn is newer than every write in the log.
  ghost predicate AllBefore(a: Maps, lsn: nat) {
    forall x :: x in a.last ==> a.last[x].lsn < lsn
  }

  lemma InsertShows(a: Maps, w: map<Id, Vec>, lsn: nat)
    ensures Visible(InsertStep(a, w, lsn)) == Visible(a) + w
  {
    var b := InsertStep(a, w, lsn);
    forall x ensures x in Visible(b) <==> x in Visible(a) + w
             ensures x in Visible(b) ==> Visible(b)[x] == (Visible(a) + w)[x]
    {
      if x in w {
        assert x in b.entries && b.entries[x] == Live(w[x], lsn);
      }
    }
  }

  lemma InsertSane(a: Maps, w: map<Id, Vec>, lsn: nat)
    requires Sane(a) && AllBefore(a, lsn)
    ensures Sane(InsertStep(a, w, lsn))
  {
    var b := InsertStep(a, w, lsn);
    NothingRemoved(a.tombs, w.Keys);
    assert Repeats(b) && Kept(b) && Blamed(b);
  }

  lemma NothingRemoved(tombs: set<Id>, ids: set<Id>)
    ensures tombs * ids == {} ==> tombs - ids == tombs
  {
    assert tombs == (tombs - ids) + (tombs * ids);
  }

  ghost function DeleteStep(a: Maps, ids: set<Id>, lsn: nat): Maps {
    a.(entries := a.entries + Markers(ids, lsn), last := a.last + Markers(ids, lsn),
       tombs := a.tombs + ids, diskTombs := a.tombs + ids, dels := a.dels + ids)
  }

  lemma DeleteHides(a: Maps, ids: set<Id>, lsn: nat)
    ensures Visible(DeleteStep(a, ids, lsn)) == Visible(a) - ids
  {
  }

  lemma DeleteSane(a: Maps, ids: set<Id>, lsn: nat)
    requires Sane(a) && AllBefore(a, lsn)
    ensures Sane(DeleteStep(a, ids, lsn))
  {
    var b := DeleteStep(a, ids, lsn);
    assert Repeats(b) && Kept(b) && Blamed(b);
  }

  // ---- flush ----------------------------------------------------------------------------

  ghost function CaptureStep(a: Maps): Maps {
    var d := Deletions(a.entries);
    if d == {} then a else a.(tombs := a.tombs + d, diskTombs := a.tombs + d)
  }

  lemma CaptureShows(a: Maps)
    ensures Visible(CaptureStep(a)) == Visible(a)
    ensures CaptureStep(a).tombs == a.tombs + Deletions(a.entries)
  {
    assert Visible(CaptureStep(a)) == Visible(a);
  }

  // The tombstone file once the delete markers are captured.
  ghost function Persisted(a: Maps): set<Id> {
    if Deletions(a.entries) == {} then a.diskTombs else a.tombs + Deletions(a.entries)
  }

  lemma CapturePersists(a: Maps)
    ensures CaptureStep(a).diskTombs == Persisted(a)
    ensures CaptureStep(a).tombs == a.tombs + Deletions(a.entries)
  {
    CaptureShows(a);
  }

  lemma CaptureSane(a: Maps)
    requires Sane(a)
    ensures Sane(CaptureStep(a))
  {
    var b := CaptureStep(a);
    assert Repeats(b) && Kept(b) && Blamed(b);
  }

  // Memtable rows move to a new segment with snapshot `top`.
  ghost function SegmentStep(a: Maps, top: nat): Maps {
    CaptureStep(a).(entries := map[], rows := a.rows + LiveOf(a.entries, None), snap := top)
  }

  lemma SegmentShows(a: Maps, top: nat)
    ensures Visible(SegmentStep(a, top)) == Visible(a)
  {
    CaptureShows(a);
    assert Visible(SegmentStep(a, top)) == Visible(CaptureStep(a));
  }

  // top is the largest LSN in the memtable.
  ghost predicate Tops(a: Maps, top: nat) {
    && a.snap <= top && (forall x :: x in a.entries ==> a.entries[x].lsn <= top)
    && exists x :: x in a.entries && a.entries[x].lsn == top
  }

  // The new segment outdates the whole log.
  lemma SegmentOutdates(a: Maps, top: nat)
    requires Repeats(a) && Tops(a, top)
    ensures forall x :: x in a.last ==> a.last[x].lsn <= top
    ensures After(a.last, top) == map[]
  {
    var y :| y in a.entries && a.entries[y].lsn == top;
    forall x | x in a.last ensures a.last[x].lsn <= top {
      if x !in a.entries {
        assert a.last[x].lsn < a.entries[y].lsn;
      }
    }
  }

  lemma SegmentSane(a: Maps, top: nat)
    requires Sane(a) && Tops(a, top)
    ensures Sane(SegmentStep(a, top))
  {
    SegmentOutdates(a, top);
    CaptureSane(a);
    var b := SegmentStep(a, top);
    assert Repeats(b);
    assert forall x :: x in a.entries && a.entries[x].Live? ==> x in LiveOf(a.entries, None);
    assert Kept(b) && Blamed(b);
  }

  // A flush with nothing live only drops delete markers.
  ghost function ClearStep(a: Maps): Maps {
    CaptureStep(a).(entries := map[])
  }

  lemma ClearShows(a: Maps)
    requires forall x :: x in a.entries ==> a.entries[x].Deleted?
    ensures Visible(ClearStep(a)) == Visible(a)
  {
    CaptureShows(a);
    assert Visible(ClearStep(a)) == Visible(CaptureStep(a));
  }

  lemma ClearSane(a: Maps)
    requires Sane(a) && forall x :: x in a.entries ==> a.entries[x].Deleted?
    ensures Sane(ClearStep(a))
  {
    CaptureSane(a);
    var b := ClearStep(a);
    assert Repeats(b) && Kept(b) && Blamed(b);
  }

  // The log is cut behind the new segment: nothing is left of it.
  ghost function FlushStep(a: Maps, top: nat): Maps {
    SegmentStep(a, top).(last := map[], dels := {})
  }

  lemma FlushSane(a: Maps, top: nat)
    requires Sane(a) && Tops(a, top)
    ensures Sane(FlushStep(a, top)) && Visible(FlushStep(a, top)) == Visible(a)
  {
    SegmentSane(a, top);
    SegmentShows(a, top);
    assert Visible(FlushStep(a, top)) == Visible(SegmentStep(a, top));
  }

  // ---- merge ------------------------------------------------------------------------------

  // Oldest rows are rewritten without the tombstoned ones, under newer rows `rest`;
  // their tombstones go.
  ghost function MergeStep(a: Maps, oldest: map<Id, Vec>, rest: map<Id, Vec>, snap: nat): Maps {
    var tombs := a.tombs - (oldest.Keys * a.tombs);
    a.(rows := (oldest - a.tombs) + rest, tombs := tombs, diskTombs := tombs, snap := snap)
  }

  // No tombstone that the merge drops still hides a newer row or a live memtable entry.
  ghost predicate MergeSafe(a: Maps, oldest: map<Id, Vec>, rest: map<Id, Vec>) {
    forall x :: x in a.tombs && x in oldest ==>
      if x in a.entries then a.entries[x].Deleted? else x !in rest
  }

  // A merge leaves what is visible alone exactly when it is safe.
  lemma MergeKeepsVisibleIff(a: Maps, oldest: map<Id, Vec>, rest: map<Id, Vec>, snap: nat)
    requires a.rows == oldest + rest
    ensures Visible(MergeStep(a, oldest, rest, snap)) == Visible(a) <==> MergeSafe(a, oldest, rest)
  {
    var b := MergeStep(a, oldest, rest, snap);
    if MergeSafe(a, oldest, rest) {
      MergeKeepsVisible(a, oldest, rest, snap);
    } else {
      var x :| x in a.tombs && x in oldest && !(if x in a.entries then a.entries[x].Deleted? else x !in rest);
      assert x in Visible(b) && x !in Visible(a);
    }
  }

  lemma MergeKeepsVisible(a: Maps, oldest: map<Id, Vec>, rest: map<Id, Vec>, snap: nat)
    requires a.rows == oldest + rest && MergeSafe(a, oldest, rest)
    ensures Visible(MergeStep(a, oldest, rest, snap)) == Visible(a)
  {
    var b := MergeStep(a, oldest, rest, snap);
    forall x ensures x in Visible(b) <==> x in Visible(a)
             ensures x in Visible(b) ==> Visible(b)[x] == Visible(a)[x]
    {
    }
  }

  // A flush that will merge: no id of the oldest rows that is tombstoned or marked
  // deleted has a newer row or a live memtable entry.
  ghost predicate FlushSafe(a: Maps, oldest: map<Id, Vec>, rest: map<Id, Vec>) {
    forall x :: x in oldest && (x in a.tombs || x in Deletions(a.entries)) ==>
      x !in rest && x !in LiveOf(a.entries, None)
  }

  lemma FlushedMergeIff(a: Maps, b: Maps, oldest: map<Id, Vec>, rest: map<Id, Vec>)
    requires b.entries == map[] && b.tombs == a.tombs + Deletions(a.entries)
    ensures MergeSafe(b, oldest, rest + LiveOf(a.entries, None)) <==> FlushSafe(a, oldest, rest)
  {
  }

  lemma MergeSane(a: Maps, oldest: map<Id, Vec>, rest: map<Id, Vec>, snap: nat)
    requires Sane(a) && a.rows == oldest + rest
    requires snap == a.snap || (snap == 0 && MergeStep(a, oldest, rest, snap).rows == map[])
    ensures Sane(MergeStep(a, oldest, rest, snap))
  {
    var b := MergeStep(a, oldest, rest, snap);
    assert Repeats(b) && Blamed(b);
    EmptyParts(a, oldest, rest);
    forall x | x in b.last && b.last[x].Live? && x !in b.entries
      ensures x in b.rows || x in b.dels
      ensures b.last[x].lsn <= b.snap || (b.snap == 0 && b.rows == map[])
    {
    }
  }

  lemma EmptyParts(a: Maps, oldest: map<Id, Vec>, rest: map<Id, Vec>)
    requires a.rows == oldest + rest
    ensures a.rows == map[] ==> (oldest - a.tombs) + rest == map[]
  {
    if a.rows == map[] {
      forall x ensures x !in (oldest - a.tombs) + rest {
        assert x !in oldest + rest;
      }
    }
  }

  // ---- restart ------------------------------------------------------------------------------

  // `start`: `deleted` are the ids with a replayed delete.
  ghost function StartStep(a: Maps, deleted: set<Id>): Maps {
    a.(entries := After(a.last, a.snap), tombs := a.diskTombs + deleted)
  }

  // What `start` can find in the log.
  ghost predicate Replayable(a: Maps, deleted: set<Id>) {
    && Deletions(After(a.last, a.snap)) <= deleted <= After(a.last, a.snap).Keys && deleted <= a.dels
    && (a.snap == 0 ==> deleted == a.dels)
    && forall x :: x in a.entries ==> a.entries[x].lsn > a.snap
  }

  // Every id that only a tombstone could hide has one after the start exactly if
  // it had one before.
  ghost predicate TombsReturn(a: Maps, deleted: set<Id>) {
    forall x :: x in Untombed(a) ==> (x in a.tombs <==> x in a.diskTombs + deleted)
  }

  ghost predicate SameAt(a: map<Id, Vec>, b: map<Id, Vec>, x: Id) {
    (x in a <==> x in b) && (x in a ==> a[x] == b[x])
  }

  lemma StartKeepsOneIff(a: Maps, deleted: set<Id>, x: Id)
    requires Sane(a) && Replayable(a, deleted)
    ensures SameAt(Visible(StartStep(a, deleted)), Visible(a), x) <==>
            (x in Untombed(a) ==> (x in a.tombs <==> x in a.diskTombs + deleted))
  {
    var b := StartStep(a, deleted);
    if x in a.entries {
      assert b.entries[x] == a.entries[x];
    } else if x in b.entries {
      if a.last[x].Live? {
        assert a.snap == 0 && x in a.dels;
      }
      assert x in deleted;
    }
  }

  // Recovery restores what was visible exactly when the tombstones return.
  lemma StartKeepsVisibleIff(a: Maps, deleted: set<Id>)
    requires Sane(a) && Replayable(a, deleted)
    ensures Visible(StartStep(a, deleted)) == Visible(a) <==> TombsReturn(a, deleted)
  {
    var b := StartStep(a, deleted);
    forall x: Id
      ensures SameAt(Visible(b), Visible(a), x) <==>
              (x in Untombed(a) ==> (x in a.tombs <==> x in a.diskTombs + deleted))
    {
      StartKeepsOneIff(a, deleted, x);
    }
    SameEverywhere(Visible(b), Visible(a));
  }

  lemma SameEverywhere(a: map<Id, Vec>, b: map<Id, Vec>)
    ensures a == b <==> forall x: Id :: SameAt(a, b, x)
  {
    if forall x: Id :: SameAt(a, b, x) {
      forall x: Id ensures (x in a <==> x in b) && (x in a ==> a[x] == b[x]) {
        assert SameAt(a, b, x);
      }
    }
  }

  // The same after delete markers were captured, in terms of the state before.
  lemma CapturedReturnIff(a: Maps, deleted: set<Id>)
    ensures TombsReturn(CaptureStep(a), deleted) <==>
            forall x :: x in Untombed(a) ==> (x in a.tombs <==> x in Persisted(a) + deleted)
  {
    var b := CaptureStep(a);
    CapturePersists(a);
    assert Untombed(b) == Untombed(a);
    forall x | x in Untombed(a) ensures x in b.tombs <==> x in a.tombs {
    }
  }

  // After a flush that writes a segment and leaves nothing in the log: the file must name
  // every tombstoned id of its rows.
  lemma SegmentReturnIff(a: Maps, top: nat)
    requires a.diskTombs <= a.tombs
    ensures TombsReturn(SegmentStep(a, top), {}) <==>
            (a.rows + LiveOf(a.entries, None)).Keys * a.tombs <= Persisted(a)
  {
    var b, rows := SegmentStep(a, top), a.rows + LiveOf(a.entries, None);
    CapturePersists(a);
    assert Untombed(b) == rows.Keys;
    forall x | x in rows ensures (x in b.tombs <==> x in b.diskTombs + {}) <==> (x in a.tombs ==> x in Persisted(a)) {
      assert x in Deletions(a.entries) ==> x in Persisted(a);
    }
  }

  // After a flush that only drops markers, the log is replayed as it was.
  lemma ClearReturnIff(a: Maps, deleted: set<Id>)
    ensures TombsReturn(ClearStep(a), deleted) <==>
            forall x :: x in a.rows ==> ((x in a.tombs || x in Deletions(a.entries)) <==> x in Persisted(a) + deleted)
  {
    CapturePersists(a);
    assert Untombed(ClearStep(a)) == a.rows.Keys;
  }

  lemma StartSane(a: Maps, deleted: set<Id>)
    requires Sane(a) && Replayable(a, deleted)
    ensures Sane(StartStep(a, deleted))
  {
    var b := StartStep(a, deleted);
    assert Repeats(b) && Kept(b) && Blamed(b);
  }

  // ---- what holds as long as every step meets its guard ----------------------------------------

  // No live write is tombstoned; a stored tombstone is on disk or still marked; a stored
  // row deleted since is tombstoned or still marked; a live write that left the memtable
  // is stored.
  ghost predicate Clean(a: Maps) {
    && (forall x :: x in a.last && a.last[x].Live? ==> x !in a.tombs)
    && (forall x :: x in a.rows && x in a.tombs ==> x in a.diskTombs || x in Deletions(a.entries))
    && (forall x :: x in a.rows && x in a.last && a.last[x].Deleted? ==> x in a.tombs || x in a.entries)
    && (forall x :: x in a.last && a.last[x].Live? && x !in a.entries ==> x in a.rows)
  }

  lemma InsertClean(a: Maps, w: map<Id, Vec>, lsn: nat)
    requires Clean(a)
    ensures Clean(InsertStep(a, w, lsn))
  {
    NothingRemoved(a.tombs, w.Keys);
  }

  lemma DeleteClean(a: Maps, ids: set<Id>, lsn: nat)
    requires Clean(a)
    ensures Clean(DeleteStep(a, ids, lsn))
  {
  }

  lemma CaptureClean(a: Maps)
    requires Clean(a) && Repeats(a)
    ensures Clean(CaptureStep(a))
    ensures forall x :: x in a.rows && x in a.last && a.last[x].Deleted? ==> x in CaptureStep(a).tombs
  {
    CaptureShows(a);
    assert forall x :: x in a.entries && a.last[x].Deleted? ==> x in Deletions(a.entries);
  }

  lemma SegmentClean(a: Maps, top: nat)
    requires Clean(a) && Repeats(a)
    ensures Clean(SegmentStep(a, top)) && Clean(FlushStep(a, top))
  {
    CaptureClean(a);
    var b, live := SegmentStep(a, top), LiveOf(a.entries, None);
    CaptureShows(a);
    assert forall x :: x in live ==> a.last[x].Live? && x !in b.tombs;
    assert forall x :: x in a.last && a.last[x].Live? && x in a.entries ==> x in live;
  }

  lemma ClearClean(a: Maps)
    requires Clean(a) && Repeats(a) && forall x :: x in a.entries ==> a.entries[x].Deleted?
    ensures Clean(ClearStep(a))
  {
    CaptureClean(a);
  }

  lemma MergeClean(a: Maps, oldest: map<Id, Vec>, rest: map<Id, Vec>, snap: nat)
    requires Clean(a) && a.rows == oldest + rest && MergeSafe(a, oldest, rest)
    ensures Clean(MergeStep(a, oldest, rest, snap))
  {
  }

  lemma StartClean(a: Maps, deleted: set<Id>)
    requires Sane(a) && Clean(a) && Replayable(a, deleted) && TombsReturn(a, deleted)
    ensures Clean(StartStep(a, deleted))
  {
    var b := StartStep(a, deleted);
    forall x | x in b.last && b.last[x].Live? ensures x !in b.tombs {
      if x in a.entries {
        assert x in Untombed(a);
      } else {
        assert x in a.rows && a.last[x].lsn <= a.snap;
      }
    }
  }

  // With an empty memtable nothing can go wrong on a restart.
  lemma EmptyMemReturns(a: Maps, deleted: set<Id>)
    requires Sane(a) && Clean(a) && Replayable(a, deleted) && a.entries == map[]
    ensures TombsReturn(a, deleted)
  {
  }

  // An id whose last replayed record is an insert, with a replayed delete before it.
  ghost predicate Reinserted(a: Maps, deleted: set<Id>, x: Id) {
    var m := After(a.last, a.snap);
    x in m && m[x].Live? && x in deleted
  }

  // Then the tombstones return exactly when no replayed id was deleted and reinserted.
  lemma ReturnIffNoneReinserted(a: Maps, deleted: set<Id>)
    requires Sane(a) && Clean(a) && Replayable(a, deleted)
    ensures TombsReturn(a, deleted) <==> forall x :: !Reinserted(a, deleted, x)
  {
    if x :| Reinserted(a, deleted, x) {
      assert x in a.entries && x in Untombed(a) && x !in a.tombs;
    } else {
      forall x | x in Untombed(a) ensures x in a.tombs <==> x in a.diskTombs + deleted {
        assert !Reinserted(a, deleted, x);
      }
    }
  }
}
