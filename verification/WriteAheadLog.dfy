// The log object: an LSN counter, a file that only grows between truncations,
// and a side file that remembers the counter.
module WriteAheadLog {
  import opened Wrappers
  import opened ByteCodec
  import opened Framing
  import opened WalCodec
  import opened WalRecovery

  datatype WalError = NotOpen | BadShape | PackOverflow

  function Max(a: nat, b: nat): nat {
    if a < b then b else a
  }

  // LSN of the last recovered record, 0 when there is none.
  function TailLsn(rs: seq<Record>): nat {
    if rs == [] then 0 else rs[|rs| - 1].lsn
  }

  class Wal {
    const format: Format
    var file: seq<byte>   // contents of wal.log, empty when it does not exist
    var meta: nat         // contents of wal.log.meta, 0 when it does not exist
    var lastLsn: nat
    var isOpen: bool

    // A log object over whatever an earlier process left on disk.
    constructor (format: Format, file: seq<byte>, meta: nat)
      ensures this.format == format && this.file == file && this.meta == meta
      ensures lastLsn == 0 && !isOpen
    {
      this.format, this.file, this.meta := format, file, meta;
      lastLsn, isOpen := 0, false;
    }

    method Open()
      modifies this
      ensures isOpen && file == old(file)
      ensures lastLsn == meta == Max(old(meta), TailLsn(Parse(format, file)))
      ensures lastLsn + 1 == NextLsn(format, file, old(meta))
      ensures var rs := Parse(format, file);
              && lastLsn >= old(meta) && (rs != [] ==> lastLsn >= rs[|rs| - 1].lsn)
              && (lastLsn == old(meta) || (rs != [] && lastLsn == rs[|rs| - 1].lsn))
    {
      var recovered := Recover();
      lastLsn := Max(meta, TailLsn(recovered));
      isOpen := true;
      meta := lastLsn;
    }

    // A batch that `struct.pack` cannot hold still consumes an LSN.
    method Append(op: byte, ids: seq<Id>, vectors: seq<Vec>) returns (r: Result<nat, WalError>)
      modifies this
      ensures isOpen == old(isOpen)
      ensures !old(isOpen) ==> r == Failure(NotOpen) && unchanged(this)
      ensures old(isOpen) && !ShapeOk(format.dim, ids, vectors) ==> r == Failure(BadShape) && unchanged(this)
      ensures old(isOpen) && ShapeOk(format.dim, ids, vectors) ==>
                var lsn := old(lastLsn) + 1;
                && lastLsn == lsn
                && if Packable(lsn, |ids|) then
                  && r == Success(lsn) && meta == lsn
                  && file == old(file) + Serialize(format, Record(lsn, op, ids, vectors))
                else
                  r == Failure(PackOverflow) && meta == old(meta) && file == old(file)
      ensures r.Success? && (op == OP_INSERT || op == OP_DELETE) ==>
                Writable(format, lastLsn, Record(lastLsn, op, ids, vectors))
    {
      if !isOpen {
        return Failure(NotOpen);
      }
      if !ShapeOk(format.dim, ids, vectors) {
        return Failure(BadShape);
      }
      lastLsn := lastLsn + 1;
      if !Packable(lastLsn, |ids|) {
        return Failure(PackOverflow);
      }
      file := file + Serialize(format, Record(lastLsn, op, ids, vectors));
      meta := lastLsn;
      return Success(lastLsn);
    }

    method Recover() returns (records: seq<Record>)
      ensures records == Parse(format, file)
    {
      records := [];
      var rest := file;
      while true
        invariant Parse(format, file) == records + Parse(format, rest)
        decreases |rest|
      {
        var next := Next(format, rest);
        ScanOnce(format, records, rest);
        if next.None? {
          break;
        }
        var (record, size) := next.value;
        records := records + [record];
        rest := rest[size..];
      }
    }

    method TruncateBefore(lsn: nat)
      modifies this
      ensures file == SerializeAll(format, From(Parse(format, old(file)), lsn))
      ensures lastLsn == old(lastLsn) && meta == lastLsn && isOpen
    {
      var records := Recover();
      var kept := [];
      for i := 0 to |records|
        invariant unchanged(this)
        invariant kept == SerializeAll(format, From(records[..i], lsn))
      {
        KeepStep(format, records, i, lsn);
        if records[i].lsn >= lsn {
          kept := kept + Serialize(format, records[i]);
        }
      }
      assert records[..|records|] == records;
      file := kept;
      meta := lastLsn;
      isOpen := true;
    }

    method Close()
      modifies this
      ensures !isOpen && file == old(file) && meta == old(meta) && lastLsn == old(lastLsn)
    {
      isOpen := false;
    }
  }

  // The LSN that the first append after `open` assigns.
  function NextLsn(f: Format, file: seq<byte>, meta: nat): nat {
    Max(meta, TailLsn(Parse(f, file))) + 1
  }

  // So after opening whatever an earlier process left, the first append is recovered,
  // whatever it brings, exactly when the file has no unread bytes.
  lemma FirstAppendIffIntact(f: Format, file: seq<byte>, meta: nat)
    requires NextLsn(f, file, meta) < TWO_64
    ensures Intact(f, file) <==>
            forall r :: Writable(f, NextLsn(f, file, meta), r) && r.ids != [] ==> RecoveredAfter(f, file, r)
  {
    AppendRecoverableIffIntact(f, file, NextLsn(f, file, meta));
  }

  lemma ScanOnce(f: Format, records: seq<Record>, b: seq<byte>)
    ensures Next(f, b).None? ==> records + Parse(f, b) == records
    ensures Next(f, b).Some? ==>
              var (r, n) := Next(f, b).value;
              0 < n <= |b| && records + Parse(f, b) == records + [r] + Parse(f, b[n..])
  {
    if Next(f, b).Some? {
      SerializedOfNext(f, b);
      var (r, n) := Next(f, b).value;
      assert Parse(f, b) == [r] + Parse(f, b[n..]);
    } else {
      assert Parse(f, b) == [];
    }
  }

  lemma KeepStep(f: Format, rs: seq<Record>, i: nat, lsn: nat)
    requires i < |rs|
    ensures SerializeAll(f, From(rs[..i + 1], lsn))
         == SerializeAll(f, From(rs[..i], lsn)) + if rs[i].lsn >= lsn then Serialize(f, rs[i]) else []
  {
    assert rs[..i + 1][..i] == rs[..i];
    if rs[i].lsn >= lsn {
      WriteConcat(Writer(f), From(rs[..i], lsn), [rs[i]]);
      WriteOne(Writer(f), rs[i]);
    } else {
      assert From(rs[..i], lsn) + [] == From(rs[..i], lsn);
    }
  }
}
