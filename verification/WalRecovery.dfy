// What crash recovery reads from any log file: intact, cut anywhere, corrupted,
// or appended to after damage.
module WalRecovery {
  import opened Wrappers
  import opened ByteCodec
  import opened Framing
  import opened WalCodec

  function Writer(f: Format): Record -> seq<byte> { r => Serialize(f, r) }
  function Reader(f: Format): seq<byte> -> Option<(Record, nat)> { b => Next(f, b) }
  ghost function Valid(f: Format): Record -> bool { r => RecordOk(f, r) }

  function SerializeAll(f: Format, rs: seq<Record>): seq<byte> {
    WriteAll(Writer(f), rs)
  }

  // `recover`.
  function Parse(f: Format, b: seq<byte>): seq<Record> {
    Scan(Reader(f), b)
  }

  ghost predicate AllOk(f: Format, rs: seq<Record>) {
    All(Valid(f), rs)
  }

  // No bytes that `recover` would leave unread.
  ghost predicate Intact(f: Format, b: seq<byte>) {
    SerializeAll(f, Parse(f, b)) == b
  }

  lemma RecordsAreFramed(f: Format)
    ensures Framed(Writer(f), Valid(f), Reader(f))
  {
    var put, ok, next := Writer(f), Valid(f), Reader(f);
    forall x, rest | ok(x) ensures next(put(x) + rest) == Some((x, |put(x)|)) && put(x) != [] {
      NextOfSerialized(f, x, rest);
    }
    forall b | next(b).Some?
      ensures var (x, n) := next(b).value; ok(x) && 0 < n <= |b| && put(x) == b[..n]
    {
      SerializedOfNext(f, b);
    }
    forall x, k | ok(x) && 0 <= k < |put(x)| ensures next(put(x)[..k]).None? {
      CutRecordIsUnread(f, x, k);
    }
  }

  lemma ParsedAreOk(f: Format, b: seq<byte>)
    ensures AllOk(f, Parse(f, b))
  {
    RecordsAreFramed(f);
    ScanOk(Writer(f), Valid(f), Reader(f), b);
  }

  // Whatever follows a run of whole records, the scan first returns those records.
  lemma ParseAfterRecords(f: Format, rs: seq<Record>, rest: seq<byte>)
    requires AllOk(f, rs)
    ensures Parse(f, SerializeAll(f, rs) + rest) == rs + Parse(f, rest)
  {
    RecordsAreFramed(f);
    ScanAfterRecords(Writer(f), Valid(f), Reader(f), rs, rest);
  }

  // Recovery inverts logging.
  lemma RecoverInvertsSerialize(f: Format, rs: seq<Record>)
    requires AllOk(f, rs)
    ensures Parse(f, SerializeAll(f, rs)) == rs
    ensures Intact(f, SerializeAll(f, rs))
  {
    RecordsAreFramed(f);
    ParseAfterRecords(f, rs, []);
    NothingToScan(Writer(f), Valid(f), Reader(f));
    assert SerializeAll(f, rs) + [] == SerializeAll(f, rs);
  }

  // Logging again what was recovered writes a byte prefix of the file, whatever the file.
  lemma ReserializeIsPrefix(f: Format, b: seq<byte>)
    ensures SerializeAll(f, Parse(f, b)) <= b
  {
    RecordsAreFramed(f);
    RewriteIsPrefix(Writer(f), Valid(f), Reader(f), b);
  }

  // Torn tail: after a cut at any byte, recovery returns exactly the first n
  // records, where n is the number of records lying wholly before the cut.
  lemma TornTail(f: Format, rs: seq<Record>, cut: nat) returns (n: nat)
    requires AllOk(f, rs) && cut <= |SerializeAll(f, rs)|
    ensures n <= |rs| && Parse(f, SerializeAll(f, rs)[..cut]) == rs[..n]
    ensures |SerializeAll(f, rs[..n])| <= cut
    ensures n < |rs| ==> cut < |SerializeAll(f, rs[..n + 1])|
  {
    n := WholeBefore(Writer(f), rs, cut);
    RecordsAreFramed(f);
    ScanOfCut(Writer(f), Valid(f), Reader(f), rs, cut);
    WholeBeforeIs(Writer(f), rs, cut);
  }

  // A complete record whose stored checksum is not the checksum of its bytes
  // ends recovery just before it, whatever comes after.
  lemma BadChecksumStops(f: Format, rs: seq<Record>, bad: seq<byte>, rest: seq<byte>)
    requires AllOk(f, rs)
    requires |bad| >= HEADER_SIZE && |bad| == DeclaredSize(f, bad)
    requires Decode(bad[|bad| - 4..]) != f.crc(bad[..|bad| - 4])
    ensures Parse(f, SerializeAll(f, rs) + bad + rest) == rs
  {
    var b := bad + rest;
    ParseAfterRecords(f, rs, b);
    assert SerializeAll(f, rs) + bad + rest == SerializeAll(f, rs) + b;
    BadChecksumIsUnread(f, bad, rest);
  }

  lemma BadChecksumIsUnread(f: Format, bad: seq<byte>, rest: seq<byte>)
    requires |bad| >= HEADER_SIZE && |bad| == DeclaredSize(f, bad)
    requires Decode(bad[|bad| - 4..]) != f.crc(bad[..|bad| - 4])
    ensures Parse(f, bad + rest) == []
  {
    var b := bad + rest;
    assert b[9..13] == bad[9..13];
    assert b[..|bad| - 4] == bad[..|bad| - 4];
    assert b[|bad| - 4..|bad|] == bad[|bad| - 4..];
  }

  // ---- appending to a file that may be torn -----------------------------------

  lemma IntactAppend(f: Format, b: seq<byte>, r: Record)
    requires Intact(f, b) && RecordOk(f, r)
    ensures Parse(f, b + Serialize(f, r)) == Parse(f, b) + [r]
    ensures Intact(f, b + Serialize(f, r))
  {
    ParsedAreOk(f, b);
    WriteConcat(Writer(f), Parse(f, b), [r]);
    WriteOne(Writer(f), r);
    RecoverInvertsSerialize(f, Parse(f, b) + [r]);
  }

  // The append itself is what a recovered append would start with.
  lemma RecoveredAppendRepeats(f: Format, b: seq<byte>, r: Record)
    requires RecordOk(f, r) && Parse(f, b + Serialize(f, r)) == Parse(f, b) + [r]
    ensures SerializeAll(f, Parse(f, b)) + Serialize(f, r) <= b + Serialize(f, r)
  {
    ReserializeIsPrefix(f, b + Serialize(f, r));
    WriteConcat(Writer(f), Parse(f, b), [r]);
    WriteOne(Writer(f), r);
  }

  // A record is recovered after what is already in the file.
  ghost predicate RecoveredAfter(f: Format, b: seq<byte>, r: Record) {
    Parse(f, b + Serialize(f, r)) == Parse(f, b) + [r]
  }

  lemma HeaderBytes(f: Format, r: Record)
    requires r.op < 256
    ensures |Serialize(f, r)| > 8 && Serialize(f, r)[..8] == Encode(r.lsn, 8) && Serialize(f, r)[8] == r.op
  {
    assert Header(r)[..8] == Encode(r.lsn, 8) && Header(r)[8] == Encode(r.op, 1)[0];
    assert Serialize(f, r)[..13] == Header(r);
  }

  lemma UnreadBytes(f: Format, b: seq<byte>)
    requires !Intact(f, b)
    ensures |SerializeAll(f, Parse(f, b))| < |b|
  {
    ReserializeIsPrefix(f, b);
  }

  lemma ByteOfPrefix(a: seq<byte>, b: seq<byte>, s: seq<byte>, i: nat)
    requires |a| <= |b| && i < |s| && a + s <= b + s
    ensures s[i] == if |a| + i < |b| then b[|a| + i] else s[|a| + i - |b|]
  {
    assert (a + s)[|a| + i] == (b + s)[|a| + i];
  }

  // The bytes of a recovered append start with the unread bytes, and then repeat
  // themselves: the op byte is an unread byte or a byte of the LSN before it.
  lemma ForcedByte(a: seq<byte>, b: seq<byte>, s: seq<byte>, op: byte, head: seq<byte>)
    requires |a| < |b| && |s| > 8 && s[..8] == head && s[8] == op && a + s <= b + s
    ensures var d := |b| - |a|; op == if d > 8 then b[|a| + 8] else head[8 - d]
  {
    var d := |b| - |a|;
    ByteOfPrefix(a, b, s, 8);
    if d <= 8 {
      assert head[8 - d] == s[8 - d];
    }
  }

  lemma OpByteIsForced(f: Format, b: seq<byte>, r: Record, a: seq<byte>, head: seq<byte>)
    requires RecordOk(f, r) && a + Serialize(f, r) <= b + Serialize(f, r)
    requires |a| < |b| && head == Encode(r.lsn, 8)
    ensures var d := |b| - |a|; r.op == if d > 8 then b[|a| + 8] else head[8 - d]
  {
    HeaderBytes(f, r);
    ForcedByte(a, b, Serialize(f, r), r.op, head);
  }

  // On a torn file an insert and a delete with the same LSN cannot both be recovered.
  lemma NotBothRecovered(f: Format, b: seq<byte>, insert: Record, delete: Record)
    requires !Intact(f, b) && RecordOk(f, insert) && RecordOk(f, delete)
    requires insert.op == OP_INSERT && delete.op == OP_DELETE && insert.lsn == delete.lsn
    ensures !RecoveredAfter(f, b, insert) || !RecoveredAfter(f, b, delete)
  {
    UnreadBytes(f, b);
    if RecoveredAfter(f, b, insert) && RecoveredAfter(f, b, delete) {
      var a := SerializeAll(f, Parse(f, b));
      RecoveredAppendRepeats(f, b, insert);
      RecoveredAppendRepeats(f, b, delete);
      OpByteIsForced(f, b, insert, a, Encode(insert.lsn, 8));
      OpByteIsForced(f, b, delete, a, Encode(insert.lsn, 8));
      assert false;
    }
  }

  // A record that the next append can write.
  ghost predicate Writable(f: Format, lsn: nat, r: Record) {
    RecordOk(f, r) && r.lsn == lsn && (r.op == OP_INSERT || r.op == OP_DELETE)
  }

  // `open` appends after a torn tail without cutting it. Whatever batch the next
  // append brings, it is recoverable exactly when the file has no unread bytes: on
  // a torn file the insert or the delete of one id is lost.
  lemma AppendRecoverableIffIntact(f: Format, b: seq<byte>, lsn: nat)
    requires lsn < TWO_64
    ensures Intact(f, b) ==> forall r :: Writable(f, lsn, r) ==> RecoveredAfter(f, b, r)
    ensures Intact(f, b) <==> forall r :: Writable(f, lsn, r) && r.ids != [] ==> RecoveredAfter(f, b, r)
  {
    if Intact(f, b) {
      forall r | Writable(f, lsn, r) ensures RecoveredAfter(f, b, r) {
        IntactAppend(f, b, r);
      }
    } else {
      var zero: Vec := seq(f.dim, _ => 0);
      var insert, delete := Record(lsn, OP_INSERT, [0], [zero]), Record(lsn, OP_DELETE, [0], [zero]);
      NotBothRecovered(f, b, insert, delete);
      assert Writable(f, lsn, insert) && Writable(f, lsn, delete);
    }
  }

  // ---- truncation -------------------------------------------------------------

  // The records with at least the given LSN.
  function From(rs: seq<Record>, lsn: nat): seq<Record> {
    if rs == [] then []
    else
      var last := rs[|rs| - 1];
      From(rs[..|rs| - 1], lsn) + if last.lsn >= lsn then [last] else []
  }

  lemma {:induction false} FromKeepsOk(f: Format, rs: seq<Record>, lsn: nat)
    requires AllOk(f, rs)
    ensures AllOk(f, From(rs, lsn))
  {
    if rs != [] {
      FromKeepsOk(f, rs[..|rs| - 1], lsn);
    }
  }

  // Rewriting the log with the records from `lsn` on leaves an intact file that
  // recovers to exactly those records, even when the old file was damaged.
  lemma TruncationRecovers(f: Format, b: seq<byte>, lsn: nat)
    ensures var t := SerializeAll(f, From(Parse(f, b), lsn));
            Parse(f, t) == From(Parse(f, b), lsn) && Intact(f, t)
  {
    ParsedAreOk(f, b);
    FromKeepsOk(f, Parse(f, b), lsn);
    RecoverInvertsSerialize(f, From(Parse(f, b), lsn));
  }
}
