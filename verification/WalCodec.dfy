// The byte format of the write-ahead log: what one record looks like, what the
// recovery scan reads back, and how the two relate on damaged files.
module WalCodec {
  import opened Wrappers
  import opened ByteCodec

  const OP_INSERT: byte := 0
  const OP_DELETE: byte := 1
  const HEADER_SIZE := 13   // struct "<QB I"
  const CHECKSUM_SIZE := 4  // struct "<I"

  type Id = int64
  type float32 = w: int | 0 <= w < TWO_32   // an opaque 4-byte pattern
  type Vec = seq<float32>
  type uint32 = n: int | 0 <= n < TWO_32

  // crc32 is any function from bytes to 32 bits.
  datatype Format = Format(dim: nat, crc: seq<byte> -> uint32)

  datatype Record = Record(lsn: nat, op: byte, ids: seq<Id>, vectors: seq<Vec>)

  // What `_prepare_record_arrays` accepts.
  predicate ShapeOk(dim: nat, ids: seq<Id>, vectors: seq<Vec>) {
    |ids| == |vectors| && forall i :: 0 <= i < |vectors| ==> |vectors[i]| == dim
  }

  // What `struct.pack` can hold.
  predicate Packable(lsn: nat, count: nat) {
    lsn < TWO_64 && count < TWO_32
  }

  predicate RecordOk(f: Format, r: Record) {
    ShapeOk(f.dim, r.ids, r.vectors) && Packable(r.lsn, |r.ids|)
  }

  // ---- body -----------------------------------------------------------------

  function Unsigned(ids: seq<Id>): (ws: seq<nat>)
    ensures |ws| == |ids|
    ensures forall i :: 0 <= i < |ws| ==> ws[i] == ToUnsigned(ids[i])
  {
    seq(|ids|, i requires 0 <= i < |ids| => ToUnsigned(ids[i]))
  }

  function Signed(ws: seq<nat>): (ids: seq<Id>)
    requires forall i :: 0 <= i < |ws| ==> ws[i] < TWO_64
    ensures |ids| == |ws|
    ensures forall i :: 0 <= i < |ws| ==> ids[i] == ToSigned(ws[i])
  {
    seq(|ws|, i requires 0 <= i < |ws| => ToSigned(ws[i]))
  }

  // Bytes of `count` vectors.
  function VecsSize(dim: nat, count: nat): nat {
    if count == 0 then 0 else 4 * dim + VecsSize(dim, count - 1)
  }

  function EncodeVecs(vs: seq<Vec>): (b: seq<byte>) {
    if vs == [] then [] else EncodeWords(vs[0], 4) + EncodeVecs(vs[1..])
  }

  function DecodeVecs(dim: nat, b: seq<byte>, count: nat): (vs: seq<Vec>)
    requires |b| == VecsSize(dim, count)
    ensures |vs| == count
    ensures forall i :: 0 <= i < |vs| ==> |vs[i]| == dim
  {
    if count == 0 then []
    else
      Widths();
      [DecodeWords(b[..4 * dim], 4, dim)] + DecodeVecs(dim, b[4 * dim..], count - 1)
  }

  lemma {:induction false} DecodeEncodeVecs(dim: nat, vs: seq<Vec>)
    requires forall i :: 0 <= i < |vs| ==> |vs[i]| == dim
    ensures |EncodeVecs(vs)| == VecsSize(dim, |vs|)
    ensures DecodeVecs(dim, EncodeVecs(vs), |vs|) == vs
  {
    if vs != [] {
      Widths();
      var b := EncodeVecs(vs);
      DecodeEncodeWords(vs[0], 4);
      DecodeEncodeVecs(dim, vs[1..]);
      assert b[..4 * dim] == EncodeWords(vs[0], 4);
      assert b[4 * dim..] == EncodeVecs(vs[1..]);
    }
  }

  lemma {:induction false} EncodeDecodeVecs(dim: nat, b: seq<byte>, count: nat)
    requires |b| == VecsSize(dim, count)
    ensures EncodeVecs(DecodeVecs(dim, b, count)) == b
  {
    if count > 0 {
      Widths();
      var vs := DecodeVecs(dim, b, count);
      EncodeDecodeWords(b[..4 * dim], 4, dim);
      EncodeDecodeVecs(dim, b[4 * dim..], count - 1);
      assert vs[1..] == DecodeVecs(dim, b[4 * dim..], count - 1);
      assert b == b[..4 * dim] + b[4 * dim..];
    }
  }

  function DecodeIds(b: seq<byte>, count: nat): (ids: seq<Id>)
    requires |b| == count * 8
    ensures |ids| == count
  {
    Widths();
    Signed(DecodeWords(b, 8, count))
  }

  function EncodeIds(ids: seq<Id>): (b: seq<byte>)
    ensures |b| == |ids| * 8
  {
    EncodeWords(Unsigned(ids), 8)
  }

  lemma DecodeEncodeIds(ids: seq<Id>)
    ensures DecodeIds(EncodeIds(ids), |ids|) == ids
  {
    Widths();
    DecodeEncodeWords(Unsigned(ids), 8);
    assert Signed(Unsigned(ids)) == ids;
  }

  lemma EncodeDecodeIds(b: seq<byte>, count: nat)
    requires |b| == count * 8
    ensures EncodeIds(DecodeIds(b, count)) == b
  {
    Widths();
    EncodeDecodeWords(b, 8, count);
    assert Unsigned(DecodeIds(b, count)) == DecodeWords(b, 8, count);
  }

  // ---- one record -----------------------------------------------------------

  function BodySize(dim: nat, count: nat): nat {
    count * 8 + VecsSize(dim, count)
  }

  function Header(r: Record): (b: seq<byte>)
    ensures |b| == HEADER_SIZE
  {
    Encode(r.lsn, 8) + Encode(r.op, 1) + Encode(|r.ids|, 4)
  }

  function Body(r: Record): seq<byte> {
    EncodeIds(r.ids) + EncodeVecs(r.vectors)
  }

  // `_serialize_record`.
  function Serialize(f: Format, r: Record): seq<byte> {
    var content := Header(r) + Body(r);
    content + Encode(f.crc(content), 4)
  }

  // Size of the record that starts at b, as its header declares it.
  function DeclaredSize(f: Format, b: seq<byte>): nat
    requires |b| >= HEADER_SIZE
  {
    HEADER_SIZE + BodySize(f.dim, Decode(b[9..13])) + CHECKSUM_SIZE
  }

  // The fields of a complete record.
  function Fields(f: Format, b: seq<byte>): (r: Record)
    requires |b| >= HEADER_SIZE && |b| == DeclaredSize(f, b)
    ensures RecordOk(f, r)
  {
    Widths();
    var count := Decode(b[9..13]);
    var body := b[13..|b| - 4];
    Record(Decode(b[..8]), Decode(b[8..9]),
           DecodeIds(body[..count * 8], count),
           DecodeVecs(f.dim, body[count * 8..], count))
  }

  // One turn of the loop in `recover`: the record at the front of b and its
  // size, if header, body and checksum are all there and the checksum matches.
  function Next(f: Format, b: seq<byte>): Option<(Record, nat)> {
    if |b| < HEADER_SIZE then None
    else
      var n := DeclaredSize(f, b);
      if |b| < n then None
      else if Decode(b[n - 4..n]) != f.crc(b[..n - 4]) then None
      else
        assert b[..n][9..13] == b[9..13];
        Some((Fields(f, b[..n]), n))
  }

  lemma HeaderFields(r: Record, b: seq<byte>)
    requires Packable(r.lsn, |r.ids|) && |b| >= 13 && b[..13] == Header(r)
    ensures Decode(b[..8]) == r.lsn && Decode(b[8..9]) == r.op && Decode(b[9..13]) == |r.ids|
  {
    Widths();
    assert b[..8] == b[..13][..8] == Encode(r.lsn, 8);
    assert b[8..9] == b[..13][8..9] == Encode(r.op, 1);
    assert b[9..13] == b[..13][9..13] == Encode(|r.ids|, 4);
    DecodeEncode(r.lsn, 8);
    DecodeEncode(r.op, 1);
    DecodeEncode(|r.ids|, 4);
  }

  lemma BodyParts(f: Format, r: Record)
    requires RecordOk(f, r)
    ensures var body, count := Body(r), |r.ids|;
            && |body| == BodySize(f.dim, count)
            && DecodeIds(body[..count * 8], count) == r.ids
            && DecodeVecs(f.dim, body[count * 8..], count) == r.vectors
  {
    DecodeEncodeIds(r.ids);
    DecodeEncodeVecs(f.dim, r.vectors);
    assert Body(r)[..|r.ids| * 8] == EncodeIds(r.ids);
    assert Body(r)[|r.ids| * 8..] == EncodeVecs(r.vectors);
  }

  // Where the parts of a serialised record lie.
  lemma Layout(f: Format, r: Record)
    ensures var s := Serialize(f, r);
            var n := |s| - 4;
            n == 13 + |Body(r)| && s[..13] == Header(r) && s[13..n] == Body(r) && Decode(s[n..]) == f.crc(s[..n])
  {
    Widths();
    var content := Header(r) + Body(r);
    assert Serialize(f, r)[..|content|] == content;
    DecodeEncode(f.crc(content), 4);
  }

  // ---- the bytes ----------------------------------------------------------------

  // Where vector i starts among the vectors' bytes.
  lemma {:induction false} VectorAt(dim: nat, vs: seq<Vec>, i: nat)
    requires i < |vs| && forall j :: 0 <= j < |vs| ==> |vs[j]| == dim
    ensures VecsSize(dim, i) + 4 * dim <= |EncodeVecs(vs)|
    ensures EncodeVecs(vs)[VecsSize(dim, i)..VecsSize(dim, i) + 4 * dim] == EncodeWords(vs[i], 4)
  {
    if i > 0 {
      VectorAt(dim, vs[1..], i - 1);
      var rest, at := EncodeVecs(vs[1..]), VecsSize(dim, i - 1);
      assert (EncodeWords(vs[0], 4) + rest)[4 * dim + at..4 * dim + at + 4 * dim] == rest[at..at + 4 * dim];
    }
  }

  lemma {:induction false} VecsSizeIs(dim: nat, count: nat)
    ensures VecsSize(dim, count) == 4 * dim * count
  {
    if count > 0 {
      VecsSizeIs(dim, count - 1);
    }
  }

  // How long a record is: "<QB I", eight bytes an id, four a component, and the checksum.
  lemma SerializedSize(f: Format, r: Record)
    requires RecordOk(f, r)
    ensures |Serialize(f, r)| == 13 + 8 * |r.ids| + 4 * f.dim * |r.ids| + 4
  {
    Layout(f, r);
    BodyParts(f, r);
    VecsSizeIs(f.dim, |r.ids|);
  }

  // LSN, op and count, lowest byte first.
  lemma HeaderDigits(f: Format, r: Record, i: nat)
    requires i < 13
    ensures |Serialize(f, r)| >= 13
    ensures Serialize(f, r)[i] ==
            if i < 8 then r.lsn / Pow256(i) % 256
            else if i == 8 then r.op
            else |r.ids| / Pow256(i - 9) % 256
  {
    Layout(f, r);
    assert Serialize(f, r)[i] == Serialize(f, r)[..13][i];
    FieldDigits(r, i);
  }

  lemma FieldDigits(r: Record, i: nat)
    requires i < 13
    ensures Header(r)[i] == (if i < 8 then Encode(r.lsn, 8)[i] else if i == 8 then r.op else Encode(|r.ids|, 4)[i - 9])
    ensures i < 8 ==> Encode(r.lsn, 8)[i] == r.lsn / Pow256(i) % 256
    ensures i > 8 ==> Encode(|r.ids|, 4)[i - 9] == |r.ids| / Pow256(i - 9) % 256
  {
    if i < 8 {
      EncodeDigit(r.lsn, 8, i);
    } else if i > 8 {
      EncodeDigit(|r.ids|, 4, i - 9);
    }
  }

  // Byte 8 tells an insert from a delete.
  lemma OpByte(f: Format, lsn: nat, ids: seq<Id>, vectors: seq<Vec>)
    ensures var insert, delete := Serialize(f, Record(lsn, OP_INSERT, ids, vectors)),
                                  Serialize(f, Record(lsn, OP_DELETE, ids, vectors));
            |insert| > 8 && |delete| > 8 && insert[8] == 0 && delete[8] == 1
  {
    HeaderDigits(f, Record(lsn, OP_INSERT, ids, vectors), 8);
    HeaderDigits(f, Record(lsn, OP_DELETE, ids, vectors), 8);
  }

  // The ids in two's complement, lowest byte first.
  lemma IdDigits(f: Format, r: Record, i: nat, j: nat)
    requires RecordOk(f, r) && i < |r.ids| && j < 8
    ensures |Serialize(f, r)| > 13 + 8 * i + j
    ensures Serialize(f, r)[13 + 8 * i + j] == (r.ids[i] % TWO_64) / Pow256(j) % 256
  {
    var ws, n := Unsigned(r.ids), |Serialize(f, r)| - 4;
    Layout(f, r);
    WordAt(ws, 8, i);
    EncodeDigit(ws[i], 8, j);
    assert EncodeIds(r.ids)[8 * i + j] == EncodeIds(r.ids)[i * 8..i * 8 + 8][j];
    assert Serialize(f, r)[13 + 8 * i + j] == Serialize(f, r)[13..n][8 * i + j];
  }

  lemma WordByte(v: Vec, l: nat, j: nat)
    requires l < |v| && j < 4
    ensures |EncodeWords(v, 4)| == 4 * |v| && EncodeWords(v, 4)[4 * l + j] == v[l] / Pow256(j) % 256
  {
    WordAt(v, 4, l);
    EncodeDigit(v[l], 4, j);
    assert EncodeWords(v, 4)[4 * l + j] == EncodeWords(v, 4)[l * 4..l * 4 + 4][j];
  }

  lemma VectorByte(dim: nat, vs: seq<Vec>, i: nat, o: nat)
    requires i < |vs| && (forall j :: 0 <= j < |vs| ==> |vs[j]| == dim) && o < 4 * dim
    ensures VecsSize(dim, i) + o < |EncodeVecs(vs)| && |EncodeWords(vs[i], 4)| == 4 * dim
    ensures EncodeVecs(vs)[VecsSize(dim, i) + o] == EncodeWords(vs[i], 4)[o]
  {
    VectorAt(dim, vs, i);
    var at := VecsSize(dim, i);
    assert EncodeVecs(vs)[at + o] == EncodeVecs(vs)[at..at + 4 * dim][o];
  }

  lemma BodyByte(f: Format, r: Record, o: nat)
    requires o < |EncodeVecs(r.vectors)|
    ensures 13 + 8 * |r.ids| + o < |Serialize(f, r)|
    ensures Serialize(f, r)[13 + 8 * |r.ids| + o] == EncodeVecs(r.vectors)[o]
  {
    var s, n := Serialize(f, r), |Serialize(f, r)| - 4;
    Layout(f, r);
    assert s[13..n][8 * |r.ids| + o] == EncodeVecs(r.vectors)[o];
  }

  // Component l of vector i, lowest byte first.
  lemma ComponentDigits(f: Format, r: Record, i: nat, l: nat, j: nat)
    requires RecordOk(f, r) && i < |r.ids| && l < f.dim && j < 4
    ensures var at := 13 + 8 * |r.ids| + (VecsSize(f.dim, i) + (4 * l + j));
            at < |Serialize(f, r)| && Serialize(f, r)[at] == r.vectors[i][l] / Pow256(j) % 256
  {
    VectorByte(f.dim, r.vectors, i, 4 * l + j);
    WordByte(r.vectors[i], l, j);
    BodyByte(f, r, VecsSize(f.dim, i) + (4 * l + j));
  }

  // The checksum of everything before it, lowest byte first.
  lemma ChecksumDigits(f: Format, r: Record, j: nat)
    requires j < 4
    ensures var s := Serialize(f, r);
            |s| > 4 && s[|s| - 4 + j] == f.crc(s[..|s| - 4]) / Pow256(j) % 256
  {
    var content := Header(r) + Body(r);
    assert Serialize(f, r)[..|content|] == content;
    EncodeDigit(f.crc(content), 4, j);
  }

  // The header of a first one-row insert.
  lemma FirstHeader(f: Format, x: Id, v: Vec)
    ensures var s := Serialize(f, Record(1, OP_INSERT, [x], [v]));
            |s| >= 13 && s[..13] == [1, 0, 0, 0, 0, 0, 0, 0, 0, 1, 0, 0, 0]
  {
    var r := Record(1, OP_INSERT, [x], [v]);
    Layout(f, r);
    OneThenZeros(8);
    OneThenZeros(4);
    assert Encode(1, 8) == [1, 0, 0, 0, 0, 0, 0, 0] && Encode(0, 1) == [0] && Encode(1, 4) == [1, 0, 0, 0];
  }

  lemma BelowOne(d: nat)
    requires d > 1
    ensures 1 / d == 0
  {
  }

  lemma OneThenZeros(width: nat)
    ensures forall i :: 0 <= i < width ==> Encode(1, width)[i] == if i == 0 then 1 else 0
  {
    forall i | 0 <= i < width ensures Encode(1, width)[i] == if i == 0 then 1 else 0 {
      EncodeDigit(1, width, i);
      if i > 0 {
        BelowOne(Pow256(i));
      }
    }
  }

  lemma FieldsOfSerialized(f: Format, r: Record)
    requires RecordOk(f, r)
    ensures var s := Serialize(f, r);
            |s| >= HEADER_SIZE && DeclaredSize(f, s) == |s| && Fields(f, s) == r
  {
    Layout(f, r);
    HeaderFields(r, Serialize(f, r));
    BodyParts(f, r);
  }

  lemma NextOfComplete(f: Format, s: seq<byte>, rest: seq<byte>)
    requires |s| >= HEADER_SIZE && DeclaredSize(f, s) == |s|
    requires Decode(s[|s| - 4..]) == f.crc(s[..|s| - 4])
    ensures Next(f, s + rest) == Some((Fields(f, s), |s|))
  {
    var b := s + rest;
    assert b[9..13] == s[9..13];
    assert b[|s| - 4..|s|] == s[|s| - 4..];
    assert b[..|s| - 4] == s[..|s| - 4];
    assert b[..|s|] == s;
  }

  lemma NextOfSerialized(f: Format, r: Record, rest: seq<byte>)
    requires RecordOk(f, r)
    ensures Next(f, Serialize(f, r) + rest) == Some((r, |Serialize(f, r)|))
  {
    Layout(f, r);
    FieldsOfSerialized(f, r);
    NextOfComplete(f, Serialize(f, r), rest);
  }

  lemma HeaderOfFields(f: Format, s: seq<byte>)
    requires |s| >= HEADER_SIZE && |s| == DeclaredSize(f, s)
    ensures Header(Fields(f, s)) == s[..13]
  {
    EncodeDecode(s[..8]);
    EncodeDecode(s[8..9]);
    EncodeDecode(s[9..13]);
    assert s[..13] == s[..8] + s[8..9] + s[9..13];
  }

  lemma BodyOfFields(f: Format, s: seq<byte>)
    requires |s| >= HEADER_SIZE && |s| == DeclaredSize(f, s)
    ensures Body(Fields(f, s)) == s[13..|s| - 4]
  {
    var count, body := Decode(s[9..13]), s[13..|s| - 4];
    EncodeDecodeIds(body[..count * 8], count);
    EncodeDecodeVecs(f.dim, body[count * 8..], count);
    assert body == body[..count * 8] + body[count * 8..];
  }

  lemma SerializedFields(f: Format, s: seq<byte>)
    requires |s| >= HEADER_SIZE && |s| == DeclaredSize(f, s)
    requires Decode(s[|s| - 4..]) == f.crc(s[..|s| - 4])
    ensures Serialize(f, Fields(f, s)) == s
  {
    var n := |s| - 4;
    ContentOfFields(f, s);
    EncodeDecode(s[n..]);
    assert s == s[..n] + s[n..];
  }

  lemma ContentOfFields(f: Format, s: seq<byte>)
    requires |s| >= HEADER_SIZE && |s| == DeclaredSize(f, s)
    ensures Header(Fields(f, s)) + Body(Fields(f, s)) == s[..|s| - 4]
  {
    HeaderOfFields(f, s);
    BodyOfFields(f, s);
    assert s[..13] + s[13..|s| - 4] == s[..|s| - 4];
  }

  lemma SerializedOfNext(f: Format, b: seq<byte>)
    requires Next(f, b).Some?
    ensures var (r, n) := Next(f, b).value;
            RecordOk(f, r) && 0 < n <= |b| && Serialize(f, r) == b[..n]
  {
    var n := DeclaredSize(f, b);
    var s := b[..n];
    assert s[9..13] == b[9..13];
    assert s[n - 4..] == b[n - 4..n] && s[..n - 4] == b[..n - 4];
    SerializedFields(f, s);
  }

  // A scan stops at a record that is cut short.
  lemma CutRecordIsUnread(f: Format, r: Record, k: nat)
    requires RecordOk(f, r) && k < |Serialize(f, r)|
    ensures Next(f, Serialize(f, r)[..k]).None?
  {
    if k >= HEADER_SIZE {
      assert Serialize(f, r)[..k][9..13] == Serialize(f, r)[9..13];
      FieldsOfSerialized(f, r);
    }
  }
}
