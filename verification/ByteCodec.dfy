// Fixed-width little-endian integers, as `struct.pack("<...")` and
// `ndarray.tobytes()` lay them out, and two's complement for int64 ids.
module ByteCodec {

  type byte = b: int | 0 <= b < 256

  const TWO_32 := 0x1_0000_0000
  const TWO_63 := 0x8000_0000_0000_0000
  const TWO_64 := 0x1_0000_0000_0000_0000

  type int64 = i: int | -TWO_63 <= i < TWO_63

  function Pow256(width: nat): (p: nat)
    ensures p > 0
  {
    if width == 0 then 1 else 256 * Pow256(width - 1)
  }

  function Encode(n: nat, width: nat): (b: seq<byte>)
    ensures |b| == width
  {
    if width == 0 then [] else [n % 256] + Encode(n / 256, width - 1)
  }

  function Decode(b: seq<byte>): (n: nat)
    ensures n < Pow256(|b|)
  {
    if b == [] then 0 else b[0] + 256 * Decode(b[1..])
  }

  lemma {:induction false} Times(d: nat, a: nat, b: nat)
    requires a < b
    ensures d * a + d <= d * b
  {
    if a + 1 < b {
      Times(d, a, b - 1);
    }
  }

  lemma SameQuotient(d: nat, p: nat, q: nat, r: nat, s: nat)
    requires d * p + r == d * q + s && r < d && s < d
    ensures p == q
  {
    if p < q {
      Times(d, p, q);
    } else if q < p {
      Times(d, q, p);
    }
  }

  lemma Division(n: nat, d: nat) returns (q: nat, r: nat)
    requires d > 0
    ensures q == n / d && n == d * q + r && r < d
  {
    q, r := n / d, n % d;
  }

  lemma DivideTwice(n: nat, d: nat)
    requires d > 0
    ensures n / 256 / d == n / (256 * d)
  {
    var e := 256 * d;
    var m, low := Division(n, 256);
    var p, r := Division(m, d);
    var q, s := Division(n, e);
    TwoQuotients(n, m, low, d, e, p, r, q, s);
  }

  lemma TwoQuotients(n: nat, m: nat, low: nat, d: nat, e: nat, p: nat, r: nat, q: nat, s: nat)
    requires n == 256 * m + low && low < 256 && e == 256 * d
    requires m == d * p + r && r < d && n == e * q + s && s < e
    ensures p == q
  {
    assert e * p == 256 * (d * p);
    SameQuotient(e, p, q, 256 * r + low, s);
  }

  // Byte i is the i-th base-256 digit, the lowest first.
  lemma {:induction false} EncodeDigit(n: nat, width: nat, i: nat)
    requires i < width
    ensures Encode(n, width)[i] == n / Pow256(i) % 256
  {
    if i > 0 {
      EncodeDigit(n / 256, width - 1, i - 1);
      DivideTwice(n, Pow256(i - 1));
    }
  }

  lemma {:induction false} DecodeEncode(n: nat, width: nat)
    requires n < Pow256(width)
    ensures Decode(Encode(n, width)) == n
  {
    if width > 0 {
      DecodeEncode(n / 256, width - 1);
      assert Encode(n, width)[1..] == Encode(n / 256, width - 1);
    }
  }

  lemma {:induction false} EncodeDecode(b: seq<byte>)
    ensures Encode(Decode(b), |b|) == b
  {
    if b != [] {
      EncodeDecode(b[1..]);
      LowDigit(b[0], Decode(b[1..]));
      assert b == [b[0]] + b[1..];
    }
  }

  lemma LowDigit(low: byte, high: nat)
    ensures (low + 256 * high) % 256 == low && (low + 256 * high) / 256 == high
  {
  }

  lemma Widths()
    ensures Pow256(1) == 256 && Pow256(4) == TWO_32 && Pow256(8) == TWO_64
  {
    assert Pow256(2) == 65536;
    assert Pow256(3) == 16777216;
    assert Pow256(5) == 256 * TWO_32;
    assert Pow256(6) == 65536 * TWO_32;
    assert Pow256(7) == 16777216 * TWO_32;
  }

  // `astype(np.uint64)` and `astype(np.int64)`.
  function ToUnsigned(i: int64): (n: nat)
    ensures n == i % TWO_64
  {
    if i < 0 then i + TWO_64 else i
  }

  function ToSigned(n: nat): (i: int64)
    requires n < TWO_64
  {
    if n < TWO_63 then n else n - TWO_64
  }

  // ---- arrays of fixed-width words ------------------------------------------

  function EncodeWords(ws: seq<nat>, width: nat): (b: seq<byte>)
    ensures |b| == |ws| * width
  {
    if ws == [] then [] else Encode(ws[0], width) + EncodeWords(ws[1..], width)
  }

  function DecodeWords(b: seq<byte>, width: nat, count: nat): (ws: seq<nat>)
    requires |b| == count * width
    ensures |ws| == count
    ensures forall i :: 0 <= i < |ws| ==> ws[i] < Pow256(width)
  {
    if count == 0 then []
    else
      SplitOne(count, width);
      [Decode(b[..width])] + DecodeWords(b[width..], width, count - 1)
  }

  lemma SplitOne(count: nat, width: nat)
    requires count > 0
    ensures count * width == width + (count - 1) * width
  {
  }

  lemma WordFits(i: nat, count: nat, width: nat)
    requires i < count
    ensures i * width + width <= count * width
  {
    Times(width, i, count);
  }

  // Word i takes the bytes from i * width on.
  lemma {:induction false} WordAt(ws: seq<nat>, width: nat, i: nat)
    requires i < |ws|
    ensures i * width + width <= |ws| * width
    ensures EncodeWords(ws, width)[i * width..i * width + width] == Encode(ws[i], width)
  {
    WordFits(i, |ws|, width);
    if i > 0 {
      WordAt(ws[1..], width, i - 1);
      SplitOne(i, width);
      SplitOne(|ws|, width);
      var rest, at := EncodeWords(ws[1..], width), (i - 1) * width;
      assert (Encode(ws[0], width) + rest)[width + at..width + at + width] == rest[at..at + width];
    }
  }

  lemma {:induction false} DecodeEncodeWords(ws: seq<nat>, width: nat)
    requires forall i :: 0 <= i < |ws| ==> ws[i] < Pow256(width)
    ensures DecodeWords(EncodeWords(ws, width), width, |ws|) == ws
  {
    if ws != [] {
      var b := EncodeWords(ws, width);
      DecodeEncode(ws[0], width);
      assert b[..width] == Encode(ws[0], width);
      assert b[width..] == EncodeWords(ws[1..], width);
      DecodeEncodeWords(ws[1..], width);
    }
  }

  lemma {:induction false} EncodeDecodeWords(b: seq<byte>, width: nat, count: nat)
    requires |b| == count * width
    ensures EncodeWords(DecodeWords(b, width, count), width) == b
  {
    if count > 0 {
      SplitOne(count, width);
      EncodeDecode(b[..width]);
      EncodeDecodeWords(b[width..], width, count - 1);
      assert b == b[..width] + b[width..];
    }
  }
}
