// Self-delimiting records in a byte string: `put` writes one record, `next`
// reads the record at the front and its size. Everything the log promises about
// whole files follows from three facts about single records.
module Framing {
  import opened Wrappers
  import opened ByteCodec

  // Reads back what put wrote, whatever follows.
  ghost predicate ReadsBack<T(!new)>(put: T -> seq<byte>, ok: T -> bool, next: seq<byte> -> Option<(T, nat)>) {
    forall x, rest :: ok(x) ==> next(put(x) + rest) == Some((x, |put(x)|)) && put(x) != []
  }

  // Accepts only bytes that put writes.
  ghost predicate AcceptsOnlyWritten<T(!new)>(put: T -> seq<byte>, ok: T -> bool, next: seq<byte> -> Option<(T, nat)>) {
    forall b :: next(b).Some? ==>
      var (x, n) := next(b).value;
      ok(x) && 0 < n <= |b| && put(x) == b[..n]
  }

  // Rejects a record that is cut short.
  ghost predicate RejectsCut<T(!new)>(put: T -> seq<byte>, ok: T -> bool, next: seq<byte> -> Option<(T, nat)>) {
    forall x, k :: ok(x) && 0 <= k < |put(x)| ==> next(put(x)[..k]).None?
  }

  ghost predicate Framed<T(!new)>(put: T -> seq<byte>, ok: T -> bool, next: seq<byte> -> Option<(T, nat)>) {
    ReadsBack(put, ok, next) && AcceptsOnlyWritten(put, ok, next) && RejectsCut(put, ok, next)
  }

  ghost predicate All<T>(ok: T -> bool, xs: seq<T>) {
    forall i :: 0 <= i < |xs| ==> ok(xs[i])
  }

  function WriteAll<T>(put: T -> seq<byte>, xs: seq<T>): seq<byte> {
    if xs == [] then [] else put(xs[0]) + WriteAll(put, xs[1..])
  }

  function Scan<T>(next: seq<byte> -> Option<(T, nat)>, b: seq<byte>): seq<T>
    decreases |b|
  {
    match next(b)
    case None => []
    case Some((x, n)) => if 0 < n <= |b| then [x] + Scan(next, b[n..]) else []
  }

  lemma {:induction false} ScanOk<T(!new)>(put: T -> seq<byte>, ok: T -> bool, next: seq<byte> -> Option<(T,
      nat)>, b: seq<byte>)
    requires Framed(put, ok, next)
    ensures All(ok, Scan(next, b))
    decreases |b|
  {
    if next(b).Some? {
      ScanOk(put, ok, next, b[next(b).value.1..]);
    }
  }

  lemma {:induction false} WriteConcat<T>(put: T -> seq<byte>, a: seq<T>, b: seq<T>)
    ensures WriteAll(put, a + b) == WriteAll(put, a) + WriteAll(put, b)
  {
    if a == [] {
      assert a + b == b;
    } else {
      WriteConcat(put, a[1..], b);
      assert (a + b)[1..] == a[1..] + b;
    }
  }

  lemma WriteOne<T>(put: T -> seq<byte>, x: T)
    ensures WriteAll(put, [x]) == put(x)
  {
    assert [x][1..] == [];
  }

  lemma ScanStep<T(!new)>(put: T -> seq<byte>, ok: T -> bool, next: seq<byte> -> Option<(T, nat)>, x: T,
      rest: seq<byte>)
    requires Framed(put, ok, next) && ok(x)
    ensures Scan(next, put(x) + rest) == [x] + Scan(next, rest)
  {
    assert next(put(x) + rest) == Some((x, |put(x)|));
    assert (put(x) + rest)[|put(x)|..] == rest;
  }

  lemma WriteHead<T>(put: T -> seq<byte>, xs: seq<T>, rest: seq<byte>)
    requires xs != []
    ensures WriteAll(put, xs) + rest == put(xs[0]) + (WriteAll(put, xs[1..]) + rest)
  {
  }

  lemma PrependTake<T>(xs: seq<T>, n: nat)
    requires n < |xs|
    ensures xs[..n + 1] == [xs[0]] + xs[1..][..n]
  {
  }

  lemma HeadTail<T>(xs: seq<T>, ys: seq<T>)
    requires xs != []
    ensures xs + ys == [xs[0]] + (xs[1..] + ys)
  {
  }

  lemma {:induction false} ScanAfterRecords<T(!new)>(put: T -> seq<byte>, ok: T -> bool,
      next: seq<byte> -> Option<(T, nat)>, xs: seq<T>, rest: seq<byte>)
    requires Framed(put, ok, next) && All(ok, xs)
    ensures Scan(next, WriteAll(put, xs) + rest) == xs + Scan(next, rest)
  {
    if xs == [] {
      assert WriteAll(put, xs) + rest == rest;
    } else {
      WriteHead(put, xs, rest);
      ScanStep(put, ok, next, xs[0], WriteAll(put, xs[1..]) + rest);
      ScanAfterRecords(put, ok, next, xs[1..], rest);
      HeadTail(xs, Scan(next, rest));
    }
  }

  lemma {:induction false} RewriteIsPrefix<T(!new)>(put: T -> seq<byte>, ok: T -> bool,
      next: seq<byte> -> Option<(T, nat)>, b: seq<byte>)
    requires Framed(put, ok, next)
    ensures WriteAll(put, Scan(next, b)) <= b
    decreases |b|
  {
    if next(b).Some? {
      var (x, n) := next(b).value;
      RewriteIsPrefix(put, ok, next, b[n..]);
      assert b == b[..n] + b[n..];
      assert Scan(next, b)[1..] == Scan(next, b[n..]);
    }
  }

  // Number of records that lie wholly within the first `cut` bytes.
  ghost function WholeBefore<T>(put: T -> seq<byte>, xs: seq<T>, cut: nat): (n: nat)
    ensures n <= |xs|
  {
    if xs == [] || cut < |put(xs[0])| then 0
    else 1 + WholeBefore(put, xs[1..], cut - |put(xs[0])|)
  }

  lemma {:induction false} WholeBeforeIs<T>(put: T -> seq<byte>, xs: seq<T>, cut: nat)
    ensures var n := WholeBefore(put, xs, cut);
            |WriteAll(put, xs[..n])| <= cut && (n < |xs| ==> cut < |WriteAll(put, xs[..n + 1])|)
  {
    if xs != [] {
      PrependTake(xs, 0);
      if cut < |put(xs[0])| {
        WriteOne(put, xs[0]);
        assert xs[1..][..0] == [];
        assert xs[..1] == [xs[0]];
      } else {
        var n := WholeBefore(put, xs[1..], cut - |put(xs[0])|);
        WholeBeforeIs(put, xs[1..], cut - |put(xs[0])|);
        PrependTake(xs, n);
        if n + 1 < |xs| {
          PrependTake(xs, n + 1);
        }
      }
    }
  }

  lemma NothingToScan<T(!new)>(put: T -> seq<byte>, ok: T -> bool, next: seq<byte> -> Option<(T, nat)>)
    requires Framed(put, ok, next)
    ensures Scan(next, []) == []
  {
  }

  lemma {:induction false} ScanOfCut<T(!new)>(put: T -> seq<byte>, ok: T -> bool, next: seq<byte> -> Option<(T,
      nat)>, xs: seq<T>, cut: nat)
    requires Framed(put, ok, next) && All(ok, xs) && cut <= |WriteAll(put, xs)|
    ensures Scan(next, WriteAll(put, xs)[..cut]) == xs[..WholeBefore(put, xs, cut)]
  {
    if xs == [] {
      NothingToScan(put, ok, next);
    } else {
      var s, t := put(xs[0]), WriteAll(put, xs[1..]);
      if cut < |s| {
        assert (s + t)[..cut] == s[..cut];
        CutFirst(put, ok, next, xs[0], cut);
      } else {
        assert (s + t)[..cut] == s + t[..cut - |s|];
        ScanStep(put, ok, next, xs[0], t[..cut - |s|]);
        ScanOfCut(put, ok, next, xs[1..], cut - |s|);
        PrependTake(xs, WholeBefore(put, xs[1..], cut - |s|));
      }
    }
  }

  lemma CutFirst<T(!new)>(put: T -> seq<byte>, ok: T -> bool, next: seq<byte> -> Option<(T, nat)>, x: T, cut: nat)
    requires Framed(put, ok, next) && ok(x) && cut < |put(x)|
    ensures Scan(next, put(x)[..cut]) == []
  {
  }
}
