// Stable insertion sort over an arbitrary total preorder, and the string order
// that Python tuples and dictionary keys use.
//
// Python's `sorted`, `list.sort`, `heapq.nsmallest` (documented as
// `sorted(...)[:n]`) and `bisect.insort` all reduce to the two functions below.
module Sorting {

  ghost predicate TotalPreorder<T(!new)>(le: (T, T) -> bool) {
    && (forall a, b :: le(a, b) || le(b, a))
    && (forall a, b, c :: le(a, b) && le(b, c) ==> le(a, c))
  }

  ghost predicate Antisymmetric<T(!new)>(le: (T, T) -> bool) {
    forall a, b :: le(a, b) && le(b, a) ==> a == b
  }

  ghost predicate Sorted<T>(le: (T, T) -> bool, s: seq<T>) {
    forall i, j :: 0 <= i < j < |s| ==> le(s[i], s[j])
  }

  // `bisect.insort`: x goes after every element that is not greater than it.
  function Insort<T>(le: (T, T) -> bool, s: seq<T>, x: T): (r: seq<T>)
    ensures |r| == |s| + 1
    ensures multiset(r) == multiset(s) + multiset{x}
  {
    if s == [] then [x]
    else if le(s[|s| - 1], x) then s + [x]
    else
      assert s == s[..|s| - 1] + [s[|s| - 1]];
      Insort(le, s[..|s| - 1], x) + [s[|s| - 1]]
  }

  function Sort<T>(le: (T, T) -> bool, s: seq<T>): (r: seq<T>)
    ensures |r| == |s|
    ensures multiset(r) == multiset(s)
  {
    if s == [] then []
    else
      assert s == s[..|s| - 1] + [s[|s| - 1]];
      Insort(le, Sort(le, s[..|s| - 1]), s[|s| - 1])
  }

  lemma FirstIsMember<T>(s: seq<T>)
    requires s != []
    ensures exists e :: e in s
  {
    assert s[0] in s;
  }

  lemma SameMembers<T>(a: seq<T>, b: seq<T>)
    requires multiset(a) == multiset(b)
    ensures forall x :: x in a <==> x in b
  {
    forall x ensures x in a <==> x in b {
      assert x in a <==> x in multiset(a);
      assert x in b <==> x in multiset(b);
    }
  }

  lemma TwoPositions<T>(s: seq<T>, i: nat, j: nat)
    requires i < j < |s| && s[i] == s[j]
    ensures multiset(s)[s[i]] >= 2
  {
    assert s == s[..j] + s[j..];
    assert s[i] in s[..j] && s[j] in s[j..];
  }

  lemma InsortKeepsSorted<T(!new)>(le: (T, T) -> bool, s: seq<T>, x: T)
    requires TotalPreorder(le) && Sorted(le, s)
    ensures Sorted(le, Insort(le, s, x))
  {
    if s != [] && !le(s[|s| - 1], x) {
      var front, last := s[..|s| - 1], s[|s| - 1];
      InsortKeepsSorted(le, front, x);
      var r := Insort(le, front, x);
      forall i | 0 <= i < |r| ensures le(r[i], last) {
        InsortMember(le, front, x, r[i]);
      }
    } else if s != [] {
      forall i | 0 <= i < |s| ensures le(s[i], x) {
        assert i < |s| - 1 ==> le(s[i], s[|s| - 1]);
      }
    }
  }

  lemma InsortMember<T>(le: (T, T) -> bool, s: seq<T>, x: T, y: T)
    requires y in Insort(le, s, x)
    ensures y in s || y == x
  {
    assert y in multiset(Insort(le, s, x));
    assert y in multiset(s) || y == x;
  }

  lemma {:induction false} SortSorts<T(!new)>(le: (T, T) -> bool, s: seq<T>)
    requires TotalPreorder(le)
    ensures Sorted(le, Sort(le, s))
  {
    if s != [] {
      SortSorts(le, s[..|s| - 1]);
      InsortKeepsSorted(le, Sort(le, s[..|s| - 1]), s[|s| - 1]);
    }
  }

  lemma {:induction false} SortOfSorted<T(!new)>(le: (T, T) -> bool, s: seq<T>)
    requires Sorted(le, s)
    ensures Sort(le, s) == s
  {
    if s != [] {
      SortOfSorted(le, s[..|s| - 1]);
      assert s == s[..|s| - 1] + [s[|s| - 1]];
    }
  }

  lemma LastIsGreatest<T(!new)>(le: (T, T) -> bool, s: seq<T>, x: T)
    requires TotalPreorder(le) && Sorted(le, s) && x in s
    ensures le(x, s[|s| - 1])
  {
    var i :| 0 <= i < |s| && s[i] == x;
    assert le(x, x);
    if i < |s| - 1 {
      assert le(s[i], s[|s| - 1]);
    }
  }

  lemma SortedPrefix<T>(le: (T, T) -> bool, s: seq<T>, n: nat)
    requires Sorted(le, s) && n <= |s|
    ensures Sorted(le, s[..n])
  {
  }

  lemma SameLast<T(!new)>(le: (T, T) -> bool, a: seq<T>, b: seq<T>)
    requires TotalPreorder(le) && Antisymmetric(le)
    requires Sorted(le, a) && Sorted(le, b) && multiset(a) == multiset(b) && a != [] && b != []
    ensures a[|a| - 1] == b[|b| - 1]
  {
    SameMembers(a, b);
    LastIsGreatest(le, b, a[|a| - 1]);
    LastIsGreatest(le, a, b[|b| - 1]);
  }

  lemma DropLast<T>(s: seq<T>)
    requires s != []
    ensures multiset(s[..|s| - 1]) == multiset(s) - multiset{s[|s| - 1]}
  {
    assert s == s[..|s| - 1] + [s[|s| - 1]];
  }

  // A total order leaves one sorted arrangement of a multiset.
  lemma {:induction false} SortedUnique<T(!new)>(le: (T, T) -> bool, a: seq<T>, b: seq<T>)
    requires TotalPreorder(le) && Antisymmetric(le)
    requires Sorted(le, a) && Sorted(le, b) && multiset(a) == multiset(b)
    ensures a == b
  {
    SameLength(a, b);
    if a != [] {
      SortedFronts(le, a, b);
      SortedUnique(le, a[..|a| - 1], b[..|b| - 1]);
      AddBack(a, b);
    }
  }

  lemma SameLength<T>(a: seq<T>, b: seq<T>)
    requires multiset(a) == multiset(b)
    ensures |a| == |b|
  {
    assert |a| == |multiset(a)| == |multiset(b)| == |b|;
  }

  lemma AddBack<T>(a: seq<T>, b: seq<T>)
    requires a != [] && b != [] && a[..|a| - 1] == b[..|b| - 1] && a[|a| - 1] == b[|b| - 1]
    ensures a == b
  {
    assert a == a[..|a| - 1] + [a[|a| - 1]] && b == b[..|b| - 1] + [b[|b| - 1]];
  }

  lemma SortedFronts<T(!new)>(le: (T, T) -> bool, a: seq<T>, b: seq<T>)
    requires TotalPreorder(le) && Antisymmetric(le)
    requires Sorted(le, a) && Sorted(le, b) && multiset(a) == multiset(b) && a != [] && b != []
    ensures a[|a| - 1] == b[|b| - 1]
    ensures Sorted(le, a[..|a| - 1]) && Sorted(le, b[..|b| - 1])
    ensures multiset(a[..|a| - 1]) == multiset(b[..|b| - 1])
  {
    SameLast(le, a, b);
    DropLast(a);
    DropLast(b);
    SortedPrefix(le, a, |a| - 1);
    SortedPrefix(le, b, |b| - 1);
  }

  // ---- stability ---------------------------------------------------------

  // The elements of s that tie with x, in the order they have in s.
  function Ties<T>(le: (T, T) -> bool, s: seq<T>, x: T): seq<T> {
    if s == [] then []
    else
      var last := s[|s| - 1];
      Ties(le, s[..|s| - 1], x) + if le(last, x) && le(x, last) then [last] else []
  }

  lemma {:induction false} InsortTies<T(!new)>(le: (T, T) -> bool, s: seq<T>, y: T, x: T)
    requires TotalPreorder(le) && Sorted(le, s)
    ensures Ties(le, Insort(le, s, y), x) == Ties(le, s, x) + if le(y, x) && le(x, y) then [y] else []
  {
    if s == [] {
      assert [y][..0] == [];
    } else if le(s[|s| - 1], y) {
      assert (s + [y])[..|s|] == s;
    } else {
      var front, last := s[..|s| - 1], s[|s| - 1];
      InsortTies(le, front, y, x);
      var r := Insort(le, front, y);
      assert (r + [last])[..|r|] == r;
    }
  }

  // Equal keys keep their input order.
  lemma {:induction false} SortIsStable<T(!new)>(le: (T, T) -> bool, s: seq<T>, x: T)
    requires TotalPreorder(le)
    ensures Ties(le, Sort(le, s), x) == Ties(le, s, x)
  {
    if s != [] {
      SortIsStable(le, s[..|s| - 1], x);
      SortSorts(le, s[..|s| - 1]);
      InsortTies(le, Sort(le, s[..|s| - 1]), s[|s| - 1], x);
    }
  }

  // Insertion keeps the order of what is there,
  lemma {:induction false} InsortKeepsOrder<T>(le: (T, T) -> bool, s: seq<T>, x: T, p: nat, q: nat)
    returns (p': nat, q': nat)
    requires p < q < |s|
    ensures p' < q' < |s| + 1 && Insort(le, s, x)[p'] == s[p] && Insort(le, s, x)[q'] == s[q]
  {
    if le(s[|s| - 1], x) {
      p', q' := p, q;
    } else if q < |s| - 1 {
      p', q' := InsortKeepsOrder(le, s[..|s| - 1], x, p, q);
    } else {
      p' := InsortKeeps(le, s[..q], x, p);
      q' := |s|;
    }
  }

  lemma {:induction false} InsortKeeps<T>(le: (T, T) -> bool, s: seq<T>, x: T, p: nat) returns (p': nat)
    requires p < |s|
    ensures p' <= |s| && Insort(le, s, x)[p'] == s[p]
  {
    if le(s[|s| - 1], x) {
      p' := p;
    } else if p < |s| - 1 {
      p' := InsortKeeps(le, s[..|s| - 1], x, p);
    } else {
      p' := |s|;
    }
  }

  // and puts the new element after every one that is not greater.
  lemma {:induction false} InsortGoesAfter<T(!new)>(le: (T, T) -> bool, s: seq<T>, x: T, p: nat)
    returns (p': nat, q': nat)
    requires TotalPreorder(le) && Sorted(le, s) && p < |s| && le(s[p], x)
    ensures p' < q' < |s| + 1 && Insort(le, s, x)[p'] == s[p] && Insort(le, s, x)[q'] == x
  {
    if le(s[|s| - 1], x) {
      p', q' := p, |s|;
    } else {
      assert p != |s| - 1;
      p', q' := InsortGoesAfter(le, s[..|s| - 1], x, p);
    }
  }

  lemma SortedIndex<T(!new)>(le: (T, T) -> bool, s: seq<T>, p: nat) returns (p': nat)
    requires p < |s|
    ensures p' < |s| && Sort(le, s)[p'] == s[p]
  {
    assert s[p] in multiset(s);
    assert s[p] in multiset(Sort(le, s));
    p' :| 0 <= p' < |s| && Sort(le, s)[p'] == s[p];
  }

  // An element that is not greater than a later one stays before it.
  lemma {:induction false} SortKeepsOrder<T(!new)>(le: (T, T) -> bool, s: seq<T>, p: nat, q: nat, a: T, b: T)
    returns (p': nat, q': nat)
    requires TotalPreorder(le) && p < q < |s| && s[p] == a && s[q] == b && le(a, b)
    ensures p' < q' < |s| && Sort(le, s)[p'] == a && Sort(le, s)[q'] == b
  {
    var n := |s| - 1;
    if q < n {
      var i, j := SortKeepsOrder(le, s[..n], p, q, a, b);
      p', q' := EarlierPair(le, s, i, j, a, b);
    } else {
      p', q' := LastPair(le, s, p, a, b);
    }
  }

  lemma EarlierPair<T>(le: (T, T) -> bool, s: seq<T>, i: nat, j: nat, a: T, b: T) returns (p': nat, q': nat)
    requires i < j < |s| - 1
    requires var sorted := Sort(le, s[..|s| - 1]); sorted[i] == a && sorted[j] == b
    ensures p' < q' < |s| && Sort(le, s)[p'] == a && Sort(le, s)[q'] == b
  {
    p', q' := InsortKeepsOrder(le, Sort(le, s[..|s| - 1]), s[|s| - 1], i, j);
    LastSorted(le, s, p', q', a, b);
  }

  lemma LastPair<T(!new)>(le: (T, T) -> bool, s: seq<T>, p: nat, a: T, b: T) returns (p': nat, q': nat)
    requires TotalPreorder(le) && p < |s| - 1 && s[p] == a && s[|s| - 1] == b && le(a, b)
    ensures p' < q' < |s| && Sort(le, s)[p'] == a && Sort(le, s)[q'] == b
  {
    p', q' := LastGoesAfter(le, s[..|s| - 1], b, p, a);
    LastSorted(le, s, p', q', a, b);
  }

  lemma LastSorted<T>(le: (T, T) -> bool, s: seq<T>, i: nat, j: nat, a: T, b: T)
    requires s != [] && i < |s| && j < |s|
    requires var r := Insort(le, Sort(le, s[..|s| - 1]), s[|s| - 1]); r[i] == a && r[j] == b
    ensures Sort(le, s)[i] == a && Sort(le, s)[j] == b
  {
  }

  lemma LastGoesAfter<T(!new)>(le: (T, T) -> bool, front: seq<T>, x: T, p: nat, a: T) returns (p': nat, q': nat)
    requires TotalPreorder(le) && p < |front| && front[p] == a && le(a, x)
    ensures p' < q' < |front| + 1
    ensures Insort(le, Sort(le, front), x)[p'] == a && Insort(le, Sort(le, front), x)[q'] == x
  {
    var i := SortedIndex(le, front, p);
    SortSorts(le, front);
    p', q' := InsortGoesAfter(le, Sort(le, front), x, i);
  }

  // ---- code point order on strings -----------------------------------------

  predicate StringLe(a: string, b: string) {
    a == [] || (b != [] && (a[0] < b[0] || (a[0] == b[0] && StringLe(a[1..], b[1..]))))
  }

  // The first difference decides, and a prefix comes first.
  lemma {:induction false} StringLeDecides(p: string, a: string, b: string)
    ensures a == [] ==> StringLe(p + a, p + b)
    ensures a != [] && b == [] ==> !StringLe(p + a, p + b)
    ensures a != [] && b != [] && a[0] != b[0] ==> (StringLe(p + a, p + b) <==> a[0] < b[0])
  {
    if p == [] {
      assert p + a == a && p + b == b;
    } else {
      StringLeDecides(p[1..], a, b);
      assert (p + a)[1..] == p[1..] + a && (p + b)[1..] == p[1..] + b;
    }
  }

  lemma {:induction false} StringLeTotal(a: string, b: string)
    ensures StringLe(a, b) || StringLe(b, a)
  {
    if a != [] && b != [] && a[0] == b[0] {
      StringLeTotal(a[1..], b[1..]);
    }
  }

  lemma {:induction false} StringLeTransitive(a: string, b: string, c: string)
    requires StringLe(a, b) && StringLe(b, c)
    ensures StringLe(a, c)
  {
    if a != [] && a[0] == b[0] == c[0] {
      StringLeTransitive(a[1..], b[1..], c[1..]);
    }
  }

  lemma {:induction false} StringLeAntisymmetric(a: string, b: string)
    requires StringLe(a, b) && StringLe(b, a)
    ensures a == b
  {
    if a != [] {
      StringLeAntisymmetric(a[1..], b[1..]);
      assert a == [a[0]] + a[1..] && b == [b[0]] + b[1..];
    }
  }

  // Python's order on (int, str) tuples.
  predicate PairLe(a: (nat, string), b: (nat, string)) {
    a.0 < b.0 || (a.0 == b.0 && StringLe(a.1, b.1))
  }

  lemma PairLeIsTotalOrder()
    ensures TotalPreorder(PairLe) && Antisymmetric(PairLe)
  {
    forall a, b ensures PairLe(a, b) || PairLe(b, a) {
      StringLeTotal(a.1, b.1);
    }
    forall a, b, c | PairLe(a, b) && PairLe(b, c) ensures PairLe(a, c) {
      if a.0 == b.0 == c.0 {
        StringLeTransitive(a.1, b.1, c.1);
      }
    }
    forall a, b | PairLe(a, b) && PairLe(b, a) ensures a == b {
      StringLeAntisymmetric(a.1, b.1);
    }
  }
}
