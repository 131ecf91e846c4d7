/** Sorting by a total preorder.  It stands for Python's `sorted` and SQL's `ORDER BY`: what callers rely on
    is that the result is ordered, keeps every element, and does not depend on the input's order. */
module Ordering {

  ghost predicate TotalPreorder<T(!new)>(leq: (T, T) -> bool) {
    && (forall x, y :: leq(x, y) || leq(y, x))
    && (forall x, y, z :: leq(x, y) && leq(y, z) ==> leq(x, z))
  }

  /** No two different elements of `xs` are tied. */
  ghost predicate NoTies<T>(xs: seq<T>, leq: (T, T) -> bool) {
    forall x, y :: x in xs && y in xs && leq(x, y) && leq(y, x) ==> x == y
  }

  ghost predicate Sorted<T>(xs: seq<T>, leq: (T, T) -> bool) {
    forall i, j :: 0 <= i < j < |xs| ==> leq(xs[i], xs[j])
  }

  function Insert<T>(x: T, xs: seq<T>, leq: (T, T) -> bool): (r: seq<T>)
    ensures multiset(r) == multiset{x} + multiset(xs)
  {
    if xs == [] then [x]
    else if leq(x, xs[0]) then [x] + xs
    else
      assert xs == [xs[0]] + xs[1..];
      [xs[0]] + Insert(x, xs[1..], leq)
  }

  function Sort<T>(xs: seq<T>, leq: (T, T) -> bool): (r: seq<T>)
    ensures multiset(r) == multiset(xs)
    ensures |r| == |xs|
  {
    if xs == [] then []
    else
      assert xs == [xs[0]] + xs[1..];
      var r := Insert(xs[0], Sort(xs[1..], leq), leq);
      assert |multiset(r)| == |multiset(xs)|;
      r
  }

  lemma {:induction false} InsertSorted<T(!new)>(x: T, xs: seq<T>, leq: (T, T) -> bool)
    requires TotalPreorder(leq) && Sorted(xs, leq)
    ensures Sorted(Insert(x, xs, leq), leq)
  {
    if xs == [] {
    } else if leq(x, xs[0]) {
    } else {
      InsertSorted(x, xs[1..], leq);
      var rest := Insert(x, xs[1..], leq);
      forall j | 0 <= j < |rest| ensures leq(xs[0], rest[j]) {
        assert rest[j] in multiset(rest);
        assert rest[j] == x || rest[j] in xs[1..];
      }
    }
  }

  lemma {:induction false} SortSorted<T(!new)>(xs: seq<T>, leq: (T, T) -> bool)
    requires TotalPreorder(leq)
    ensures Sorted(Sort(xs, leq), leq)
  {
    if xs != [] {
      SortSorted(xs[1..], leq);
      InsertSorted(xs[0], Sort(xs[1..], leq), leq);
    }
  }

  /** The first element of a sorted sequence is below every element. */
  lemma SortedHead<T(!new)>(a: seq<T>, x: T, leq: (T, T) -> bool)
    requires TotalPreorder(leq) && Sorted(a, leq) && x in multiset(a)
    ensures a != [] && leq(a[0], x)
  {
    var i :| 0 <= i < |a| && a[i] == x;
    assert leq(x, x);
  }

  lemma MultisetTail<T>(a: seq<T>)
    requires a != []
    ensures multiset(a[1..]) == multiset(a) - multiset{a[0]}
  {
    assert a == [a[0]] + a[1..];
  }

  /** Without ties a sorted arrangement is determined by the elements alone. */
  lemma {:induction false} SortedUnique<T(!new)>(a: seq<T>, b: seq<T>, leq: (T, T) -> bool)
    requires TotalPreorder(leq) && NoTies(a, leq)
    requires Sorted(a, leq) && Sorted(b, leq) && multiset(a) == multiset(b)
    ensures a == b
  {
    if a == [] {
      assert |multiset(b)| == 0;
    } else {
      assert a[0] in multiset(b);
      SortedHead(b, a[0], leq);
      assert b[0] in multiset(a);
      SortedHead(a, b[0], leq);
      assert a[0] == b[0];
      MultisetTail(a);
      MultisetTail(b);
      SortedUnique(a[1..], b[1..], leq);
      assert a == [a[0]] + a[1..] && b == [b[0]] + b[1..];
    }
  }

  lemma {:induction false} NoTiesRearranged<T(!new)>(a: seq<T>, b: seq<T>, leq: (T, T) -> bool)
    requires NoTies(a, leq) && multiset(a) == multiset(b)
    ensures NoTies(b, leq)
  {
    assert forall x :: x in b <==> x in multiset(b);
  }

  /** A sorted sequence followed by a sorted sequence of larger elements is sorted. */
  lemma {:induction false} SortedConcat<T(!new)>(a: seq<T>, b: seq<T>, leq: (T, T) -> bool)
    requires Sorted(a, leq) && Sorted(b, leq) && forall x, y :: x in a && y in b ==> leq(x, y)
    ensures Sorted(a + b, leq)
  {
  }

  /** Sorting is a canonical form: two sequences sort alike exactly when they hold the same elements. */
  lemma SortCanonical<T(!new)>(a: seq<T>, b: seq<T>, leq: (T, T) -> bool)
    requires TotalPreorder(leq) && NoTies(a, leq)
    ensures Sort(a, leq) == Sort(b, leq) <==> multiset(a) == multiset(b)
  {
    if multiset(a) == multiset(b) {
      SortSorted(a, leq);
      SortSorted(b, leq);
      forall x | x in Sort(a, leq) ensures x in a {
        assert x in multiset(Sort(a, leq));
      }
      SortedUnique(Sort(a, leq), Sort(b, leq), leq);
    }
  }

  /** Lexicographic order on strings by code point, as Python compares `str`. */
  predicate StringLeq(a: string, b: string) {
    a == [] || (b != [] && (a[0] < b[0] || (a[0] == b[0] && StringLeq(a[1..], b[1..]))))
  }

  lemma {:induction false} StringLeqTotal(a: string, b: string)
    ensures StringLeq(a, b) || StringLeq(b, a)
    ensures StringLeq(a, b) && StringLeq(b, a) ==> a == b
  {
    if a != [] && b != [] && a[0] == b[0] {
      StringLeqTotal(a[1..], b[1..]);
      assert a == [a[0]] + a[1..] && b == [b[0]] + b[1..];
    }
  }

  lemma {:induction false} StringLeqTransitive(a: string, b: string, c: string)
    requires StringLeq(a, b) && StringLeq(b, c)
    ensures StringLeq(a, c)
  {
    if a != [] && a[0] == b[0] && b[0] == c[0] {
      StringLeqTransitive(a[1..], b[1..], c[1..]);
    }
  }

  lemma StringOrder(xs: seq<string>)
    ensures TotalPreorder(StringLeq) && NoTies(xs, StringLeq)
  {
    forall x: string, y: string ensures StringLeq(x, y) || StringLeq(y, x) { StringLeqTotal(x, y); }
    forall x: string, y: string | StringLeq(x, y) && StringLeq(y, x) ensures x == y { StringLeqTotal(x, y); }
    forall x: string, y: string, z: string | StringLeq(x, y) && StringLeq(y, z) ensures StringLeq(x, z) {
      StringLeqTransitive(x, y, z);
    }
  }

  /** After a common start of `k` characters the first text ends, or goes on with the smaller character. */
  predicate SmallerAfter(a: string, b: string, k: nat) {
    k <= |a| && k <= |b| && a[..k] == b[..k] && (k == |a| || (k < |b| && a[k] < b[k]))
  }

  lemma {:induction false} StringLeqIff(a: string, b: string)
    ensures StringLeq(a, b) <==> exists k: nat :: SmallerAfter(a, b, k)
  {
    if a == [] {
      assert SmallerAfter(a, b, 0);
    } else if b != [] {
      StringLeqIff(a[1..], b[1..]);
      if StringLeq(a, b) && a[0] == b[0] {
        var k: nat :| SmallerAfter(a[1..], b[1..], k);
        assert a[..k + 1] == [a[0]] + a[1..][..k] && b[..k + 1] == [b[0]] + b[1..][..k];
        assert SmallerAfter(a, b, k + 1);
      } else if StringLeq(a, b) {
        assert SmallerAfter(a, b, 0);
      }
      if k: nat :| SmallerAfter(a, b, k) {
        SmallerTail(a, b, k);
      }
    }
  }

  lemma {:induction false} SmallerTail(a: string, b: string, k: nat)
    requires SmallerAfter(a, b, k) && a != [] && b != []
    ensures if k == 0 then a[0] < b[0] else a[0] == b[0] && SmallerAfter(a[1..], b[1..], k - 1)
  {
    if k > 0 {
      assert a[0] == a[..k][0] == b[..k][0] == b[0];
      assert a[1..][..k - 1] == a[..k][1..] == b[..k][1..] == b[1..][..k - 1];
    }
  }
}
