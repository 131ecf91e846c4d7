/** Order-preserving embedding of one sequence in another. */
module Subsequences {

  /** `a` is obtained from `b` by deleting elements. */
  predicate IsSub<T(==)>(a: seq<T>, b: seq<T>) {
    a == [] || (b != [] && if a[0] == b[0] then IsSub(a[1..], b[1..]) else IsSub(a, b[1..]))
  }

  lemma {:induction false} SubTail<T>(a: seq<T>, b: seq<T>)
    requires a != [] && IsSub(a, b)
    ensures b != [] && IsSub(a[1..], b[1..]) && IsSub(a[1..], b)
    decreases |b|
  {
    if a[0] != b[0] {
      SubTail(a, b[1..]);
    }
    if |a| > 1 && a[1] == b[0] {
      SubTail(a[1..], b[1..]);
    }
  }

  lemma {:induction false} SubAppend<T>(a: seq<T>, b: seq<T>, x: T)
    requires IsSub(a, b)
    ensures IsSub(a + [x], b + [x])
  {
    if b != [] {
      assert (b + [x])[1..] == b[1..] + [x];
      if a != [] {
        assert (a + [x])[1..] == a[1..] + [x];
        SubAppend(if a[0] == b[0] then a[1..] else a, b[1..], x);
      } else {
        SubAppend(a, b[1..], x);
        assert a + [x] == [x];
        SubLast(b, x);
      }
    }
  }

  lemma {:induction false} SubLast<T>(b: seq<T>, x: T)
    ensures IsSub([x], b + [x])
  {
    if b != [] {
      assert (b + [x])[1..] == b[1..] + [x];
      SubLast(b[1..], x);
    }
  }

  lemma {:induction false} SubExtend<T>(a: seq<T>, b: seq<T>, x: T)
    requires IsSub(a, b)
    ensures IsSub(a, b + [x])
  {
    if a != [] {
      assert (b + [x])[1..] == b[1..] + [x];
      SubExtend(if a[0] == b[0] then a[1..] else a, b[1..], x);
    }
  }

  lemma {:induction false} SubMember<T>(a: seq<T>, b: seq<T>, x: T)
    requires IsSub(a, b) && x in a
    ensures x in b
  {
    if a[0] == b[0] {
      if x != a[0] { SubMember(a[1..], b[1..], x); }
    } else {
      SubMember(a, b[1..], x);
    }
  }

  lemma {:induction false} SubLength<T>(a: seq<T>, b: seq<T>)
    requires IsSub(a, b)
    ensures |a| <= |b|
  {
    if a != [] {
      SubLength(if a[0] == b[0] then a[1..] else a, b[1..]);
    }
  }
}
