/** What whole runs of the answer cache guarantee. */
module LruTheorems {
  import opened Common
  import opened Subsequences
  import opened AnswerCaching

  // ----- inclusion: a larger cache holds everything a smaller one does ---------------------------------------

  /** The small cache's recency list embeds in the large one's, which also has at least as many free places. */
  ghost predicate Includes<V>(n: nat, m: nat, small: Store<V>, large: Store<V>) {
    && Distinct(small) && Distinct(large)
    && |small| <= n && |large| <= m
    && IsSub(small, large)
    && |large| - |small| <= m - n
  }

  lemma {:induction false} SubWithout<V>(a: Store<V>, b: Store<V>, key: Key)
    requires IsSub(a, b)
    ensures IsSub(Without(a, key), Without(b, key))
  {
    if a != [] {
      if a[0] == b[0] {
        SubWithout(a[1..], b[1..], key);
      } else {
        SubWithout(a, b[1..], key);
        if b[0].key != key && Without(a, key) != [] && Without(a, key)[0] == b[0] {
          SubTail(Without(a, key), Without(b[1..], key));
        }
      }
    }
  }

  /** A key resident in both caches has the same entry in both. */
  lemma SubLookup<V>(a: Store<V>, b: Store<V>, key: Key)
    requires Distinct(a) && Distinct(b) && IsSub(a, b)
    requires Lookup(a, key).Some?
    ensures Lookup(b, key) == Lookup(a, key)
  {
    var e := Lookup(a, key).value;
    SubMember(a, b, e);
    var i :| 0 <= i < |b| && b[i] == e;
    LookupOfDistinct(b, i);
  }

  /** Eviction: the large cache evicts only when the small one does. */
  lemma {:induction false} EvictKeepsInclusion<V>(n: nat, m: nat, a: Store<V>, b: Store<V>)
    requires 1 <= n <= m && a != [] && Distinct(a) && Distinct(b) && IsSub(a, b)
    requires |a| <= n + 1 && |b| - |a| <= m - n
    ensures Includes(n, m, Last(n, a), Last(m, b))
  {
    SubTail(a, b);
  }

  /** Making the same entry most recent in both caches, with their evictions, keeps inclusion. */
  lemma {:induction false} InsertKeepsInclusion<V>(n: nat, m: nat, small: Store<V>, large: Store<V>, e: Entry<V>)
    requires 1 <= n <= m && Includes(n, m, small, large)
    ensures Includes(n, m, Last(n, Without(small, e.key) + [e]), Last(m, Without(large, e.key) + [e]))
  {
    var a, b := Without(small, e.key), Without(large, e.key);
    WithoutDistinct(small, e.key);
    WithoutDistinct(large, e.key);
    AppendDistinct(a, e);
    AppendDistinct(b, e);
    SubWithout(small, large, e.key);
    SubAppend(a, b, e);
    if Lookup(small, e.key).Some? {
      SubLookup(small, large, e.key);
    }
    EvictKeepsInclusion(n, m, a + [e], b + [e]);
  }

  lemma {:induction false} GetKeepsInclusion<V>(n: nat, m: nat, ttl: nat, small: CacheState<V>, large: CacheState<V>,
                                                key: Key, now: real)
    requires 1 <= n <= m && Includes(n, m, small.store, large.store)
    ensures var (s, r) := GetStep(ttl, small, key, now); var (l, q) := GetStep(ttl, large, key, now);
      && Includes(n, m, s.store, l.store)
      && (r.Some? ==> q == r)
      && s.hits - small.hits <= l.hits - large.hits
      && (s.hits + s.misses) - (small.hits + small.misses) == (l.hits + l.misses) - (large.hits + large.misses) == 1
  {
    WithoutDistinct(small.store, key);
    WithoutDistinct(large.store, key);
    SubWithout(small.store, large.store, key);
    if Lookup(small.store, key).Some? {
      SubLookup(small.store, large.store, key);
      var e := Lookup(small.store, key).value;
      InsertKeepsInclusion(n, m, small.store, large.store, e);
    } else {
      WithoutAbsent(small.store, key);
      if Lookup(large.store, key).Some? {
        var e := Lookup(large.store, key).value;
        AppendDistinct(Without(large.store, key), e);
        SubExtend(small.store, Without(large.store, key), e);
      }
    }
  }

  /** The same calls, made at the same times, on a cache of `n` places and one of `m >= n`: whatever the expiry,
      the small cache's recency list stays embedded in the large one's and every hit in the small cache is a hit
      in the large one, so the large cache never has fewer hits. */
  lemma {:induction false} LargerCacheIncludesSmaller<V>(n: nat, m: nat, ttl: nat, ops: seq<Op<V>>)
    requires 1 <= n <= m
    ensures var small := Run(n, ttl, ops); var large := Run(m, ttl, ops);
      && Includes(n, m, small.store, large.store)
      && small.hits <= large.hits
      && small.hits + small.misses == large.hits + large.misses
    ensures forall key, now: real | GetStep(ttl, Run(n, ttl, ops), key, now).1.Some? ::
      GetStep(ttl, Run(m, ttl, ops), key, now).1 == GetStep(ttl, Run(n, ttl, ops), key, now).1
  {
    if ops != [] {
      var prev, op := ops[..|ops| - 1], ops[|ops| - 1];
      LargerCacheIncludesSmaller(n, m, ttl, prev);
      var small, large := Run(n, ttl, prev), Run(m, ttl, prev);
      match op {
        case OpGet(key, now) => GetKeepsInclusion(n, m, ttl, small, large, key, now);
        case OpSet(key, value, now) =>
          InsertKeepsInclusion(n, m, small.store, large.store, Entry(key, value, Deadline(ttl, now)));
        case OpClear =>
      }
    }
    forall key, now: real | GetStep(ttl, Run(n, ttl, ops), key, now).1.Some?
      ensures GetStep(ttl, Run(m, ttl, ops), key, now).1 == GetStep(ttl, Run(n, ttl, ops), key, now).1
    {
      GetKeepsInclusion(n, m, ttl, Run(n, ttl, ops), Run(m, ttl, ops), key, now);
    }
  }

  // ----- residency: which keys are in the cache --------------------------------------------------------------

  function KeysOf<V>(s: Store<V>): (ks: seq<Key>)
    ensures |ks| == |s|
  {
    if s == [] then [] else [s[0].key] + KeysOf(s[1..])
  }

  function Minus(ks: seq<Key>, key: Key): seq<Key> {
    if ks == [] then [] else if ks[0] == key then Minus(ks[1..], key) else [ks[0]] + Minus(ks[1..], key)
  }

  /** The keys set or hit so far in a run without expiry, oldest use first. */
  function Uses<V>(max: nat, ops: seq<Op<V>>): seq<Key> {
    if ops == [] then []
    else
      var prev, op := ops[..|ops| - 1], ops[|ops| - 1];
      Uses(max, prev) +
      if op.OpSet? || (op.OpGet? && Lookup(Run(max, 0, prev).store, op.key).Some?) then [op.key] else []
  }

  /** The distinct keys of `uses`, in order of their last use. */
  function Recency(uses: seq<Key>): seq<Key> {
    if uses == [] then []
    else
      var k := uses[|uses| - 1];
      Minus(Recency(uses[..|uses| - 1]), k) + [k]
  }

  ghost predicate NoRepeats(ks: seq<Key>) {
    ks == [] || (ks[0] !in ks[1..] && NoRepeats(ks[1..]))
  }

  lemma {:induction false} MinusConcat(a: seq<Key>, b: seq<Key>, key: Key)
    ensures Minus(a + b, key) == Minus(a, key) + Minus(b, key)
  {
    if a == [] {
      assert a + b == b;
    } else {
      assert (a + b)[1..] == a[1..] + b;
      MinusConcat(a[1..], b, key);
    }
  }

  lemma {:induction false} MinusElement(ks: seq<Key>, key: Key, k: Key)
    ensures k in Minus(ks, key) <==> k in ks && k != key
  {
    if ks != [] {
      MinusElement(ks[1..], key, k);
    }
  }

  lemma {:induction false} MinusNoRepeats(ks: seq<Key>, key: Key)
    requires NoRepeats(ks)
    ensures NoRepeats(Minus(ks, key)) && |Minus(ks, key)| == |ks| - if key in ks then 1 else 0
  {
    if ks != [] {
      MinusNoRepeats(ks[1..], key);
      MinusElement(ks[1..], key, ks[0]);
    }
  }

  lemma {:induction false} NoRepeatsConcat(a: seq<Key>, b: seq<Key>)
    ensures NoRepeats(a + b) <==> NoRepeats(a) && NoRepeats(b) && forall k :: k in a ==> k !in b
  {
    if a == [] {
      assert a + b == b;
    } else {
      assert (a + b)[1..] == a[1..] + b;
      NoRepeatsConcat(a[1..], b);
      assert forall k :: k in a <==> k == a[0] || k in a[1..];
    }
  }

  lemma {:induction false} KeysOfWithout<V>(s: Store<V>, key: Key)
    ensures KeysOf(Without(s, key)) == Minus(KeysOf(s), key)
    ensures Lookup(s, key).Some? <==> key in KeysOf(s)
  {
    if s != [] {
      KeysOfWithout(s[1..], key);
    }
  }

  lemma {:induction false} KeysOfConcat<V>(a: Store<V>, b: Store<V>)
    ensures KeysOf(a + b) == KeysOf(a) + KeysOf(b)
  {
    if a == [] {
      assert a + b == b;
    } else {
      assert (a + b)[1..] == a[1..] + b;
      KeysOfConcat(a[1..], b);
    }
  }

  lemma KeysOfLast<V>(max: nat, s: Store<V>)
    ensures KeysOf(Last(max, s)) == Last(max, KeysOf(s))
  {
    if |s| > max {
      var a, b := s[..|s| - max], s[|s| - max..];
      assert s == a + b;
      KeysOfConcat(a, b);
    }
  }

  lemma KeysOfTouch<V>(max: nat, s: Store<V>, e: Entry<V>)
    ensures KeysOf(Last(max, Without(s, e.key) + [e])) == Last(max, Minus(KeysOf(s), e.key) + [e.key])
  {
    KeysOfWithout(s, e.key);
    var t := Without(s, e.key);
    KeysOfConcat(t, [e]);
    assert KeysOf([e]) == [e.key];
    assert KeysOf(t + [e]) == Minus(KeysOf(s), e.key) + [e.key];
    KeysOfLast(max, t + [e]);
  }

  lemma LastConcat<T>(n: nat, a: seq<T>, b: seq<T>)
    requires n <= |b|
    ensures Last(n, a + b) == Last(n, b)
  {
    assert (a + b)[|a| + |b| - n..] == b[|b| - n..];
  }

  lemma {:induction false} RecencyElements(uses: seq<Key>, k: Key)
    ensures k in Recency(uses) <==> k in uses
  {
    if uses != [] {
      var rest, x := uses[..|uses| - 1], uses[|uses| - 1];
      assert uses == rest + [x];
      RecencyElements(rest, k);
      MinusElement(Recency(rest), x, k);
    }
  }

  lemma {:induction false} RecencyNoRepeats(uses: seq<Key>)
    ensures NoRepeats(Recency(uses))
  {
    if uses != [] {
      var rest, x := uses[..|uses| - 1], uses[|uses| - 1];
      RecencyNoRepeats(rest);
      MinusNoRepeats(Recency(rest), x);
      MinusElement(Recency(rest), x, x);
      NoRepeatsConcat(Minus(Recency(rest), x), [x]);
    }
  }

  /** Touching a key among the most recent `max` gives the most recent `max` after touching it. */
  lemma TouchLast(max: nat, r: seq<Key>, key: Key)
    requires 1 <= max && NoRepeats(r)
    ensures Last(max, Minus(Last(max, r), key) + [key]) == Last(max, Minus(r, key) + [key])
  {
    if |r| > max {
      var p, s := r[..|r| - max], r[|r| - max..];
      assert r == p + s;
      NoRepeatsConcat(p, s);
      MinusConcat(p, s, key);
      MinusNoRepeats(s, key);
      var x := Minus(s, key) + [key];
      assert Minus(r, key) + [key] == Minus(p, key) + x;
      LastConcat(max, Minus(p, key), x);
    }
  }

  /** The cache holds exactly the `max` most recently used keys, least recent first. */
  lemma {:induction false} StoreIsMostRecent<V>(max: nat, ops: seq<Op<V>>)
    requires 1 <= max && forall i :: 0 <= i < |ops| ==> !ops[i].OpClear?
    ensures KeysOf(Run(max, 0, ops).store) == Last(max, Recency(Uses(max, ops)))
  {
    if ops != [] {
      var prev, op := ops[..|ops| - 1], ops[|ops| - 1];
      StoreIsMostRecent(max, prev);
      var st, u := Run(max, 0, prev), Uses(max, prev);
      assert !op.OpClear?;
      var found := Lookup(st.store, op.key);
      if op.OpSet? || found.Some? {
        var e := if op.OpSet? then Entry(op.key, op.value, None) else found.value;
        RunBounded(max, 0, prev);
        WithoutDistinct(st.store, op.key);
        assert Run(max, 0, ops).store == Last(max, Without(st.store, op.key) + [e]);
        KeysOfTouch(max, st.store, e);
        RecencyNoRepeats(u);
        TouchLast(max, Recency(u), op.key);
        assert Uses(max, ops) == u + [op.key];
        assert (u + [op.key])[..|u|] == u;
      } else {
        assert Uses(max, ops) == u + [] == u;
      }
    }
  }

  function Elements(ks: seq<Key>): set<Key> {
    set k | k in ks
  }

  lemma {:induction false} NoRepeatsCount(ks: seq<Key>)
    requires NoRepeats(ks)
    ensures |Elements(ks)| == |ks|
  {
    if ks != [] {
      NoRepeatsCount(ks[1..]);
      assert Elements(ks) == {ks[0]} + Elements(ks[1..]);
    }
  }

  /** In order of last use, what follows a key is exactly what was used since. */
  lemma {:induction false} RecencySplit(uses: seq<Key>, t: nat) returns (before: seq<Key>, since: seq<Key>)
    requires t < |uses| && uses[t] !in uses[t + 1..]
    ensures Recency(uses) == before + [uses[t]] + since
    ensures Elements(since) == Elements(uses[t + 1..])
  {
    var rest, x := uses[..|uses| - 1], uses[|uses| - 1];
    if t == |rest| {
      before, since := Minus(Recency(rest), x), [];
    } else {
      assert uses[t + 1..] == rest[t + 1..] + [x];
      var b, s := RecencySplit(rest, t);
      MinusConcat(b + [uses[t]], s, x);
      MinusConcat(b, [uses[t]], x);
      assert Minus([uses[t]], x) == [uses[t]] + Minus([uses[t]][1..], x);
      before, since := Minus(b, x), Minus(s, x) + [x];
      forall k ensures k in Elements(since) <==> k in Elements(uses[t + 1..]) {
        MinusElement(s, x, k);
        assert k in Elements(s) <==> k in Elements(rest[t + 1..]);
      }
    }
  }

  /** A used key is resident exactly when fewer than `max` distinct other keys were used since its last use. */
  lemma Residency<V>(max: nat, ops: seq<Op<V>>, t: nat)
    requires 1 <= max && forall i :: 0 <= i < |ops| ==> !ops[i].OpClear?
    requires t < |Uses(max, ops)| && Uses(max, ops)[t] !in Uses(max, ops)[t + 1..]
    ensures var uses := Uses(max, ops);
      Lookup(Run(max, 0, ops).store, uses[t]).Some? <==> |Elements(uses[t + 1..])| < max
  {
    var uses := Uses(max, ops);
    var key, r := uses[t], Recency(uses);
    StoreIsMostRecent(max, ops);
    KeysOfWithout(Run(max, 0, ops).store, key);
    var before, since := RecencySplit(uses, t);
    RecencyNoRepeats(uses);
    NoRepeatsConcat(before + [key], since);
    NoRepeatsConcat(before, [key]);
    NoRepeatsCount(since);
    assert key in before + [key];
    if |since| < max {
      if |r| > max {
        assert r[|r| - max..][max - 1 - |since|] == r[|before|] == key;
      } else {
        assert r[|before|] == key;
      }
    } else {
      LastConcat(max, before + [key], since);
    }
  }

  /** A key that was never set or hit is not resident. */
  lemma UnusedNotResident<V>(max: nat, ops: seq<Op<V>>, key: Key)
    requires 1 <= max && forall i :: 0 <= i < |ops| ==> !ops[i].OpClear?
    requires key !in Uses(max, ops)
    ensures Lookup(Run(max, 0, ops).store, key).None?
  {
    StoreIsMostRecent(max, ops);
    KeysOfWithout(Run(max, 0, ops).store, key);
    RecencyElements(Uses(max, ops), key);
  }

  // ----- what a hit returns ----------------------------------------------------------------------------------

  /** Call `i` is the latest set of `key`, storing `e`, with no clear after it. */
  ghost predicate LatestSet<V>(ttl: nat, ops: seq<Op<V>>, i: nat, e: Entry<V>) {
    && i < |ops|
    && ops[i].OpSet? && ops[i].key == e.key && ops[i].value == e.value && Deadline(ttl, ops[i].now) == e.expires
    && forall j :: i < j < |ops| ==> ops[j].OpGet? || (ops[j].OpSet? && ops[j].key != e.key)
  }

  /** An entry that a call leaves in the store is the one it set, or was there and is not what the call replaced. */
  lemma {:induction false} EntryOrigin<V>(max: nat, ttl: nat, st: CacheState<V>, op: Op<V>, e: Entry<V>)
    requires e in Step(max, ttl, st, op).store
    ensures (op.OpSet? && e == Entry(op.key, op.value, Deadline(ttl, op.now)))
      || (e in st.store && !op.OpClear? && (op.OpSet? ==> op.key != e.key))
  {
    match op
    case OpGet(key, now) => WithoutElements(st.store, key, e);
    case OpSet(key, value, now) =>
      WithoutElements(st.store, key, e);
      var all := Without(st.store, key) + [Entry(key, value, Deadline(ttl, now))];
      assert e in Last(max, all) ==> e in all;
    case OpClear =>
  }

  /** Every entry was stored by the latest set of its key, with no clear in between. */
  lemma {:induction false} EntriesAreLatest<V>(max: nat, ttl: nat, ops: seq<Op<V>>, e: Entry<V>) returns (i: nat)
    requires e in Run(max, ttl, ops).store
    ensures LatestSet(ttl, ops, i, e)
  {
    var prev, op := ops[..|ops| - 1], ops[|ops| - 1];
    EntryOrigin(max, ttl, Run(max, ttl, prev), op, e);
    if op.OpSet? && e == Entry(op.key, op.value, Deadline(ttl, op.now)) {
      i := |prev|;
    } else {
      i := EntriesAreLatest(max, ttl, prev, e);
      LatestSetStays(ttl, prev, op, i, e);
      assert prev + [op] == ops;
    }
  }

  lemma {:induction false} LatestSetStays<V>(ttl: nat, ops: seq<Op<V>>, op: Op<V>, i: nat, e: Entry<V>)
    requires LatestSet(ttl, ops, i, e) && (op.OpGet? || (op.OpSet? && op.key != e.key))
    ensures LatestSet(ttl, ops + [op], i, e)
  {
  }

  /** A hit returns the value of the latest set of that key; the cache was not cleared since, and with a
      positive expiry the set is at most `ttl` seconds old. */
  lemma HitIsLatestSet<V>(max: nat, ttl: nat, ops: seq<Op<V>>, key: Key, now: real) returns (i: nat)
    requires GetStep(ttl, Run(max, ttl, ops), key, now).1.Some?
    ensures i < |ops| && ops[i].OpSet? && ops[i].key == key
    ensures GetStep(ttl, Run(max, ttl, ops), key, now).1 == Some(ops[i].value)
    ensures forall j :: i < j < |ops| ==> ops[j].OpGet? || (ops[j].OpSet? && ops[j].key != key)
    ensures ttl != 0 ==> now <= ops[i].now + ttl as real
  {
    i := EntriesAreLatest(max, ttl, ops, Lookup(Run(max, ttl, ops).store, key).value);
  }

  /** And a resident entry is found as long as it is no older: over any run, a lookup of a key whose latest set is call
      `i` returns the value set then, unless a positive expiry has passed since. */
  lemma {:induction false} HitIff<V>(max: nat, ttl: nat, ops: seq<Op<V>>, key: Key, now: real, i: nat)
    requires Lookup(Run(max, ttl, ops).store, key).Some?
    requires i < |ops| && ops[i].OpSet? && ops[i].key == key
    requires forall j :: i < j < |ops| ==> ops[j].OpGet? || (ops[j].OpSet? && ops[j].key != key)
    ensures GetStep(ttl, Run(max, ttl, ops), key, now).1
         == if ttl == 0 || now <= ops[i].now + ttl as real then Some(ops[i].value) else None
  {
    var k := EntriesAreLatest(max, ttl, ops, Lookup(Run(max, ttl, ops).store, key).value);
    assert k == i;
  }

  /** The other keys that calls after `i` ask for or set. */
  function Others<V>(ops: seq<Op<V>>, i: nat): set<Key>
    requires i < |ops| && ops[i].OpSet?
  {
    set j: nat | i < j < |ops| && !ops[j].OpClear? && ops[j].key != ops[i].key :: ops[j].key
  }

  /** Call `i` sets a key that no later call sets or clears, or asks for when it has expired. */
  predicate Undisturbed<V>(ttl: nat, ops: seq<Op<V>>, i: nat) {
    && i < |ops| && ops[i].OpSet?
    && forall j :: i < j < |ops| ==>
         match ops[j]
         case OpGet(k, now) => k == ops[i].key ==> ttl == 0 || now <= ops[i].now + ttl as real
         case OpSet(k, _, _) => k != ops[i].key
         case OpClear => false
  }

  /** The key's entry, and behind it only entries of keys that calls after `i` name. */
  ghost predicate Behind<V>(ttl: nat, ops: seq<Op<V>>, i: nat, s: Store<V>, n: nat)
    requires i < |ops| && ops[i].OpSet?
  {
    && n < |s| && s[n] == Entry(ops[i].key, ops[i].value, Deadline(ttl, ops[i].now))
    && forall j :: n < j < |s| ==> s[j].key in Others(ops, i)
  }

  /** Taking out another key leaves the entry and what is behind it, less that key. */
  lemma {:induction false} BehindWithout<V>(ttl: nat, ops: seq<Op<V>>, i: nat, s: Store<V>, n: nat, key: Key)
    returns (m: nat)
    requires i < |ops| && ops[i].OpSet? && Behind(ttl, ops, i, s, n) && key != ops[i].key
    ensures Behind(ttl, ops, i, Without(s, key), m)
  {
    var before, e, since := s[..n], s[n], s[n + 1..];
    assert s == before + [e] + since;
    WithoutConcat(before + [e], since, key);
    WithoutConcat(before, [e], key);
    assert Without([e], key) == [e] + Without([e][1..], key);
    m := |Without(before, key)|;
    forall j | m < j < |Without(s, key)| ensures Without(s, key)[j].key in Others(ops, i) {
      var x := Without(s, key)[j];
      assert x == Without(since, key)[j - m - 1];
      WithoutElements(since, key, x);
    }
  }

  lemma {:induction false} FewBehind<V>(s: Store<V>, keys: set<Key>)
    requires Distinct(s) && forall j :: 0 <= j < |s| ==> s[j].key in keys
    ensures |s| <= |keys|
  {
    if s != [] {
      var last := s[|s| - 1].key;
      FewBehind(s[..|s| - 1], keys - {last});
    }
  }

  /** Putting one of those keys at the end evicts no such entry while there are fewer than `max` of them. */
  lemma {:induction false} BehindTouch<V>(max: nat, ttl: nat, ops: seq<Op<V>>, i: nat, s: Store<V>, n: nat, x: Entry<V>)
    returns (m: nat)
    requires i < |ops| && ops[i].OpSet? && Behind(ttl, ops, i, s, n)
    requires |Others(ops, i)| < max && x.key in Others(ops, i) && Distinct(s) && Lookup(s, x.key).None?
    ensures Behind(ttl, ops, i, Last(max, s + [x]), m)
  {
    var all := s + [x];
    AppendDistinct(s, x);
    FewBehind(all[n + 1..], Others(ops, i));
    assert Behind(ttl, ops, i, all, n);
    m := n;
    if |all| > max {
      BehindSuffix(ttl, ops, i, all, n, |all| - max);
      m := n - (|all| - max);
    }
  }

  lemma {:induction false} BehindSuffix<V>(ttl: nat, ops: seq<Op<V>>, i: nat, s: Store<V>, n: nat, d: nat)
    requires i < |ops| && ops[i].OpSet? && Behind(ttl, ops, i, s, n) && d <= n
    ensures Behind(ttl, ops, i, s[d..], n - d)
  {
  }

  lemma {:induction false} MoreOthers<V>(ttl: nat, ops: seq<Op<V>>, i: nat, s: Store<V>, n: nat)
    requires i + 1 < |ops| && ops[i].OpSet? && Behind(ttl, ops[..|ops| - 1], i, s, n)
    ensures Behind(ttl, ops, i, s, n)
    ensures !ops[|ops| - 1].OpClear? && ops[|ops| - 1].key != ops[i].key ==> ops[|ops| - 1].key in Others(ops, i)
  {
    OthersShrink(ops, i);
  }

  lemma {:induction false} OthersShrink<V>(ops: seq<Op<V>>, i: nat)
    requires i + 1 < |ops| && ops[i].OpSet?
    ensures Others(ops[..|ops| - 1], i) <= Others(ops, i)
    ensures |Others(ops[..|ops| - 1], i)| <= |Others(ops, i)|
  {
    var prev := ops[..|ops| - 1];
    forall k | k in Others(prev, i) ensures k in Others(ops, i) {
      var j: nat :| i < j < |prev| && !prev[j].OpClear? && prev[j].key != ops[i].key && prev[j].key == k;
      assert ops[j] == prev[j];
    }
    SubsetSize(Others(prev, i), Others(ops, i));
  }

  lemma {:induction false} SubsetSize<T>(a: set<T>, b: set<T>)
    requires a <= b
    ensures |a| <= |b|
  {
    assert b == a + (b - a);
  }

  /** One more call leaves the entry where it is, or moves it, or moves a key of those behind it. */
  lemma {:induction false} StepKeepsBehind<V>(max: nat, ttl: nat, ops: seq<Op<V>>, i: nat, n: nat) returns (m: nat)
    requires 1 <= max && Undisturbed(ttl, ops, i) && i + 1 < |ops| && |Others(ops, i)| < max
    requires Behind(ttl, ops[..|ops| - 1], i, Run(max, ttl, ops[..|ops| - 1]).store, n)
    ensures Behind(ttl, ops, i, Run(max, ttl, ops).store, m)
  {
    var op, st := ops[|ops| - 1], Run(max, ttl, ops[..|ops| - 1]);
    RunBounded(max, ttl, ops[..|ops| - 1]);
    MoreOthers(ttl, ops, i, st.store, n);
    WithoutDistinct(st.store, op.key);
    var found := Lookup(st.store, op.key);
    if op.key == ops[i].key {
      LookupOfDistinct(st.store, n);
      m := |Without(st.store, op.key)|;
    } else {
      m := BehindWithout(ttl, ops, i, st.store, n, op.key);
      if op.OpSet? {
        var e := Entry(op.key, op.value, Deadline(ttl, op.now));
        m := BehindTouch(max, ttl, ops, i, Without(st.store, op.key), m, e);
      } else if found.None? {
        WithoutAbsent(st.store, op.key);
      } else if !Expired(ttl, found.value, op.now) {
        m := BehindTouch(max, ttl, ops, i, Without(st.store, op.key), m, found.value);
      }
    }
  }

  /** Whatever else is asked for or set, an entry stays until it expires, while fewer than `max` other keys are. */
  lemma {:induction false} StaysInPlace<V>(max: nat, ttl: nat, ops: seq<Op<V>>, i: nat) returns (n: nat)
    requires 1 <= max && Undisturbed(ttl, ops, i) && |Others(ops, i)| < max
    ensures Behind(ttl, ops, i, Run(max, ttl, ops).store, n)
  {
    var prev := ops[..|ops| - 1];
    if i == |prev| {
      var st := Run(max, ttl, prev);
      var all := Without(st.store, ops[i].key) + [Entry(ops[i].key, ops[i].value, Deadline(ttl, ops[i].now))];
      n := |Last(max, all)| - 1;
    } else {
      OthersShrink(ops, i);
      n := StaysInPlace(max, ttl, prev, i);
      n := StepKeepsBehind(max, ttl, ops, i, n);
    }
  }

  /** The cache's promise, with or without expiry: a key set by call `i`, and since then neither set again nor cleared
      nor asked for too late, is found with that value until it expires, if calls in between name fewer than `max` other
      keys. */
  lemma {:induction false} SetThenHitIff<V>(max: nat, ttl: nat, ops: seq<Op<V>>, i: nat, now: real)
    requires 1 <= max && Undisturbed(ttl, ops, i) && |Others(ops, i)| < max
    ensures GetStep(ttl, Run(max, ttl, ops), ops[i].key, now).1
         == if ttl == 0 || now <= ops[i].now + ttl as real then Some(ops[i].value) else None
  {
    var n := StaysInPlace(max, ttl, ops, i);
    HitIff(max, ttl, ops, ops[i].key, now, i);
  }

  // ----- the order and the counters --------------------------------------------------------------------------

  /** A lookup takes its key out of its place in the order; a hit puts it at the end. */
  lemma {:induction false} GetMoves<V>(ttl: nat, st: CacheState<V>, key: Key, now: real)
    ensures var (next, found) := GetStep(ttl, st, key, now);
      KeysOf(next.store) == Minus(KeysOf(st.store), key) + if found.Some? then [key] else []
  {
    var e := Lookup(st.store, key);
    KeysOfWithout(st.store, key);
    if e.None? {
      WithoutAbsent(st.store, key);
    } else {
      KeysOfConcat(Without(st.store, key), [e.value]);
      assert KeysOf([e.value]) == [key];
    }
    assert Minus(KeysOf(st.store), key) + [] == Minus(KeysOf(st.store), key);
  }

  /** Call `i` of a run is a lookup that hits. */
  predicate HitsAt<V>(max: nat, ttl: nat, ops: seq<Op<V>>, i: nat) {
    i < |ops| && ops[i].OpGet? && GetStep(ttl, Run(max, ttl, ops[..i]), ops[i].key, ops[i].now).1.Some?
  }

  predicate MissesAt<V>(max: nat, ttl: nat, ops: seq<Op<V>>, i: nat) {
    i < |ops| && ops[i].OpGet? && !HitsAt(max, ttl, ops, i)
  }

  function HitsIn<V>(max: nat, ttl: nat, ops: seq<Op<V>>): set<nat> {
    set i: nat | i < |ops| && HitsAt(max, ttl, ops, i)
  }

  function MissesIn<V>(max: nat, ttl: nat, ops: seq<Op<V>>): set<nat> {
    set i: nat | i < |ops| && MissesAt(max, ttl, ops, i)
  }

  lemma {:induction false} SameSoFar<V>(max: nat, ttl: nat, ops: seq<Op<V>>, i: nat)
    requires ops != []
    ensures i in HitsIn(max, ttl, ops) <==>
      i in HitsIn(max, ttl, ops[..|ops| - 1]) || (i == |ops| - 1 && HitsAt(max, ttl, ops, i))
    ensures i in MissesIn(max, ttl, ops) <==>
      i in MissesIn(max, ttl, ops[..|ops| - 1]) || (i == |ops| - 1 && MissesAt(max, ttl, ops, i))
  {
    if i < |ops| - 1 {
      assert ops[..|ops| - 1][..i] == ops[..i];
    }
  }

  lemma {:induction false} OneMore(more: set<nat>, some: set<nat>, n: nat, c: bool)
    requires n !in some && forall i: nat :: i in more <==> i in some || (i == n && c)
    ensures |more| == |some| + if c then 1 else 0
  {
    assert more == some + if c then {n} else {};
  }

  lemma {:induction false} OneMoreCall<V>(max: nat, ttl: nat, ops: seq<Op<V>>)
    requires ops != []
    ensures var n, prev := |ops| - 1, ops[..|ops| - 1];
      && |HitsIn(max, ttl, ops)| == |HitsIn(max, ttl, prev)| + (if HitsAt(max, ttl, ops, n) then 1 else 0)
      && |MissesIn(max, ttl, ops)| == |MissesIn(max, ttl, prev)| + (if MissesAt(max, ttl, ops, n) then 1 else 0)
  {
    var n, prev := |ops| - 1, ops[..|ops| - 1];
    forall i: nat
      ensures i in HitsIn(max, ttl, ops) <==> i in HitsIn(max, ttl, prev) || (i == n && HitsAt(max, ttl, ops, n))
    {
      SameSoFar(max, ttl, ops, i);
    }
    OneMore(HitsIn(max, ttl, ops), HitsIn(max, ttl, prev), n, HitsAt(max, ttl, ops, n));
    forall i: nat
      ensures i in MissesIn(max, ttl, ops) <==> i in MissesIn(max, ttl, prev) || (i == n && MissesAt(max, ttl, ops, n))
    {
      SameSoFar(max, ttl, ops, i);
    }
    OneMore(MissesIn(max, ttl, ops), MissesIn(max, ttl, prev), n, MissesAt(max, ttl, ops, n));
  }

  /** The counters count the lookups that hit and those that do not. */
  lemma {:induction false} CountersCount<V>(max: nat, ttl: nat, ops: seq<Op<V>>)
    ensures Run(max, ttl, ops).hits == |HitsIn(max, ttl, ops)|
    ensures Run(max, ttl, ops).misses == |MissesIn(max, ttl, ops)|
  {
    if ops != [] {
      CountersCount(max, ttl, ops[..|ops| - 1]);
      OneMoreCall(max, ttl, ops);
    }
  }
}
