/** The answer cache: a bounded LRU with optional expiry (ai/second-brain/app/cache.py).
    Every method body runs under one lock, so a run is a sequence of whole calls; the monotonic clock reading
    each call takes is a parameter. */
module AnswerCaching {
  import opened Common

  type Key = string

  datatype Entry<+V> = Entry(key: Key, value: V, expires: Option<real>)

  /** An `OrderedDict`: entries from least to most recently used. */
  type Store<+V> = seq<Entry<V>>

  datatype CacheState<+V> = CacheState(store: Store<V>, hits: nat, misses: nat)

  // ----- the ordered dictionary ------------------------------------------------------------------------------

  ghost predicate Distinct<V>(s: Store<V>) {
    forall i, j :: 0 <= i < j < |s| ==> s[i].key != s[j].key
  }

  function Lookup<V>(s: Store<V>, key: Key): (r: Option<Entry<V>>)
    ensures r.Some? ==> r.value in s && r.value.key == key
    ensures r.None? ==> forall i :: 0 <= i < |s| ==> s[i].key != key
  {
    if s == [] then None else if s[0].key == key then Some(s[0]) else Lookup(s[1..], key)
  }

  function Without<V>(s: Store<V>, key: Key): Store<V> {
    if s == [] then []
    else if s[0].key == key then Without(s[1..], key)
    else [s[0]] + Without(s[1..], key)
  }

  lemma {:induction false} WithoutElements<V>(s: Store<V>, key: Key, e: Entry<V>)
    ensures e in Without(s, key) <==> e in s && e.key != key
  {
    if s != [] {
      WithoutElements(s[1..], key, e);
    }
  }

  lemma {:induction false} WithoutConcat<V>(a: Store<V>, b: Store<V>, key: Key)
    ensures Without(a + b, key) == Without(a, key) + Without(b, key)
  {
    if a == [] {
      assert a + b == b;
    } else {
      assert (a + b)[1..] == a[1..] + b;
      WithoutConcat(a[1..], b, key);
    }
  }

  lemma {:induction false} WithoutAbsent<V>(s: Store<V>, key: Key)
    requires Lookup(s, key).None?
    ensures Without(s, key) == s
  {
    if s != [] {
      WithoutAbsent(s[1..], key);
    }
  }

  lemma {:induction false} WithoutDistinct<V>(s: Store<V>, key: Key)
    requires Distinct(s)
    ensures Distinct(Without(s, key)) && Lookup(Without(s, key), key).None?
    ensures |Without(s, key)| == |s| - if Lookup(s, key).Some? then 1 else 0
  {
    if s != [] {
      WithoutDistinct(s[1..], key);
      if s[0].key == key {
        WithoutAbsent(s[1..], key);
      } else {
        var rest := Without(s[1..], key);
        forall i | 0 <= i < |rest| ensures rest[i].key != s[0].key {
          WithoutElements(s[1..], key, rest[i]);
        }
      }
    }
  }

  lemma {:induction false} LookupOfDistinct<V>(s: Store<V>, i: nat)
    requires Distinct(s) && i < |s|
    ensures Lookup(s, s[i].key) == Some(s[i])
  {
    if i > 0 {
      LookupOfDistinct(s[1..], i - 1);
    }
  }

  lemma AppendDistinct<V>(s: Store<V>, e: Entry<V>)
    requires Distinct(s) && Lookup(s, e.key).None?
    ensures Distinct(s + [e])
  {
  }

  // ----- specification of the calls --------------------------------------------------------------------------

  predicate Expired<V>(ttl: nat, e: Entry<V>, now: real) {
    ttl != 0 && e.expires.Some? && now > e.expires.value
  }

  function Deadline(ttl: nat, now: real): Option<real> {
    if ttl != 0 then Some(now + ttl as real) else None
  }

  function GetStep<V>(ttl: nat, st: CacheState<V>, key: Key, now: real): (CacheState<V>, Option<V>) {
    match Lookup(st.store, key)
    case None => (st.(misses := st.misses + 1), None)
    case Some(e) =>
      if Expired(ttl, e, now) then (st.(store := Without(st.store, key), misses := st.misses + 1), None)
      else (st.(store := Without(st.store, key) + [e], hits := st.hits + 1), Some(e.value))
  }

  /** The last `n` elements: what evicting from the front down to `n` leaves. */
  function Last<T>(n: nat, s: seq<T>): seq<T> {
    if |s| > n then s[|s| - n..] else s
  }

  function SetStep<V>(max: nat, ttl: nat, st: CacheState<V>, key: Key, value: V, now: real): CacheState<V> {
    st.(store := Last(max, Without(st.store, key) + [Entry(key, value, Deadline(ttl, now))]))
  }

  /** A step keeps one entry per key and never grows the cache past its bound. */
  lemma GetStepBounded<V>(max: nat, ttl: nat, st: CacheState<V>, key: Key, now: real)
    requires Distinct(st.store) && |st.store| <= max
    ensures var st' := GetStep(ttl, st, key, now).0; Distinct(st'.store) && |st'.store| <= max
  {
    WithoutDistinct(st.store, key);
    var e := Lookup(st.store, key);
    if e.Some? {
      AppendDistinct(Without(st.store, key), e.value);
    }
  }

  lemma SetStepBounded<V>(max: nat, ttl: nat, st: CacheState<V>, key: Key, value: V, now: real)
    requires 1 <= max && Distinct(st.store) && |st.store| <= max
    ensures var st' := SetStep(max, ttl, st, key, value, now);
      && Distinct(st'.store) && |st'.store| <= max
      && Lookup(st'.store, key) == Some(Entry(key, value, Deadline(ttl, now)))
  {
    var kept := Without(st.store, key);
    WithoutDistinct(st.store, key);
    var e := Entry(key, value, Deadline(ttl, now));
    AppendDistinct(kept, e);
    var s' := Last(max, kept + [e]);
    assert s'[|s'| - 1] == e;
    LookupOfDistinct(s', |s'| - 1);
  }

  function Empty<V>(): CacheState<V> {
    CacheState([], 0, 0)
  }

  // ----- the class -------------------------------------------------------------------------------------------

  class AnswerCache<V> {
    const maxEntries: nat
    const ttlSeconds: nat
    var store: Store<V>
    var hits: nat
    var misses: nat

    ghost predicate Valid()
      reads this
    {
      1 <= maxEntries && Distinct(store) && |store| <= maxEntries
    }

    ghost function Abs(): CacheState<V>
      reads this
    {
      CacheState(store, hits, misses)
    }

    constructor (max_entries: int, ttl_seconds: int)
      ensures Valid() && Abs() == Empty()
      ensures maxEntries == if max_entries < 1 then 1 else max_entries
      ensures ttlSeconds == if ttl_seconds < 0 then 0 else ttl_seconds
    {
      maxEntries := if max_entries < 1 then 1 else max_entries;
      ttlSeconds := if ttl_seconds < 0 then 0 else ttl_seconds;
      store, hits, misses := [], 0, 0;
    }

    method Get(key: Key, now: real) returns (r: Option<V>)
      requires Valid()
      modifies this`store, this`hits, this`misses
      ensures Valid()
      ensures (Abs(), r) == GetStep(ttlSeconds, old(Abs()), key, now)
    {
      GetStepBounded(maxEntries, ttlSeconds, Abs(), key, now);
      var entry := Lookup(store, key);
      if entry.None? {
        misses := misses + 1;
        return None;
      }
      if Expired(ttlSeconds, entry.value, now) {
        store := Without(store, key);
        misses := misses + 1;
        return None;
      }
      store := Without(store, key) + [entry.value];
      hits := hits + 1;
      return Some(entry.value.value);
    }

    /** The eviction loop stops, keeps the bound and never removes the key just set. */
    method Set(key: Key, value: V, now: real)
      requires Valid()
      modifies this`store
      ensures Valid()
      ensures Abs() == SetStep(maxEntries, ttlSeconds, old(Abs()), key, value, now)
      ensures Lookup(store, key) == Some(Entry(key, value, Deadline(ttlSeconds, now)))
    {
      var entry := Entry(key, value, Deadline(ttlSeconds, now));
      SetStepBounded(maxEntries, ttlSeconds, Abs(), key, value, now);
      WithoutDistinct(store, key);
      if Lookup(store, key).Some? {
        store := Without(store, key);
      } else {
        WithoutAbsent(store, key);
      }
      store := store + [entry];
      ghost var full := store;
      while |store| > maxEntries
        invariant |full| <= maxEntries + 1
        invariant store == full || (|full| == maxEntries + 1 && store == full[1..])
        decreases |store|
      {
        store := store[1..];
      }
    }

    method Clear()
      requires Valid()
      modifies this`store
      ensures Valid() && Abs() == old(Abs()).(store := [])
    {
      store := [];
    }
  }

  // ----- runs ------------------------------------------------------------------------------------------------

  datatype Op<+V> = OpGet(key: Key, now: real) | OpSet(key: Key, value: V, now: real) | OpClear

  function Step<V>(max: nat, ttl: nat, st: CacheState<V>, op: Op<V>): CacheState<V> {
    match op
    case OpGet(key, now) => GetStep(ttl, st, key, now).0
    case OpSet(key, value, now) => SetStep(max, ttl, st, key, value, now)
    case OpClear => st.(store := [])
  }

  /** The state after a run of calls on a fresh cache. */
  function Run<V>(max: nat, ttl: nat, ops: seq<Op<V>>): CacheState<V> {
    if ops == [] then Empty()
    else Step(max, ttl, Run(max, ttl, ops[..|ops| - 1]), ops[|ops| - 1])
  }

  /** Every reachable cache is within its bound and holds one entry per key. */
  lemma {:induction false} RunBounded<V>(max: nat, ttl: nat, ops: seq<Op<V>>)
    requires 1 <= max
    ensures Distinct(Run(max, ttl, ops).store) && |Run(max, ttl, ops).store| <= max
  {
    if ops != [] {
      RunBounded(max, ttl, ops[..|ops| - 1]);
      var st := Run(max, ttl, ops[..|ops| - 1]);
      match ops[|ops| - 1]
      case OpGet(key, now) => GetStepBounded(max, ttl, st, key, now);
      case OpSet(key, value, now) => SetStepBounded(max, ttl, st, key, value, now);
      case OpClear =>
    }
  }
}
