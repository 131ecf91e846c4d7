/** Does a larger answer cache serve everything a smaller one does?  It depends on whether asks overlap
    (ai/second-brain/app/api/routes.py:326-392). */
module AskInclusion {
  import opened Common
  import opened AnswerCaching
  import opened LruTheorems
  import opened CachedAsk

  // ----- proper runs -----------------------------------------------------------------------------------------

  /** The workers that have looked up and not finished, whether or not the cache answered. */
  function Open<R>(es: seq<Event<R>>): set<nat> {
    if es == [] then {}
    else
      var before := Open(es[..|es| - 1]);
      match es[|es| - 1]
      case Look(w, _, _, _) => before + {w}
      case Finish(w, _, _) => before - {w}
  }

  /** Each worker looks up and finishes in turn, and no more than `limit` asks are open at once. */
  ghost predicate Proper<R>(limit: nat, es: seq<Event<R>>) {
    es == [] ||
    var before := es[..|es| - 1];
    && Proper(limit, before)
    && match es[|es| - 1]
       case Look(w, _, _, _) => w !in Open(before) && |Open(before)| < limit
       case Finish(w, _, _) => w in Open(before)
  }

  /** A key that the cache of `n` places answers after a run is answered by the one of `m` places too. */
  ghost predicate HitNests<R, V>(n: nat, m: nat, ttl: nat, key: R -> Key, f: R -> V, es: seq<Event<R>>, k: Key,
                                 now: real) {
    GetStep(ttl, Serve(n, ttl, key, f, Idle(), es).cache, k, now).1.Some? ==>
    GetStep(ttl, Serve(m, ttl, key, f, Idle(), es).cache, k, now).1.Some?
  }

  ghost predicate HitsNest<V(!new)>(limit: nat, n: nat, m: nat, ttl: nat) {
    forall f: Key -> V, es, k, now :: Proper(limit, es) ==> HitNests(n, m, ttl, SameKey, f, es, k, now)
  }

  function SameKey(k: Key): Key {
    k
  }

  // ----- one ask at a time, without expiry -------------------------------------------------------------------

  ghost predicate NeverExpires<V>(s: Store<V>) {
    forall i :: 0 <= i < |s| ==> s[i].expires.None?
  }

  lemma {:induction false} NeverExpiresTouch<V>(max: nat, s: Store<V>, e: Entry<V>)
    requires NeverExpires(s) && e.expires.None?
    ensures NeverExpires(Last(max, Without(s, e.key) + [e]))
  {
    var t := Without(s, e.key);
    forall i | 0 <= i < |t| ensures t[i].expires.None? { WithoutElements(s, e.key, t[i]); }
  }

  /** An entry that was just used: it is the store's last. */
  ghost predicate Newest<V>(s: Store<V>, e: Entry<V>) {
    s != [] && s[|s| - 1] == e
  }

  /** Between the two caches: the small one is included in the large one, and where a worker is generating for the small
      one alone, the large one has just answered the same. */
  ghost predicate Kept<R, V>(n: nat, m: nat, key: R -> Key, f: R -> V, small: Serving<R, V>, large: Serving<R, V>) {
    && Includes(n, m, small.cache.store, large.cache.store) && NeverExpires(large.cache.store)
    && small.cache.hits <= large.cache.hits
    && (forall w <- large.busy :: w in small.busy && small.busy[w] == large.busy[w])
    && (forall w <- small.busy :: w !in large.busy ==>
          Newest(large.cache.store, Entry(key(small.busy[w]), f(small.busy[w]), None)))
  }

  lemma {:induction false} LookKeeps<R(!new), V(!new)>(n: nat, m: nat, key: R -> Key, f: R -> V, small: Serving<R, V>,
                                                       large: Serving<R, V>, e: Event<R>)
    requires 1 <= n <= m && Respects(key, f) && e.Look?
    requires Kept(n, m, key, f, small, large) && Sound(key, f, large.cache.store) && small.busy == large.busy == map[]
    ensures Kept(n, m, key, f, Next(n, 0, key, f, small, e), Next(m, 0, key, f, large, e))
  {
    var k, found := key(e.request), Lookup(large.cache.store, key(e.request));
    if !e.noCache {
      GetKeepsInclusion(n, m, 0, small.cache, large.cache, k, e.now);
      if found.Some? {
        var i :| 0 <= i < |large.cache.store| && large.cache.store[i] == found.value;
        assert found.value == Entry(k, f(e.request), None);
        NeverExpiresTouch(m, large.cache.store, found.value);
        WithoutDistinct(large.cache.store, k);
        assert Last(m, Without(large.cache.store, k) + [found.value]) == Without(large.cache.store, k) + [found.value];
      }
    }
  }

  lemma {:induction false} FinishKeeps<R(!new), V(!new)>(n: nat, m: nat, key: R -> Key, f: R -> V, small: Serving<R, V>,
                                                         large: Serving<R, V>, e: Event<R>)
    requires 1 <= n <= m && e.Finish? && small.busy.Keys <= {e.worker}
    requires Kept(n, m, key, f, small, large)
    ensures Kept(n, m, key, f, Next(n, 0, key, f, small, e), Next(m, 0, key, f, large, e))
  {
    if e.worker in small.busy && e.produced {
      var r := small.busy[e.worker];
      var entry := Entry(key(r), f(r), None);
      InsertKeepsInclusion(n, m, small.cache.store, large.cache.store, entry);
      NeverExpiresTouch(m, large.cache.store, entry);
      if e.worker !in large.busy {
        TouchingNewest(m, large.cache.store, entry);
      }
    }
  }

  lemma {:induction false} TouchingNewest<V>(m: nat, s: Store<V>, e: Entry<V>)
    requires Distinct(s) && |s| <= m && Newest(s, e)
    ensures Last(m, Without(s, e.key) + [e]) == s
  {
    var n := |s| - 1;
    forall i | 0 <= i < n ensures s[..n][i].key != e.key {
    }
    WithoutConcat(s[..n], [e], e.key);
    WithoutAbsent(s[..n], e.key);
    assert s == s[..n] + [e];
  }

  lemma {:induction false} BusyAreOpen<R, V>(max: nat, ttl: nat, key: R -> Key, f: R -> V, es: seq<Event<R>>)
    ensures Serve(max, ttl, key, f, Idle(), es).busy.Keys <= Open(es)
  {
    if es != [] {
      BusyAreOpen(max, ttl, key, f, es[..|es| - 1]);
    }
  }

  /** Without expiry and with one ask at a time a larger cache holds everything a smaller one does, even where it
      answers and the smaller one has to generate, and hits at least as often. */
  lemma {:induction false} LargerCacheServesMore<R(!new), V(!new)>(n: nat, m: nat, key: R -> Key, f: R -> V,
                                                                   es: seq<Event<R>>)
    requires 1 <= n <= m && Respects(key, f) && Proper(1, es)
    ensures Kept(n, m, key, f, Serve(n, 0, key, f, Idle(), es), Serve(m, 0, key, f, Idle(), es))
  {
    if es != [] {
      var before, e := es[..|es| - 1], es[|es| - 1];
      LargerCacheServesMore(n, m, key, f, before);
      ServeSound(m, 0, key, f, before);
      BusyAreOpen(n, 0, key, f, before);
      BusyAreOpen(m, 0, key, f, before);
      OneOpen(before);
      var small, large := Serve(n, 0, key, f, Idle(), before), Serve(m, 0, key, f, Idle(), before);
      match e
      case Look(_, _, _, _) =>
        assert small.busy.Keys == {} && large.busy.Keys == {};
        LookKeeps(n, m, key, f, small, large, e);
      case Finish(_, _, _) =>
        FinishKeeps(n, m, key, f, small, large, e);
    }
  }

  lemma {:induction false} OneOpen<R>(es: seq<Event<R>>)
    requires Proper(1, es)
    ensures |Open(es)| <= 1 && forall v, w :: v in Open(es) && w in Open(es) ==> v == w
  {
    if es != [] {
      OneOpen(es[..|es| - 1]);
    }
  }

  // ----- the runs that set the caches apart ------------------------------------------------------------------

  function Name(i: nat): (k: Key)
    ensures |k| == i
  {
    if i == 0 then "" else Name(i - 1) + "x"
  }

  function NamedEntry<V>(ttl: nat, f: Key -> V, i: nat): Entry<V> {
    Entry(Name(i), f(Name(i)), Deadline(ttl, 0.0))
  }

  function NamedEntries<V>(ttl: nat, f: Key -> V, i: nat, j: nat): (es: Store<V>)
    ensures |es| == j
  {
    if j == 0 then [] else NamedEntries(ttl, f, i, j - 1) + [NamedEntry(ttl, f, i + j - 1)]
  }

  lemma {:induction false} NamedEntryAt<V>(ttl: nat, f: Key -> V, i: nat, j: nat)
    ensures forall k :: 0 <= k < j ==> NamedEntries(ttl, f, i, j)[k] == NamedEntry(ttl, f, i + k)
  {
    if j > 0 {
      NamedEntryAt(ttl, f, i, j - 1);
    }
  }

  /** A whole ask of worker 0 with nothing in between. */
  function WholeAsk(k: Key, now: real): seq<Event<Key>> {
    [Look(0, k, false, now), Finish(0, true, now)]
  }

  /** Whole asks for `j` names from the i-th on, all at time 0. */
  function Asks(i: nat, j: nat): seq<Event<Key>> {
    if j == 0 then [] else Asks(i, j - 1) + WholeAsk(Name(i + j - 1), 0.0)
  }

  lemma {:induction false} ServeConcat<R, V>(max: nat, ttl: nat, key: R -> Key, f: R -> V, s: Serving<R, V>,
                                             a: seq<Event<R>>, b: seq<Event<R>>)
    ensures Serve(max, ttl, key, f, s, a + b) == Serve(max, ttl, key, f, Serve(max, ttl, key, f, s, a), b)
  {
    if b == [] {
      assert a + b == a;
    } else {
      assert (a + b)[..|a + b| - 1] == a + b[..|b| - 1];
      ServeConcat(max, ttl, key, f, s, a, b[..|b| - 1]);
    }
  }

  lemma {:induction false} ServeOne<R, V>(max: nat, ttl: nat, key: R -> Key, f: R -> V, s: Serving<R, V>, e: Event<R>)
    ensures Serve(max, ttl, key, f, s, [e]) == Next(max, ttl, key, f, s, e)
  {
    assert [e][..0] == [] && Serve(max, ttl, key, f, s, []) == s;
  }

  lemma {:induction false} ServeTwo<R, V>(max: nat, ttl: nat, key: R -> Key, f: R -> V, s: Serving<R, V>,
                                          e: Event<R>, g: Event<R>)
    ensures Serve(max, ttl, key, f, s, [e, g]) == Next(max, ttl, key, f, Next(max, ttl, key, f, s, e), g)
  {
    assert [e, g][..1] == [e];
    ServeOne(max, ttl, key, f, s, e);
  }

  /** A whole ask for a key that is not there stores its answer. */
  lemma {:induction false} MissedAsk<V>(max: nat, ttl: nat, f: Key -> V, s: Serving<Key, V>, k: Key, now: real)
    requires Lookup(s.cache.store, k).None? && 0 !in s.busy
    ensures var t := Serve(max, ttl, SameKey, f, s, WholeAsk(k, now));
      t.cache.store == Last(max, s.cache.store + [Entry(k, f(k), Deadline(ttl, now))]) && t.busy == s.busy
  {
    ServeTwo(max, ttl, SameKey, f, s, Look(0, k, false, now), Finish(0, true, now));
    WithoutAbsent(s.cache.store, k);
    assert s.busy[0 := k] - {0} == s.busy;
  }

  /** None of the names from the i-th on is a key here. */
  ghost predicate Below<V>(s: Store<V>, i: nat) {
    forall e :: e in s ==> |e.key| < i
  }

  lemma {:induction false} LastPush<T>(n: nat, s: seq<T>, x: T)
    requires 1 <= n
    ensures Last(n, Last(n, s) + [x]) == Last(n, s + [x])
  {
    if |s| > n {
      var kept := s[|s| - n..];
      assert (kept + [x])[1..] == kept[1..] + [x] == s[|s| - n + 1..] + [x] == (s + [x])[|s| + 1 - n..];
    }
  }

  /** Between two states only the names from i to i + j were added, the last ones being left. */
  ghost predicate Added<V>(max: nat, ttl: nat, f: Key -> V, s: Serving<Key, V>, t: Serving<Key, V>, i: nat, j: nat) {
    && t.cache.store == Last(max, s.cache.store + NamedEntries(ttl, f, i, j))
    && Below(t.cache.store, i + j) && t.busy == s.busy
  }

  lemma {:induction false} AddedOneMore<V>(max: nat, ttl: nat, f: Key -> V, s: Serving<Key, V>, t: Serving<Key, V>,
                                           u: Serving<Key, V>, i: nat, j: nat)
    requires 1 <= max && Added(max, ttl, f, s, t, i, j) && Below(u.cache.store, i + j + 1) && u.busy == t.busy
    requires u.cache.store == Last(max, t.cache.store + [NamedEntry(ttl, f, i + j)])
    ensures Added(max, ttl, f, s, u, i, j + 1)
  {
    var es, e := NamedEntries(ttl, f, i, j), NamedEntry(ttl, f, i + j);
    LastPush(max, s.cache.store + es, e);
    assert NamedEntries(ttl, f, i, j + 1) == es + [e];
    assert s.cache.store + es + [e] == s.cache.store + (es + [e]);
  }

  lemma {:induction false} OneNewName<V>(max: nat, ttl: nat, f: Key -> V, s: Serving<Key, V>, i: nat)
    requires 1 <= max && Below(s.cache.store, i) && 0 !in s.busy
    ensures var t := Serve(max, ttl, SameKey, f, s, WholeAsk(Name(i), 0.0));
      && t.cache.store == Last(max, s.cache.store + [NamedEntry(ttl, f, i)])
      && Below(t.cache.store, i + 1) && t.busy == s.busy
  {
    assert Lookup(s.cache.store, Name(i)).None?;
    MissedAsk(max, ttl, f, s, Name(i), 0.0);
    assert forall e :: e in Last(max, s.cache.store + [NamedEntry(ttl, f, i)]) ==>
      e in s.cache.store || e == NamedEntry(ttl, f, i);
  }

  /** The state after asking for the names from i to i + j. */
  function Asked<V>(max: nat, ttl: nat, f: Key -> V, s: Serving<Key, V>, i: nat, j: nat): Serving<Key, V> {
    if j == 0 then s
    else Serve(max, ttl, SameKey, f, Asked(max, ttl, f, s, i, j - 1), WholeAsk(Name(i + j - 1), 0.0))
  }

  lemma {:induction false} AskedIs<V>(max: nat, ttl: nat, f: Key -> V, s: Serving<Key, V>, i: nat, j: nat)
    ensures Serve(max, ttl, SameKey, f, s, Asks(i, j)) == Asked(max, ttl, f, s, i, j)
  {
    if j > 0 {
      AskedIs(max, ttl, f, s, i, j - 1);
      ServeConcat(max, ttl, SameKey, f, s, Asks(i, j - 1), WholeAsk(Name(i + j - 1), 0.0));
    }
  }

  lemma {:induction false} OneMoreAdded<V>(max: nat, ttl: nat, f: Key -> V, s: Serving<Key, V>, t: Serving<Key, V>,
                                           i: nat, j: nat)
    requires 1 <= max && 0 !in s.busy && Added(max, ttl, f, s, t, i, j)
    ensures Added(max, ttl, f, s, Serve(max, ttl, SameKey, f, t, WholeAsk(Name(i + j), 0.0)), i, j + 1)
  {
    OneNewName(max, ttl, f, t, i + j);
    AddedOneMore(max, ttl, f, s, t, Serve(max, ttl, SameKey, f, t, WholeAsk(Name(i + j), 0.0)), i, j);
  }

  lemma {:induction false} NothingAdded<V>(max: nat, ttl: nat, f: Key -> V, s: Serving<Key, V>, i: nat)
    requires |s.cache.store| <= max && Below(s.cache.store, i)
    ensures Added(max, ttl, f, s, s, i, 0)
  {
    assert s.cache.store + NamedEntries(ttl, f, i, 0) == s.cache.store;
  }

  lemma {:induction false} AskedAdds<V>(max: nat, ttl: nat, f: Key -> V, s: Serving<Key, V>, i: nat, j: nat)
    requires 1 <= max && |s.cache.store| <= max && Below(s.cache.store, i) && 0 !in s.busy
    ensures Added(max, ttl, f, s, Asked(max, ttl, f, s, i, j), i, j)
  {
    if j == 0 {
      NothingAdded(max, ttl, f, s, i);
    } else {
      AskedAdds(max, ttl, f, s, i, j - 1);
      OneMoreAdded(max, ttl, f, s, Asked(max, ttl, f, s, i, j - 1), i, j - 1);
    }
  }

  /** Asking for `j` new names adds their entries and leaves the last ones. */
  lemma {:induction false} NewNames<V>(max: nat, ttl: nat, f: Key -> V, s: Serving<Key, V>, i: nat, j: nat)
    requires 1 <= max && |s.cache.store| <= max && Below(s.cache.store, i) && 0 !in s.busy
    ensures Added(max, ttl, f, s, Serve(max, ttl, SameKey, f, s, Asks(i, j)), i, j)
  {
    AskedIs(max, ttl, f, s, i, j);
    AskedAdds(max, ttl, f, s, i, j);
  }

  lemma {:induction false} FromIdle<V>(max: nat, ttl: nat, f: Key -> V, j: nat)
    requires 1 <= max
    ensures var t := Serve(max, ttl, SameKey, f, Idle(), Asks(0, j));
      t.cache.store == Last(max, NamedEntries(ttl, f, 0, j)) && Below(t.cache.store, j) && t.busy == map[]
  {
    NewNames(max, ttl, f, Idle(), 0, j);
    assert [] + NamedEntries(ttl, f, 0, j) == NamedEntries(ttl, f, 0, j);
  }

  /** After the first n + 1 names the cache of n places has just dropped the first one. */
  lemma {:induction false} FirstDropped<V>(n: nat, ttl: nat, f: Key -> V)
    requires 1 <= n
    ensures var t := Serve(n, ttl, SameKey, f, Idle(), Asks(0, n + 1));
      t.busy == map[] && |t.cache.store| <= n && Lookup(t.cache.store, Name(0)).None? && Below(t.cache.store, n + 1)
  {
    FromIdle(n, ttl, f, n + 1);
    NamedEntryAt(ttl, f, 0, n + 1);
  }

  /** A larger one still has it. */
  lemma {:induction false} FirstHeld<V>(n: nat, m: nat, ttl: nat, f: Key -> V)
    requires 1 <= n < m
    ensures var t := Serve(m, ttl, SameKey, f, Idle(), Asks(0, n + 1));
      t.busy == map[] && |t.cache.store| <= m && Lookup(t.cache.store, Name(0)) == Some(NamedEntry(ttl, f, 0)) &&
      Below(t.cache.store, n + 1)
  {
    FromIdle(m, ttl, f, n + 1);
    NamedEntryAt(ttl, f, 0, n + 1);
  }

  lemma {:induction false} WithoutGone<V>(s: Store<V>, key: Key)
    ensures Lookup(Without(s, key), key).None?
  {
    if s != [] {
      WithoutGone(s[1..], key);
    }
  }

  lemma {:induction false} LookupLast<V>(s: Store<V>, e: Entry<V>)
    requires Lookup(s, e.key).None?
    ensures Lookup(s + [e], e.key) == Some(e)
  {
    if s != [] {
      assert (s + [e])[1..] == s[1..] + [e];
      LookupLast(s[1..], e);
    }
  }

  // with expiry: one ask at a time is enough

  /** The first name is asked again just before its entry expires. */
  function LateAsks(n: nat, ttl: nat): seq<Event<Key>> {
    Asks(0, n + 1) + WholeAsk(Name(0), ttl as real)
  }

  /** The small cache regenerates it with a new expiry; the large one answers and keeps the old one. */
  lemma {:induction false} LateExpiry<V(!new)>(n: nat, m: nat, ttl: nat, f: Key -> V)
    requires 1 <= n < m && 0 < ttl
    ensures !HitNests(n, m, ttl, SameKey, f, LateAsks(n, ttl), Name(0), 2.0 * ttl as real)
  {
    FirstDropped(n, ttl, f);
    FirstHeld(n, m, ttl, f);
    SmallRenews(n, ttl, f, Serve(n, ttl, SameKey, f, Idle(), Asks(0, n + 1)));
    LargeKeeps(m, ttl, f, Serve(m, ttl, SameKey, f, Idle(), Asks(0, n + 1)));
    ServeConcat(n, ttl, SameKey, f, Idle(), Asks(0, n + 1), WholeAsk(Name(0), ttl as real));
    ServeConcat(m, ttl, SameKey, f, Idle(), Asks(0, n + 1), WholeAsk(Name(0), ttl as real));
  }

  lemma {:induction false} SmallRenews<V>(n: nat, ttl: nat, f: Key -> V, s: Serving<Key, V>)
    requires 1 <= n && 0 < ttl && s.busy == map[] && Lookup(s.cache.store, Name(0)).None?
    ensures var t := Serve(n, ttl, SameKey, f, s, WholeAsk(Name(0), ttl as real));
      GetStep(ttl, t.cache, Name(0), 2.0 * ttl as real).1.Some?
  {
    MissedAsk(n, ttl, f, s, Name(0), ttl as real);
    LastHas(n, s.cache.store, Entry(Name(0), f(Name(0)), Deadline(ttl, ttl as real)));
  }

  lemma {:induction false} LastHas<V>(n: nat, s: Store<V>, e: Entry<V>)
    requires 1 <= n && Lookup(s, e.key).None?
    ensures Lookup(Last(n, s + [e]), e.key) == Some(e)
  {
    var drop := if |s| + 1 > n then |s| + 1 - n else 0;
    assert Last(n, s + [e]) == s[drop..] + [e];
    assert Lookup(s[drop..], e.key).None?;
    LookupLast(s[drop..], e);
  }

  lemma {:induction false} LargeKeeps<V>(m: nat, ttl: nat, f: Key -> V, s: Serving<Key, V>)
    requires 0 < ttl && s.busy == map[] && Lookup(s.cache.store, Name(0)) == Some(NamedEntry(ttl, f, 0))
    ensures var t := Serve(m, ttl, SameKey, f, s, WholeAsk(Name(0), ttl as real));
      GetStep(ttl, t.cache, Name(0), 2.0 * ttl as real).1.None?
  {
    var e := NamedEntry(ttl, f, 0);
    ServeTwo(m, ttl, SameKey, f, s, Look(0, Name(0), false, ttl as real), Finish(0, true, ttl as real));
    assert !Expired(ttl, e, ttl as real);
    WithoutGone(s.cache.store, Name(0));
    LookupLast(Without(s.cache.store, Name(0)), e);
  }

  // without: two at a time

  /** Worker 1 looks the first name up, which only the small cache no longer has; then m new names push it out of the
      large cache; then worker 1 finishes. */
  function SlowAsks(n: nat, m: nat): seq<Event<Key>> {
    Asks(0, n + 1) + [Look(1, Name(0), false, 0.0)] + Asks(n + 1, m) + [Finish(1, true, 0.0)]
  }

  lemma {:induction false} SlowParts<V>(max: nat, m: nat, ttl: nat, f: Key -> V, n: nat)
    ensures var s0 := Serve(max, ttl, SameKey, f, Idle(), Asks(0, n + 1));
      var s1 := Next(max, ttl, SameKey, f, s0, Look(1, Name(0), false, 0.0));
      var s2 := Serve(max, ttl, SameKey, f, s1, Asks(n + 1, m));
      Serve(max, ttl, SameKey, f, Idle(), SlowAsks(n, m)) == Next(max, ttl, SameKey, f, s2, Finish(1, true, 0.0))
  {
    var a, look, b, finish := Asks(0, n + 1), [Look(1, Name(0), false, 0.0)], Asks(n + 1, m), [Finish(1, true, 0.0)];
    ServeConcat(max, ttl, SameKey, f, Idle(), a + look + b, finish);
    ServeConcat(max, ttl, SameKey, f, Idle(), a + look, b);
    ServeConcat(max, ttl, SameKey, f, Idle(), a, look);
    ServeOne(max, ttl, SameKey, f, Serve(max, ttl, SameKey, f, Idle(), a), look[0]);
    ServeOne(max, ttl, SameKey, f, Serve(max, ttl, SameKey, f, Idle(), a + look + b), finish[0]);
  }

  lemma {:induction false} SlowSmall<V>(n: nat, m: nat, ttl: nat, f: Key -> V, s0: Serving<Key, V>)
    requires 1 <= n && s0.busy == map[] && |s0.cache.store| <= n
    requires Lookup(s0.cache.store, Name(0)).None? && Below(s0.cache.store, n + 1)
    ensures var s1 := Next(n, ttl, SameKey, f, s0, Look(1, Name(0), false, 0.0));
      var s2 := Serve(n, ttl, SameKey, f, s1, Asks(n + 1, m));
      GetStep(ttl, Next(n, ttl, SameKey, f, s2, Finish(1, true, 0.0)).cache, Name(0), 0.0).1.Some?
  {
    var s1 := Next(n, ttl, SameKey, f, s0, Look(1, Name(0), false, 0.0));
    NewNames(n, ttl, f, s1, n + 1, m);
    var s2 := Serve(n, ttl, SameKey, f, s1, Asks(n + 1, m));
    StoredHits(n, ttl, s2.cache, Name(0), f(Name(0)));
  }

  lemma {:induction false} StoredHits<V>(n: nat, ttl: nat, st: CacheState<V>, k: Key, v: V)
    requires 1 <= n
    ensures GetStep(ttl, SetStep(n, ttl, st, k, v, 0.0), k, 0.0).1.Some?
  {
    WithoutGone(st.store, k);
    LastHas(n, Without(st.store, k), Entry(k, v, Deadline(ttl, 0.0)));
  }

  lemma {:induction false} SlowLarge<V>(n: nat, m: nat, ttl: nat, f: Key -> V, s1: Serving<Key, V>)
    requires 1 <= m && s1.busy == map[] && |s1.cache.store| <= m && Below(s1.cache.store, n + 1)
    ensures var s2 := Serve(m, ttl, SameKey, f, s1, Asks(n + 1, m));
      GetStep(ttl, Next(m, ttl, SameKey, f, s2, Finish(1, true, 0.0)).cache, Name(0), 0.0).1.None?
  {
    PushedOut(m, ttl, f, s1, n + 1);
    IdleFinish(m, ttl, f, Serve(m, ttl, SameKey, f, s1, Asks(n + 1, m)));
  }

  lemma {:induction false} IdleFinish<V>(m: nat, ttl: nat, f: Key -> V, s: Serving<Key, V>)
    requires 1 !in s.busy && Lookup(s.cache.store, Name(0)).None?
    ensures GetStep(ttl, Next(m, ttl, SameKey, f, s, Finish(1, true, 0.0)).cache, Name(0), 0.0).1.None?
  {
  }

  /** As many new names as there are places leave nothing else. */
  lemma {:induction false} PushedOut<V>(m: nat, ttl: nat, f: Key -> V, s: Serving<Key, V>, i: nat)
    requires 1 <= m && 1 <= i && |s.cache.store| <= m && Below(s.cache.store, i) && 0 !in s.busy
    ensures var t := Serve(m, ttl, SameKey, f, s, Asks(i, m)); Lookup(t.cache.store, Name(0)).None? && t.busy == s.busy
  {
    NewNames(m, ttl, f, s, i, m);
    OnlyNewLeft(m, ttl, f, s.cache.store, i);
  }

  lemma {:induction false} OnlyNewLeft<V>(m: nat, ttl: nat, f: Key -> V, s: Store<V>, i: nat)
    requires 1 <= i
    ensures Lookup(Last(m, s + NamedEntries(ttl, f, i, m)), Name(0)).None?
  {
    NamedEntryAt(ttl, f, i, m);
    assert Last(m, s + NamedEntries(ttl, f, i, m)) == NamedEntries(ttl, f, i, m);
  }

  lemma {:induction false} HitReorders<V>(m: nat, ttl: nat, f: Key -> V, s: Serving<Key, V>, e: Entry<V>, i: nat)
    requires Lookup(s.cache.store, Name(0)) == Some(e) && !Expired(ttl, e, 0.0) && s.busy == map[]
    requires Below(s.cache.store, i) && |s.cache.store| <= m
    ensures var t := Next(m, ttl, SameKey, f, s, Look(1, Name(0), false, 0.0));
      t.busy == map[] && Below(t.cache.store, i) && |t.cache.store| <= m
  {
    forall x | x in Without(s.cache.store, Name(0)) ensures |x.key| < i {
      WithoutElements(s.cache.store, Name(0), x);
    }
    WithoutShorter(s.cache.store, Name(0));
  }

  lemma {:induction false} SlowAsk<V(!new)>(n: nat, m: nat, ttl: nat, f: Key -> V)
    requires 1 <= n < m
    ensures !HitNests(n, m, ttl, SameKey, f, SlowAsks(n, m), Name(0), 0.0)
  {
    FirstDropped(n, ttl, f);
    FirstHeld(n, m, ttl, f);
    SlowParts(n, m, ttl, f, n);
    SlowParts(m, m, ttl, f, n);
    SlowSmall(n, m, ttl, f, Serve(n, ttl, SameKey, f, Idle(), Asks(0, n + 1)));
    var s0 := Serve(m, ttl, SameKey, f, Idle(), Asks(0, n + 1));
    HitReorders(m, ttl, f, s0, NamedEntry(ttl, f, 0), n + 1);
    SlowLarge(n, m, ttl, f, Next(m, ttl, SameKey, f, s0, Look(1, Name(0), false, 0.0)));
  }

  // both runs are proper

  lemma {:induction false} ProperSnoc<R>(limit: nat, es: seq<Event<R>>, e: Event<R>)
    requires Proper(limit, es)
    requires e.Look? ==> e.worker !in Open(es) && |Open(es)| < limit
    requires e.Finish? ==> e.worker in Open(es)
    ensures Proper(limit, es + [e])
    ensures Open(es + [e]) == if e.Look? then Open(es) + {e.worker} else Open(es) - {e.worker}
  {
    assert (es + [e])[..|es|] == es;
  }

  lemma {:induction false} WholeAskProper(limit: nat, es: seq<Event<Key>>, k: Key, now: real)
    requires Proper(limit, es) && 0 !in Open(es) && |Open(es)| < limit
    ensures Proper(limit, es + WholeAsk(k, now)) && Open(es + WholeAsk(k, now)) == Open(es)
  {
    var look, finish := Look(0, k, false, now), Finish(0, true, now);
    ProperSnoc(limit, es, look);
    ProperSnoc(limit, es + [look], finish);
    assert es + [look] + [finish] == es + WholeAsk(k, now);
    assert Open(es) + {0} - {0} == Open(es);
  }

  function Extended(es: seq<Event<Key>>, i: nat, j: nat): seq<Event<Key>> {
    if j == 0 then es else Extended(es, i, j - 1) + WholeAsk(Name(i + j - 1), 0.0)
  }

  lemma {:induction false} ExtendedIs(es: seq<Event<Key>>, i: nat, j: nat)
    ensures Extended(es, i, j) == es + Asks(i, j)
  {
    if j > 0 {
      ExtendedIs(es, i, j - 1);
    }
  }

  lemma {:induction false} ExtendedProper(limit: nat, es: seq<Event<Key>>, i: nat, j: nat)
    requires Proper(limit, es) && 0 !in Open(es) && |Open(es)| < limit
    ensures Proper(limit, Extended(es, i, j)) && Open(Extended(es, i, j)) == Open(es)
  {
    if j > 0 {
      var before, k := Extended(es, i, j - 1), Name(i + j - 1);
      ExtendedProper(limit, es, i, j - 1);
      WholeAskProper(limit, before, k, 0.0);
      assert Extended(es, i, j) == before + WholeAsk(k, 0.0);
    }
  }

  lemma {:induction false} AsksProper(limit: nat, es: seq<Event<Key>>, i: nat, j: nat)
    requires Proper(limit, es) && 0 !in Open(es) && |Open(es)| < limit
    ensures Proper(limit, es + Asks(i, j)) && Open(es + Asks(i, j)) == Open(es)
  {
    ExtendedIs(es, i, j);
    ExtendedProper(limit, es, i, j);
  }

  lemma {:induction false} LateAsksProper(limit: nat, n: nat, ttl: nat)
    requires 1 <= limit
    ensures Proper(limit, LateAsks(n, ttl))
  {
    AsksProper(limit, [], 0, n + 1);
    assert [] + Asks(0, n + 1) == Asks(0, n + 1);
    WholeAskProper(limit, Asks(0, n + 1), Name(0), ttl as real);
  }

  lemma {:induction false} SlowAsksProper(limit: nat, n: nat, m: nat)
    requires 2 <= limit
    ensures Proper(limit, SlowAsks(n, m))
  {
    AsksProper(limit, [], 0, n + 1);
    var a := Asks(0, n + 1);
    assert [] + a == a;
    ProperSnoc(limit, a, Look(1, Name(0), false, 0.0));
    AsksProper(limit, a + [Look(1, Name(0), false, 0.0)], n + 1, m);
    ProperSnoc(limit, a + [Look(1, Name(0), false, 0.0)] + Asks(n + 1, m), Finish(1, true, 0.0));
  }

  /** A larger cache asked the same questions always answers what a smaller one does exactly when the capacities are
      equal, or entries do not expire and asks never overlap.  With expiry the larger cache keeps an old entry where the
      smaller one regenerates it; with overlap the smaller one can store late what the larger one has since dropped. */
  lemma {:induction false} LargerCacheServesMoreIff<V(!new)>(limit: nat, n: nat, m: nat, ttl: nat, f: Key -> V)
    requires 1 <= limit && 1 <= n <= m
    ensures HitsNest<V>(limit, n, m, ttl) <==> n == m || (ttl == 0 && limit == 1)
  {
    if n < m && ttl == 0 && limit == 1 {
      forall g: Key -> V, es, k, now | Proper(limit, es) ensures HitNests(n, m, ttl, SameKey, g, es, k, now) {
        LargerCacheServesMore(n, m, SameKey, g, es);
        var small, large := Serve(n, ttl, SameKey, g, Idle(), es).cache, Serve(m, ttl, SameKey, g, Idle(), es).cache;
        GetKeepsInclusion(n, m, ttl, small, large, k, now);
      }
    } else if n < m && limit == 1 {
      LateAsksProper(limit, n, ttl);
      LateExpiry(n, m, ttl, f);
    } else if n < m {
      SlowAsksProper(limit, n, m);
      SlowAsk(n, m, ttl, f);
    }
  }
}
