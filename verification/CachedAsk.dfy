/** Asking through the cache: the cache key (ai/second-brain/app/cache.py) and its use by the /ask endpoint
    (ai/second-brain/app/api/routes.py), whose asks overlap: each looks its key up and later stores its answer. */
module CachedAsk {
  import opened Common
  import opened Ordering
  import opened Text
  import opened AnswerCaching

  /** `retrievedFrom` is the corpus as it was when the passages were retrieved, `corpusVersion` the version read
      after. */
  datatype Request = Request(question: string, topK: int, docIds: seq<string>, mode: string, model: string,
                             retrievedFrom: string, corpusVersion: string)

  // ----- the key ---------------------------------------------------------------------------------------------

  datatype Payload = Payload(q: string, k: int, docs: seq<string>, model: string, corpus: string)

  function PayloadOf(lower: char -> char, r: Request): Payload {
    Payload(MapChars(lower, Trim(JoinSpace(Words(r.question)))), r.topK, Sort(r.docIds, StringLeq), r.model,
            r.corpusVersion)
  }

  /** The key: a digest of the payload's canonical encoding. */
  function KeyOf(digest: Payload -> Key, lower: char -> char, r: Request): Key {
    digest(PayloadOf(lower, r))
  }

  ghost predicate CollisionFree(digest: Payload -> Key) {
    forall p, q :: digest(p) == digest(q) ==> p == q
  }

  /** Requests share a key exactly when they agree on the case-folded words of the question, on `top_k`, on
      which documents they name (in any order), on the model and on the corpus version. */
  lemma SameKeyIff(digest: Payload -> Key, lower: char -> char, r: Request, s: Request)
    requires CollisionFree(digest) && KeepsSpaces(lower)
    ensures KeyOf(digest, lower, r) == KeyOf(digest, lower, s) <==>
      && MapWords(lower, Words(r.question)) == MapWords(lower, Words(s.question))
      && r.topK == s.topK && multiset(r.docIds) == multiset(s.docIds)
      && r.model == s.model && r.corpusVersion == s.corpusVersion
  {
    QuestionText(lower, r.question);
    QuestionText(lower, s.question);
    StringOrder(r.docIds);
    SortCanonical(r.docIds, s.docIds, StringLeq);
    var p, q := PayloadOf(lower, r), PayloadOf(lower, s);
    if p.q == q.q {
      assert Words(p.q) == Words(q.q);
    }
  }

  lemma QuestionText(lower: char -> char, question: string)
    requires KeepsSpaces(lower)
    ensures MapChars(lower, Trim(JoinSpace(Words(question)))) == JoinSpace(MapWords(lower, Words(question)))
    ensures Words(JoinSpace(MapWords(lower, Words(question)))) == MapWords(lower, Words(question))
  {
    var ws := Words(question);
    WordsAreWords(question);
    TrimJoin(ws);
    MapJoin(lower, ws);
    var folded := MapWords(lower, ws);
    forall i | 0 <= i < |folded| ensures folded[i] != [] && SpaceFree(folded[i]) {
      assert ws[i] != [] && SpaceFree(ws[i]);
    }
    WordsOfJoin(folded);
  }

  // ----- asking ----------------------------------------------------------------------------------------------

  /** What the server's workers do to the cache, one locked call at a time.  A worker looks its request's key up,
      unless told not to, and if that misses generates; when it finishes it stores the answer, unless generation
      failed. */
  datatype Event<+R> =
    | Look(worker: nat, request: R, noCache: bool, now: real)
    | Finish(worker: nat, produced: bool, later: real)

  /** The cache, and the requests that workers are generating answers for. */
  datatype Serving<+R, +V> = Serving(cache: CacheState<V>, busy: map<nat, R>)

  function LookUp<V>(ttl: nat, st: CacheState<V>, key: Key, noCache: bool, now: real): (CacheState<V>, Option<V>) {
    if noCache then (st, None) else GetStep(ttl, st, key, now)
  }

  function Next<R, V>(max: nat, ttl: nat, key: R -> Key, f: R -> V, s: Serving<R, V>, e: Event<R>): Serving<R, V> {
    match e
    case Look(w, r, noCache, now) =>
      var (looked, hit) := LookUp(ttl, s.cache, key(r), noCache, now);
      Serving(looked, if hit.Some? then s.busy - {w} else s.busy[w := r])
    case Finish(w, produced, later) =>
      if w !in s.busy then s
      else
        var r := s.busy[w];
        Serving(if produced then SetStep(max, ttl, s.cache, key(r), f(r), later) else s.cache, s.busy - {w})
  }

  /** The request an event answers, and the answer. */
  function Answered<R, V>(ttl: nat, key: R -> Key, f: R -> V, s: Serving<R, V>, e: Event<R>): Option<(R, V)> {
    match e
    case Look(w, r, noCache, now) =>
      var hit := LookUp(ttl, s.cache, key(r), noCache, now).1;
      if hit.Some? then Some((r, hit.value)) else None
    case Finish(w, produced, later) =>
      if w in s.busy && produced then Some((s.busy[w], f(s.busy[w]))) else None
  }

  function Serve<R, V>(max: nat, ttl: nat, key: R -> Key, f: R -> V, s: Serving<R, V>, es: seq<Event<R>>)
    : Serving<R, V>
  {
    if es == [] then s else Next(max, ttl, key, f, Serve(max, ttl, key, f, s, es[..|es| - 1]), es[|es| - 1])
  }

  function Idle<R, V>(): Serving<R, V> {
    Serving(Empty(), map[])
  }

  /** Whatever went on before and at the same time, an answer is the one its request would get without the cache. */
  ghost predicate AlwaysFresh<R(!new), V(!new)>(max: nat, ttl: nat, key: R -> Key, f: R -> V) {
    forall es: seq<Event<R>>, e: Event<R> :: FreshAt(max, ttl, key, f, es, e)
  }

  ghost predicate FreshAt<R, V>(max: nat, ttl: nat, key: R -> Key, f: R -> V, es: seq<Event<R>>, e: Event<R>) {
    var a := Answered(ttl, key, f, Serve(max, ttl, key, f, Idle(), es), e);
    a.Some? ==> a.value.1 == f(a.value.0)
  }

  /** The answer depends on nothing but what the key captures. */
  ghost predicate Respects<R(!new), V(!new)>(key: R -> Key, f: R -> V) {
    forall r, s :: key(r) == key(s) ==> f(r) == f(s)
  }

  /** Every cached value is the answer of some request with that key. */
  ghost predicate Sound<R(!new), V>(key: R -> Key, f: R -> V, s: Store<V>) {
    forall i :: 0 <= i < |s| ==> exists r :: key(r) == s[i].key && f(r) == s[i].value
  }

  lemma {:induction false} SoundTouch<R(!new), V>(max: nat, key: R -> Key, f: R -> V, s: Store<V>, e: Entry<V>, r: R)
    requires Sound(key, f, s) && key(r) == e.key && f(r) == e.value
    ensures Sound(key, f, Without(s, e.key))
    ensures Sound(key, f, Last(max, Without(s, e.key) + [e]))
  {
    var t := Without(s, e.key);
    forall i | 0 <= i < |t| ensures t[i] in s { WithoutElements(s, e.key, t[i]); }
    assert forall i :: 0 <= i < |t + [e]| ==> (t + [e])[i] in s || (t + [e])[i] == e;
  }

  lemma {:induction false} WithoutShorter<V>(s: Store<V>, key: Key)
    ensures |Without(s, key)| <= |s| && (Lookup(s, key).Some? ==> |Without(s, key)| < |s|)
  {
    if s != [] {
      WithoutShorter(s[1..], key);
    }
  }

  lemma {:induction false} LookSound<R(!new), V>(ttl: nat, key: R -> Key, f: R -> V, st: CacheState<V>, k: Key,
                                                 now: real)
    requires Sound(key, f, st.store)
    ensures Sound(key, f, GetStep(ttl, st, k, now).0.store)
  {
    var found := Lookup(st.store, k);
    if found.Some? {
      var i :| 0 <= i < |st.store| && st.store[i] == found.value;
      var r :| key(r) == st.store[i].key && f(r) == st.store[i].value;
      SoundTouch(|st.store| + 1, key, f, st.store, found.value, r);
      WithoutShorter(st.store, k);
    }
  }

  lemma {:induction false} ServeSound<R(!new), V>(max: nat, ttl: nat, key: R -> Key, f: R -> V, es: seq<Event<R>>)
    ensures Sound(key, f, Serve(max, ttl, key, f, Idle(), es).cache.store)
  {
    if es != [] {
      var before, e := es[..|es| - 1], es[|es| - 1];
      ServeSound(max, ttl, key, f, before);
      var s := Serve(max, ttl, key, f, Idle(), before);
      match e
      case Look(w, r, noCache, now) => LookSound(ttl, key, f, s.cache, key(r), now);
      case Finish(w, produced, later) =>
        if w in s.busy {
          var r := s.busy[w];
          SoundTouch(max, key, f, s.cache.store, Entry(key(r), f(r), Deadline(ttl, later)), r);
        }
    }
  }

  /** If the answer depends on nothing but what the key captures, what a lookup finds is the answer. */
  lemma {:induction false} RespectfulIsFresh<R(!new), V(!new)>(max: nat, ttl: nat, key: R -> Key, f: R -> V,
                                                              es: seq<Event<R>>, e: Event<R>)
    requires 1 <= max && Respects(key, f)
    ensures FreshAt(max, ttl, key, f, es, e)
  {
    ServeSound(max, ttl, key, f, es);
    var store := Serve(max, ttl, key, f, Idle(), es).cache.store;
    if e.Look? && Lookup(store, key(e.request)).Some? {
      var i :| 0 <= i < |store| && store[i] == Lookup(store, key(e.request)).value;
    }
  }

  /** Otherwise asking one request after another with the same key finds the wrong one. */
  lemma {:induction false} FreshIsRespectful<R(!new), V(!new)>(max: nat, ttl: nat, key: R -> Key, f: R -> V, r: R, s: R)
    requires 1 <= max && AlwaysFresh(max, ttl, key, f) && key(r) == key(s)
    ensures f(r) == f(s)
  {
    var ask, again := [Look(0, r, false, 0.0), Finish(0, true, 0.0)], Look(0, s, false, 0.0);
    AskedOnce(max, ttl, key, f, r);
    assert FreshAt(max, ttl, key, f, ask, again);
  }

  /** Asking through the cache always agrees with asking without it exactly when the answer depends on nothing but what
      the key captures: whatever the capacity and the expiry, and however many asks overlap, fail or skip the cache. */
  lemma {:induction false} CachedAgreesIff<R(!new), V(!new)>(max: nat, ttl: nat, key: R -> Key, f: R -> V)
    requires 1 <= max
    ensures AlwaysFresh(max, ttl, key, f) <==> Respects(key, f)
  {
    if AlwaysFresh(max, ttl, key, f) {
      forall r, s | key(r) == key(s) ensures f(r) == f(s) {
        FreshIsRespectful(max, ttl, key, f, r, s);
      }
    }
    if Respects(key, f) {
      forall es: seq<Event<R>>, e: Event<R> ensures FreshAt(max, ttl, key, f, es, e) {
        RespectfulIsFresh(max, ttl, key, f, es, e);
      }
    }
  }

  lemma {:induction false} AskedOnce<R, V>(max: nat, ttl: nat, key: R -> Key, f: R -> V, r: R)
    requires 1 <= max
    ensures var es := [Look(0, r, false, 0.0), Finish(0, true, 0.0)];
      Serve(max, ttl, key, f, Idle(), es).cache.store == [Entry(key(r), f(r), Deadline(ttl, 0.0))]
  {
    var es := [Look(0, r, false, 0.0), Finish(0, true, 0.0)];
    assert es[..1] == [es[0]] && [es[0]][..0] == [];
    assert Serve<R, V>(max, ttl, key, f, Idle(), []) == Idle();
    var looked := Serve<R, V>(max, ttl, key, f, Idle(), es[..1]);
    assert looked == Next(max, ttl, key, f, Idle(), es[0]);
    assert looked.cache.store == [] && looked.busy == map[0 := r];
    assert Serve(max, ttl, key, f, Idle(), es) == Next(max, ttl, key, f, looked, es[1]);
  }

  /** What an ask answers and leaves for the next: an answer that was produced serves every request with its key until
      it expires, and one that was not, or a request that skips the cache, leaves the next to generate for itself. */
  lemma {:induction false} NextAskIsServedIff<R, V>(max: nat, ttl: nat, key: R -> Key, f: R -> V, es: seq<Event<R>>,
                                                    w: nat, produced: bool, later: real, next: Event<R>)
    requires 1 <= max && w in Serve(max, ttl, key, f, Idle(), es).busy
    requires next.Look? && key(next.request) == key(Serve(max, ttl, key, f, Idle(), es).busy[w])
    requires produced || Lookup(Serve(max, ttl, key, f, Idle(), es).cache.store, key(next.request)).None?
    ensures var s := Serve(max, ttl, key, f, Idle(), es);
      var after := Next(max, ttl, key, f, s, Finish(w, produced, later));
      && w !in after.busy
      && Answered(ttl, key, f, s, Finish(w, produced, later))
         == (if produced then Some((s.busy[w], f(s.busy[w]))) else None)
      && Answered(ttl, key, f, after, next)
         == (if produced && !next.noCache && (ttl == 0 || next.now <= later + ttl as real)
             then Some((next.request, f(s.busy[w]))) else None)
      && (Answered(ttl, key, f, after, next).None? ==>
            next.worker in Next(max, ttl, key, f, after, next).busy
            && Next(max, ttl, key, f, after, next).busy[next.worker] == next.request)
      && (next.noCache ==> Next(max, ttl, key, f, after, next).cache == after.cache)
  {
    var s := Serve(max, ttl, key, f, Idle(), es);
    ServeBounded(max, ttl, key, f, es);
    SetStepBounded(max, ttl, s.cache, key(s.busy[w]), f(s.busy[w]), later);
  }

  lemma {:induction false} ServeBounded<R, V>(max: nat, ttl: nat, key: R -> Key, f: R -> V, es: seq<Event<R>>)
    requires 1 <= max
    ensures var store := Serve(max, ttl, key, f, Idle(), es).cache.store; Distinct(store) && |store| <= max
  {
    if es != [] {
      ServeBounded(max, ttl, key, f, es[..|es| - 1]);
      var s := Serve(max, ttl, key, f, Idle(), es[..|es| - 1]);
      match es[|es| - 1]
      case Look(w, r, noCache, now) => GetStepBounded(max, ttl, s.cache, key(r), now);
      case Finish(w, produced, later) =>
        if w in s.busy {
          SetStepBounded(max, ttl, s.cache, key(s.busy[w]), f(s.busy[w]), later);
        }
    }
  }

  /** The retrieval mode shapes the answer but is not in the key: if two modes answer differently, some run of the
      endpoint returns one mode's answer to a request for the other. */
  lemma {:induction false} ModeOutsideKey<V(!new)>(max: nat, ttl: nat, digest: Payload -> Key, lower: char -> char,
                                                   f: Request -> V, r: Request, mode: string)
    requires 1 <= max && f(r) != f(r.(mode := mode))
    ensures !AlwaysFresh(max, ttl, (q: Request) => KeyOf(digest, lower, q), f)
  {
    var key := (q: Request) => KeyOf(digest, lower, q);
    CachedAgreesIff(max, ttl, key, f);
    assert key(r) == key(r.(mode := mode));
  }

  /** The corpus version in the key is read after the passages were retrieved: if a re-ingestion falls in between and
      changes the answer, some run returns the old corpus's answer under the new version. */
  lemma {:induction false} RetrievalOutsideKey<V(!new)>(max: nat, ttl: nat, digest: Payload -> Key, lower: char -> char,
                                                        f: Request -> V, r: Request, corpus: string)
    requires 1 <= max && f(r) != f(r.(retrievedFrom := corpus))
    ensures !AlwaysFresh(max, ttl, (q: Request) => KeyOf(digest, lower, q), f)
  {
    var key := (q: Request) => KeyOf(digest, lower, q);
    CachedAgreesIff(max, ttl, key, f);
    assert key(r) == key(r.(retrievedFrom := corpus));
  }
}
