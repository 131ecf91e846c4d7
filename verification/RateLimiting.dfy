/** The token-bucket limiter (ai/second-brain/app/ratelimit.py), with floats as reals.  The clock is read before
    the lock is taken, so the timestamps of successive calls need not be ordered; each result says whether it
    needs them to be. */
module RateLimiting {
  import opened Common

  type Key = string

  datatype Bucket = Bucket(tokens: real, last: real)

  datatype Config = Config(capacity: real, rate: real)

  datatype Call = Call(cost: real, now: real)

  function Min(a: real, b: real): real {
    if a <= b then a else b
  }

  /** The tokens the clock supplies up to time `t`. */
  function Supply(c: Config, t: real): real {
    c.rate * t
  }

  // ----- specification ---------------------------------------------------------------------------------------

  /** The tokens a bucket holds at `now`: refilled since it was last written, up to the capacity.  A key without
      a bucket has a full one. */
  function Level(c: Config, b: Option<Bucket>, now: real): real {
    match b
    case None => c.capacity
    case Some(b) => Min(c.capacity, b.tokens + Supply(c, now) - Supply(c, b.last))
  }

  predicate Allows(c: Config, b: Option<Bucket>, call: Call) {
    Level(c, b, call.now) >= call.cost
  }

  /** The bucket a call leaves behind. */
  function Spend(c: Config, b: Option<Bucket>, call: Call): Bucket {
    Bucket(Level(c, b, call.now) - if Allows(c, b, call) then call.cost else 0.0, call.now)
  }

  /** The wait a call reports. */
  function RetryAfter(c: Config, b: Option<Bucket>, call: Call): real {
    if Allows(c, b, call) then 0.0
    else if c.rate != 0.0 then (call.cost - Level(c, b, call.now)) / c.rate
    else 60.0
  }

  lemma SupplyOrder(c: Config, x: real, y: real)
    requires 0.0 < c.rate && x <= y
    ensures Supply(c, x) <= Supply(c, y)
  {
  }

  lemma SupplyDifference(c: Config, x: real, y: real)
    ensures (y - x) * c.rate == c.rate * (y - x) == Supply(c, y) - Supply(c, x)
  {
  }

  function Held(buckets: map<Key, Bucket>, key: Key): Option<Bucket> {
    if key in buckets then Some(buckets[key]) else None
  }

  // ----- the class -------------------------------------------------------------------------------------------

  class TokenBucketLimiter {
    const refillPerSec: real
    const capacity: real
    var buckets: map<Key, Bucket>

    constructor (ratePerMinute: int, burst: int)
      ensures refillPerSec == (if ratePerMinute < 1 then 1 else ratePerMinute) as real / 60.0 && refillPerSec > 0.0
      ensures burst == 0 ==> capacity == 60.0 * refillPerSec
      ensures burst != 0 ==> capacity == burst as real
      ensures buckets == map[]
    {
      var perMinute := if ratePerMinute < 1 then 1 else ratePerMinute;
      refillPerSec := perMinute as real / 60.0;
      capacity := if burst != 0 then burst as real else perMinute as real;
      buckets := map[];
    }

    method Allow(key: Key, cost: real, now: real) returns (allowed: bool, retryAfter: real)
      modifies this`buckets
      ensures var c, b, call := Config(capacity, refillPerSec), Held(old(buckets), key), Call(cost, now);
        && allowed == Allows(c, b, call)
        && retryAfter == RetryAfter(c, b, call)
        && buckets == old(buckets)[key := Spend(c, b, call)]
      ensures if allowed then retryAfter == 0.0 else retryAfter > 0.0 || refillPerSec <= 0.0
    {
      var b := if key in buckets then buckets[key] else Bucket(capacity, now);
      var tokens := Min(capacity, b.tokens + (now - b.last) * refillPerSec);
      SupplyDifference(Config(capacity, refillPerSec), b.last, now);
      assert tokens == Level(Config(capacity, refillPerSec), Held(buckets, key), now);
      if tokens >= cost {
        buckets := buckets[key := Bucket(tokens - cost, now)];
        return true, 0.0;
      }
      var deficit := cost - tokens;
      retryAfter := if refillPerSec != 0.0 then deficit / refillPerSec else 60.0;
      buckets := buckets[key := Bucket(tokens, now)];
      allowed := false;
    }

    method Reset(key: Option<Key>)
      modifies this`buckets
      ensures buckets == if key.None? then map[] else old(buckets) - {key.value}
    {
      if key.None? {
        buckets := map[];
      } else {
        buckets := buckets - {key.value};
      }
    }
  }

  // ----- runs ------------------------------------------------------------------------------------------------

  datatype KeyedCall = KeyedCall(key: Key, call: Call)

  function RunAll(c: Config, buckets: map<Key, Bucket>, calls: seq<KeyedCall>): map<Key, Bucket>
    decreases |calls|
  {
    if calls == [] then buckets
    else
      var k := calls[0].key;
      RunAll(c, buckets[k := Spend(c, Held(buckets, k), calls[0].call)], calls[1..])
  }

  function CallsOf(key: Key, calls: seq<KeyedCall>): seq<Call> {
    if calls == [] then []
    else (if calls[0].key == key then [calls[0].call] else []) + CallsOf(key, calls[1..])
  }

  /** The bucket of one key after its own calls. */
  function RunKey(c: Config, b: Option<Bucket>, calls: seq<Call>): Option<Bucket>
    decreases |calls|
  {
    if calls == [] then b else RunKey(c, Some(Spend(c, b, calls[0])), calls[1..])
  }

  /** Calls on other keys change nothing for a key: its bucket, and so its next decision, follow its own calls. */
  lemma {:induction false} KeysAreIndependent(c: Config, buckets: map<Key, Bucket>, calls: seq<KeyedCall>, key: Key)
    ensures Held(RunAll(c, buckets, calls), key) == RunKey(c, Held(buckets, key), CallsOf(key, calls))
    decreases |calls|
  {
    if calls != [] {
      var k := calls[0].key;
      var next := buckets[k := Spend(c, Held(buckets, k), calls[0].call)];
      KeysAreIndependent(c, next, calls[1..], key);
      if k == key {
        assert CallsOf(key, calls)[0] == calls[0].call && CallsOf(key, calls)[1..] == CallsOf(key, calls[1..]);
      } else {
        assert CallsOf(key, calls) == CallsOf(key, calls[1..]);
      }
    }
  }

  // ----- how much can be granted in a window -----------------------------------------------------------------

  function Granted(c: Config, b: Option<Bucket>, call: Call): real {
    if Allows(c, b, call) then call.cost else 0.0
  }

  /** The total cost granted by the calls whose timestamps lie in [s, t]. */
  function GrantedIn(c: Config, b: Option<Bucket>, calls: seq<Call>, s: real, t: real): real
    decreases |calls|
  {
    if calls == [] then 0.0
    else
      (if s <= calls[0].now <= t then Granted(c, b, calls[0]) else 0.0)
      + GrantedIn(c, Some(Spend(c, b, calls[0])), calls[1..], s, t)
  }

  predicate NoRefunds(calls: seq<Call>) {
    forall i :: 0 <= i < |calls| ==> 0.0 <= calls[i].cost
  }

  /** Tokens less what the clock has supplied: no call raises it, and each grant lowers it by its cost. */
  function Potential(c: Config, b: Bucket): real {
    b.tokens - Supply(c, b.last)
  }

  lemma PotentialStep(c: Config, b: Option<Bucket>, call: Call)
    ensures var p := Potential(c, Spend(c, b, call));
      && p <= c.capacity - Supply(c, call.now) - Granted(c, b, call)
      && (b.Some? ==> p <= Potential(c, b.value) - Granted(c, b, call))
      && (Allows(c, b, call) ==> p >= -Supply(c, call.now))
  {
  }

  lemma {:induction false} GrantedByPotential(c: Config, b: Bucket, calls: seq<Call>, s: real, t: real)
    requires 0.0 < c.rate && NoRefunds(calls)
    ensures GrantedIn(c, Some(b), calls, s, t) <= 0.0
         || GrantedIn(c, Some(b), calls, s, t) <= Potential(c, b) + Supply(c, t)
    decreases |calls|
  {
    if calls != [] {
      var call := calls[0];
      var next := Spend(c, Some(b), call);
      PotentialStep(c, Some(b), call);
      GrantedByPotential(c, next, calls[1..], s, t);
      if s <= call.now <= t {
        SupplyOrder(c, call.now, t);
      }
    }
  }

  /** In any window [s, t] a key is granted at most a full bucket plus what refills during the window, from any
      starting bucket and with the timestamps in any order. */
  lemma {:induction false} WindowBound(c: Config, b: Option<Bucket>, calls: seq<Call>, s: real, t: real)
    requires 0.0 < c.rate && 0.0 <= c.capacity && s <= t && NoRefunds(calls)
    ensures GrantedIn(c, b, calls, s, t) <= c.capacity + c.rate * (t - s)
    decreases |calls|
  {
    SupplyDifference(c, s, t);
    SupplyOrder(c, s, t);
    if calls != [] {
      var call := calls[0];
      var next := Spend(c, b, call);
      if s <= call.now <= t {
        PotentialStep(c, b, call);
        SupplyOrder(c, s, call.now);
        SupplyOrder(c, call.now, t);
        GrantedByPotential(c, next, calls[1..], s, t);
        assert GrantedIn(c, b, calls, s, t) == Granted(c, b, call) + GrantedIn(c, Some(next), calls[1..], s, t);
      } else {
        WindowBound(c, Some(next), calls[1..], s, t);
      }
    }
  }

  /** The bound is attained: a full bucket is emptied at the start of a window and what has refilled by its end is
      granted there. */
  lemma WindowBoundAttained(c: Config, s: real, t: real)
    requires 0.0 < c.rate && s <= t && c.rate * (t - s) <= c.capacity
    ensures GrantedIn(c, None, [Call(c.capacity, s), Call(c.rate * (t - s), t)], s, t) == c.capacity + c.rate * (t - s)
  {
    var calls := [Call(c.capacity, s), Call(c.rate * (t - s), t)];
    var b1 := Spend(c, None, calls[0]);
    assert b1 == Bucket(0.0, s);
    SupplyDifference(c, s, t);
    assert calls[1..] == [calls[1]] && calls[1..][1..] == [];
    assert Allows(c, Some(b1), calls[1]);
    assert GrantedIn(c, Some(b1), calls[1..], s, t)
        == calls[1].cost + GrantedIn(c, Some(Spend(c, Some(b1), calls[1])), [], s, t);
  }

  // ----- lazy refill is continuous refill --------------------------------------------------------------------

  /** The calls come in clock order, none before `from`. */
  predicate InOrder(calls: seq<Call>, from: real) {
    calls == [] || (from <= calls[0].now && InOrder(calls[1..], calls[0].now))
  }

  predicate Started(b: Option<Bucket>, from: real) {
    b.Some? ==> b.value.last <= from
  }

  predicate InRange(c: Config, b: Option<Bucket>) {
    b.Some? ==> 0.0 <= b.value.tokens <= c.capacity
  }

  lemma SpendInRange(c: Config, b: Option<Bucket>, call: Call)
    requires 0.0 < c.rate && 0.0 <= c.capacity && 0.0 <= call.cost && Started(b, call.now)
    requires InRange(c, b)
    ensures InRange(c, Some(Spend(c, b, call)))
  {
    if b.Some? {
      SupplyOrder(c, b.value.last, call.now);
    }
  }

  /** With ordered timestamps and no refunds the stored tokens stay between nothing and the capacity. */
  lemma {:induction false} TokensInRange(c: Config, b: Option<Bucket>, calls: seq<Call>, from: real)
    requires 0.0 < c.rate && 0.0 <= c.capacity && NoRefunds(calls) && InOrder(calls, from) && Started(b, from)
    requires InRange(c, b)
    ensures InRange(c, RunKey(c, b, calls))
    decreases |calls|
  {
    if calls != [] {
      var next := Spend(c, b, calls[0]);
      SpendInRange(c, b, calls[0]);
      TokensInRange(c, Some(next), calls[1..], calls[0].now);
    }
  }

  /** The calls of a key carry the first of these timestamps, in lock order. */
  predicate Stamped(calls: seq<Call>, stamps: seq<real>) {
    |calls| <= |stamps| && forall i :: 0 <= i < |calls| ==> calls[i].now == stamps[i]
  }

  predicate NonDecreasing(stamps: seq<real>) {
    forall i :: 0 <= i && i + 1 < |stamps| ==> stamps[i] <= stamps[i + 1]
  }

  /** Whatever non-negative costs are asked at these times, the tokens stored for a new key stay in range. */
  ghost predicate AlwaysInRange(c: Config, stamps: seq<real>) {
    forall calls :: Stamped(calls, stamps) && NoRefunds(calls) ==> InRange(c, RunKey(c, None, calls))
  }

  lemma {:induction false} RunKeySnoc(c: Config, b: Option<Bucket>, calls: seq<Call>, last: Call)
    ensures RunKey(c, b, calls + [last]) == Some(Spend(c, RunKey(c, b, calls), last))
    decreases |calls|
  {
    if calls == [] {
      assert ([] + [last])[1..] == [] && calls + [last] == [last];
    } else {
      assert (calls + [last])[1..] == calls[1..] + [last];
      RunKeySnoc(c, Some(Spend(c, b, calls[0])), calls[1..], last);
    }
  }

  lemma {:induction false} StampedInOrder(calls: seq<Call>, stamps: seq<real>, from: real)
    requires Stamped(calls, stamps) && NonDecreasing(stamps) && (calls != [] ==> from <= calls[0].now)
    ensures InOrder(calls, from)
    decreases |calls|
  {
    if calls != [] {
      StampedInOrder(calls[1..], stamps[1..], calls[0].now);
    }
  }

  function Free(stamps: seq<real>): (calls: seq<Call>)
    ensures |calls| == |stamps| && forall i :: 0 <= i < |calls| ==> calls[i] == Call(0.0, stamps[i])
  {
    seq(|stamps|, i requires 0 <= i < |stamps| => Call(0.0, stamps[i]))
  }

  /** Stored tokens stay in range exactly when the timestamps of the key's calls are in clock order, which reading the
      clock before taking the lock does not ensure: where they step back, the call before can empty the bucket and a
      call for nothing then takes it below zero. */
  lemma {:induction false} AlwaysInRangeIff(c: Config, stamps: seq<real>)
    requires 0.0 < c.rate && 0.0 <= c.capacity
    ensures AlwaysInRange(c, stamps) <==> NonDecreasing(stamps)
  {
    if NonDecreasing(stamps) {
      forall calls: seq<Call> | Stamped(calls, stamps) && NoRefunds(calls) ensures InRange(c, RunKey(c, None, calls)) {
        var from := if calls == [] then 0.0 else calls[0].now;
        StampedInOrder(calls, stamps, from);
        TokensInRange(c, None, calls, from);
      }
    } else {
      var i :| 0 <= i && i + 1 < |stamps| && stamps[i] > stamps[i + 1];
      StepBackLeavesRange(c, stamps, i);
    }
  }

  lemma {:induction false} StepBackLeavesRange(c: Config, stamps: seq<real>, i: nat)
    requires 0.0 < c.rate && 0.0 <= c.capacity && i + 1 < |stamps| && stamps[i] > stamps[i + 1]
    ensures !AlwaysInRange(c, stamps)
  {
    var before := Free(stamps[..i]);
    var b := RunKey(c, None, before);
    var look, all := Call(0.0, stamps[i]), Call(Level(c, b, stamps[i]), stamps[i]);
    RunKeySnoc(c, None, before, look);
    if AlwaysInRange(c, stamps) {
      assert Stamped(before + [look], stamps) && NoRefunds(before + [look]);
      assert InRange(c, RunKey(c, None, before + [look]));
      RunKeySnoc(c, None, before, all);
      RunKeySnoc(c, None, before + [all], Call(0.0, stamps[i + 1]));
      var calls := before + [all] + [Call(0.0, stamps[i + 1])];
      assert Stamped(calls, stamps) && NoRefunds(calls);
      assert Spend(c, b, all) == Bucket(0.0, stamps[i]);
      SupplyDifference(c, stamps[i + 1], stamps[i]);
      SupplyStrict(c, stamps[i + 1], stamps[i]);
      assert !InRange(c, RunKey(c, None, calls));
    }
  }

  lemma {:induction false} SupplyStrict(c: Config, x: real, y: real)
    requires 0.0 < c.rate && x < y
    ensures Supply(c, x) < Supply(c, y)
  {
  }

  /** One such run: a call stamped a minute before its predecessor; the window bound still holds for it. */
  lemma OutOfOrderGoesNegative()
    ensures RunKey(Config(60.0, 1.0), None, [Call(60.0, 60.0), Call(1.0, 0.0)]) == Some(Bucket(-60.0, 0.0))
    ensures !NonDecreasing([60.0, 0.0])
  {
    var c, calls := Config(60.0, 1.0), [Call(60.0, 60.0), Call(1.0, 0.0)];
    assert calls[1..] == [calls[1]] && calls[1..][1..] == [];
    assert Spend(c, None, calls[0]) == Bucket(0.0, 60.0);
    assert Spend(c, Some(Bucket(0.0, 60.0)), calls[1]) == Bucket(-60.0, 0.0);
    assert [60.0, 0.0][0] == 60.0 && [60.0, 0.0][0 + 1] == 0.0;
  }

  /** Writing the refilled level back at any times on the way. */
  function RefillAt(c: Config, b: Bucket, times: seq<real>): Bucket
    decreases |times|
  {
    if times == [] then b else RefillAt(c, Bucket(Level(c, Some(b), times[0]), times[0]), times[1..])
  }

  predicate Ascending(times: seq<real>, from: real, to: real)
    decreases |times|
  {
    if times == [] then from <= to else from <= times[0] && Ascending(times[1..], times[0], to)
  }

  lemma {:induction false} AscendingSpan(times: seq<real>, from: real, to: real)
    requires Ascending(times, from, to)
    ensures from <= to
    decreases |times|
  {
    if times != [] {
      AscendingSpan(times[1..], times[0], to);
    }
  }

  /** Refilling only when called gives the level that refilling at any moments in between, however many, would. */
  lemma {:induction false} LazyRefillIsContinuous(c: Config, b: Bucket, times: seq<real>, now: real)
    requires 0.0 < c.rate && Ascending(times, b.last, now)
    ensures Level(c, Some(RefillAt(c, b, times)), now) == Level(c, Some(b), now)
    decreases |times|
  {
    if times != [] {
      var u := times[0];
      AscendingSpan(times[1..], u, now);
      LazyRefillIsContinuous(c, Bucket(Level(c, Some(b), u), u), times[1..], now);
      SupplyOrder(c, u, now);
    }
  }

  /** Two buckets no later call can tell apart. */
  ghost predicate SameFrom(c: Config, a: Option<Bucket>, b: Option<Bucket>, from: real) {
    forall t :: from <= t ==> Level(c, a, t) == Level(c, b, t)
  }

  /** The calls that were granted. */
  function GrantedCalls(c: Config, b: Option<Bucket>, calls: seq<Call>): seq<Call>
    decreases |calls|
  {
    if calls == [] then []
    else
      (if Allows(c, b, calls[0]) then [calls[0]] else []) + GrantedCalls(c, Some(Spend(c, b, calls[0])), calls[1..])
  }

  function End(calls: seq<Call>, from: real): real {
    if calls == [] then from else calls[|calls| - 1].now
  }

  lemma DeniedLeavesLevel(c: Config, b: Option<Bucket>, call: Call)
    requires 0.0 < c.rate && Started(b, call.now) && !Allows(c, b, call)
    ensures SameFrom(c, Some(Spend(c, b, call)), b, call.now)
  {
    forall t | call.now <= t ensures Level(c, Some(Spend(c, b, call)), t) == Level(c, b, t) {
      if b.Some? {
        LazyRefillIsContinuous(c, b.value, [call.now], t);
        assert [call.now][1..] == [];
        assert RefillAt(c, b.value, [call.now]) == Spend(c, b, call);
      } else {
        SupplyOrder(c, call.now, t);
      }
    }
  }

  /** Erasing every denied call from a run leaves the rest granted and no later decision different. */
  lemma {:induction false} DeniedCallsLeaveNoTrace(c: Config, a: Option<Bucket>, b: Option<Bucket>, calls: seq<Call>,
                                                   from: real)
    requires 0.0 < c.rate && InOrder(calls, from) && Started(a, from) && SameFrom(c, a, b, from)
    ensures var kept := GrantedCalls(c, a, calls);
      && GrantedCalls(c, b, kept) == kept
      && SameFrom(c, RunKey(c, a, calls), RunKey(c, b, kept), End(calls, from))
    decreases |calls|
  {
    if calls != [] {
      var call := calls[0];
      var next := Spend(c, a, call);
      var rest := GrantedCalls(c, Some(next), calls[1..]);
      assert Level(c, a, call.now) == Level(c, b, call.now);
      assert Spend(c, b, call) == next;
      if Allows(c, a, call) {
        DeniedCallsLeaveNoTrace(c, Some(next), Some(next), calls[1..], call.now);
        assert ([call] + rest)[1..] == rest;
      } else {
        DeniedLeavesLevel(c, a, call);
        DeniedCallsLeaveNoTrace(c, Some(next), b, calls[1..], call.now);
        assert [] + rest == rest;
      }
    }
  }

  // ----- the reported wait is exact --------------------------------------------------------------------------

  lemma Divide(x: real, r: real, d: real)
    requires 0.0 < r
    ensures d >= x / r <==> d * r >= x
  {
    assert (x / r) * r == x;
    if d >= x / r {
      assert (d - x / r) * r >= 0.0;
    } else {
      assert (x / r - d) * r > 0.0;
    }
  }

  /** A call is denied with wait r > 0 and, for the next d seconds, the key's other calls are all denied: the same
      call then succeeds exactly when d >= r, provided its cost fits the bucket at all. */
  lemma RetryAfterIsExact(c: Config, b: Option<Bucket>, call: Call, others: seq<Call>, d: real)
    requires 0.0 < c.rate && Started(b, call.now) && !Allows(c, b, call) && 0.0 <= d
    requires var after := Some(Spend(c, b, call));
      GrantedCalls(c, after, others) == [] && InOrder(others, call.now) && End(others, call.now) <= call.now + d
    ensures var r := RetryAfter(c, b, call);
      && r > 0.0
      && (Allows(c, RunKey(c, Some(Spend(c, b, call)), others), Call(call.cost, call.now + d))
          <==> call.cost <= c.capacity && d >= r)
  {
    var next := Spend(c, b, call);
    DeniedCallsLeaveNoTrace(c, Some(next), Some(next), others, call.now);
    assert RunKey(c, Some(next), []) == Some(next);
    WaitFromHere(c, next, call.cost, d);
  }

  /** From a bucket holding less than `cost`, the wait is what the refill needs to make up the shortfall. */
  lemma WaitFromHere(c: Config, b: Bucket, cost: real, d: real)
    requires 0.0 < c.rate && b.tokens < cost && b.tokens <= c.capacity && 0.0 <= d
    ensures Level(c, Some(b), b.last + d) >= cost <==> cost <= c.capacity && d >= (cost - b.tokens) / c.rate
    ensures (cost - b.tokens) / c.rate > 0.0
  {
    Divide(cost - b.tokens, c.rate, d);
    Divide(cost - b.tokens, c.rate, 0.0);
    SupplyDifference(c, b.last, b.last + d);
  }
}
