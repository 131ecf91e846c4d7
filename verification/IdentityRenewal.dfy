/** The agent's certificate: when it is renewed and what is on disk meanwhile
    (backend/cmd/clario-dr-agent/renewal.go, main.go; backend/internal/dr/agent/enroll.go, identity_provider.go).
    Times and durations are whole nanoseconds. */
module IdentityRenewal {
  import opened Common

  // ----- when ------------------------------------------------------------------------------------------------

  const HOUR := 3_600_000_000_000

  /** A zero `notAfter` (None) never needs renewal. */
  predicate NeedsRenewal(now: int, notAfter: Option<int>, before: int) {
    notAfter.Some? && now >= notAfter.value - before
  }

  function Interval(checkInterval: int): (i: int)
    ensures 0 < i
    ensures 0 < checkInterval ==> i == checkInterval
    ensures checkInterval <= 0 ==> i == 60 * 60 * 1_000_000_000
  {
    if checkInterval <= 0 then HOUR else checkInterval
  }

  function NextRenewalDelay(now: int, notAfter: Option<int>, before: int, checkInterval: int): int {
    var interval := Interval(checkInterval);
    if NeedsRenewal(now, notAfter, before) then 0
    else if notAfter.None? then interval
    else
      var delay := notAfter.value - before - now;
      if delay <= 0 then 0 else if delay > interval then interval else delay
  }

  /** The sleep before the next look: none when the window has opened, and otherwise never past its opening nor longer
      than the interval, and one of these two; a certificate without an end is looked at once every interval. */
  lemma {:induction false} SleepIs(now: int, notAfter: int, before: int, checkInterval: int)
    requires 0 < checkInterval
    ensures NextRenewalDelay(now, None, before, checkInterval) == checkInterval
    ensures var delay := NextRenewalDelay(now, Some(notAfter), before, checkInterval);
      && (delay <= 0 <==> notAfter <= now + before)
      && (notAfter <= now + before ==> delay == 0)
      && (now + before < notAfter ==>
            && delay <= checkInterval && now + delay + before <= notAfter
            && (delay == checkInterval || now + delay + before == notAfter))
  {
  }

  /** How many sleeps of at most `interval` cover `distance`. */
  function Sleeps(distance: int, interval: int): nat
    requires 0 < interval
    decreases if distance > 0 then distance else 0
  {
    if distance <= 0 then 0 else 1 + Sleeps(distance - interval, interval)
  }

  /** It is the distance divided by the interval, rounded up. */
  lemma {:induction false} SleepsIsCeiling(distance: int, interval: int)
    requires 0 < interval && 0 < distance
    ensures (Sleeps(distance, interval) - 1) * interval < distance <= Sleeps(distance, interval) * interval
    decreases distance
  {
    var rest := Sleeps(distance - interval, interval);
    assert (rest + 1) * interval == rest * interval + interval;
    if distance > interval {
      SleepsIsCeiling(distance - interval, interval);
      assert rest * interval == (rest - 1) * interval + interval;
    }
  }

  lemma {:induction false} SleepsMonotone(a: int, b: int, interval: int)
    requires 0 < interval && a <= b
    ensures Sleeps(a, interval) <= Sleeps(b, interval)
    decreases if b > 0 then b else 0
  {
    if 0 < a {
      SleepsMonotone(a - interval, b - interval, interval);
    }
  }

  function Later(a: int, b: int): int {
    if a < b then b else a
  }

  /** The renewal loop from a firing of its timer to the next attempt, the k-th timer firing `late(k)` after it is
      due.  No attempt is made before the renewal window opens; the last sleep is overshot by no more than its own
      timer's lateness; and with timers on time the window's start is hit exactly, after as few wake-ups as the
      check interval allows. */
  method WaitForWindow(start: int, notAfter: int, before: int, checkInterval: int, late: nat -> nat)
    returns (now: int, wakes: nat)
    ensures NeedsRenewal(now, Some(notAfter), before)
    ensures start >= notAfter - before ==> now == start && wakes == 0
    ensures start < notAfter - before ==> 0 < wakes && now <= notAfter - before + late(wakes - 1)
    ensures wakes <= Sleeps(notAfter - before - start, Interval(checkInterval))
    ensures (forall k :: late(k) == 0) ==> wakes == Sleeps(notAfter - before - start, Interval(checkInterval))
  {
    var window, interval := notAfter - before, Interval(checkInterval);
    now, wakes := start, 0;
    var delay := NextRenewalDelay(now, Some(notAfter), before, checkInterval);
    while delay > 0
      invariant delay == NextRenewalDelay(now, Some(notAfter), before, checkInterval)
      invariant wakes == 0 ==> now == start
      invariant 0 < wakes ==> start < window && now <= window + late(wakes - 1)
      invariant wakes + Sleeps(window - now, interval) <= Sleeps(window - start, interval)
      invariant (forall k :: late(k) == 0) ==>
        wakes + Sleeps(window - now, interval) == Sleeps(window - start, interval)
      decreases if window > now then window - now else 0
    {
      if delay == interval {
        SleepsMonotone(window - now - interval - late(wakes), window - now - interval, interval);
      }
      now, wakes := now + delay + late(wakes), wakes + 1;
      delay := NextRenewalDelay(now, Some(notAfter), before, checkInterval);
    }
  }

  // ----- what is on disk -------------------------------------------------------------------------------------

  /** An enrolled identity: certificate, private key and CA chain (empty for none). */
  datatype Identity = Identity(cert: string, key: string, ca: string)

  /** The three files, None where there is no file. */
  datatype Disk = Disk(cert: Option<string>, key: Option<string>, ca: Option<string>)

  /** Whether a private key belongs to a certificate. */
  type Pairing = (string, string) -> bool

  datatype Loaded = Absent | Unusable | Found(id: Identity)

  function Load(pairs: Pairing, d: Disk): Loaded {
    if d.cert.None? then Absent
    else if d.key.None? || !pairs(d.cert.value, d.key.value) then Unusable
    else Found(Identity(d.cert.value, d.key.value, if d.ca.Some? then d.ca.value else ""))
  }

  /** What is found on disk: nothing without a certificate; with one, its key must be there and belong to it. */
  lemma {:induction false} LoadIs(pairs: Pairing, d: Disk)
    ensures Load(pairs, d) == Absent <==> d.cert.None?
    ensures Load(pairs, d).Found? <==> d.cert.Some? && d.key.Some? && pairs(d.cert.value, d.key.value)
    ensures Load(pairs, d).Found? ==>
      var id := Load(pairs, d).id;
      && Some(id.cert) == d.cert && Some(id.key) == d.key
      && (d.ca.Some? ==> id.ca == d.ca.value) && (d.ca.None? ==> id.ca == "")
  {
  }

  predicate Complete(id: Identity) {
    id.cert != "" && id.key != ""
  }

  /** The files a save replaces, one after the other: the key, the certificate and, if there is one, the CA. */
  function Writes(id: Identity): nat {
    if id.ca != "" then 3 else 2
  }

  /** The files after the first `n` writes of a save; each one is atomic. */
  function Written(d: Disk, id: Identity, n: nat): Disk {
    var d1 := if 1 <= n then d.(key := Some(id.key)) else d;
    var d2 := if 2 <= n then d1.(cert := Some(id.cert)) else d1;
    if 3 <= n && id.ca != "" then d2.(ca := Some(id.ca)) else d2
  }

  /** A CA file that a save of this identity would leave behind from an earlier one. */
  predicate StaleCa(d: Disk, id: Identity) {
    id.ca == "" && d.ca.Some? && d.ca.value != ""
  }

  /** Loading after a complete save gives the saved identity back exactly when no CA file of an earlier identity is
      left behind. */
  lemma {:induction false} SaveLoadRoundTripIff(pairs: Pairing, d: Disk, id: Identity)
    requires pairs(id.cert, id.key)
    ensures Load(pairs, Written(d, id, Writes(id))) == Found(id) <==> !StaleCa(d, id)
  {
  }

  class IdentityStore {
    var disk: Disk

    /** `writable` is how many of the writes succeed before one fails. */
    method Save(id: Identity, writable: nat) returns (ok: bool)
      modifies this`disk
      ensures ok <==> Complete(id) && Writes(id) <= writable
      ensures disk == if !Complete(id) then old(disk) else Written(old(disk), id, writable)
      ensures id.cert == "" || id.key == "" ==> !ok && disk == old(disk)
      ensures id.cert != "" && id.key != "" ==>
        && (disk.key == if 1 <= writable then Some(id.key) else old(disk).key)
        && (disk.cert == if 2 <= writable then Some(id.cert) else old(disk).cert)
      ensures ok ==> disk.ca == if id.ca != "" then Some(id.ca) else old(disk).ca
    {
      if !Complete(id) || writable == 0 {
        return false;
      }
      disk := disk.(key := Some(id.key));
      if writable == 1 {
        return false;
      }
      disk := disk.(cert := Some(id.cert));
      if id.ca != "" {
        if writable == 2 {
          return false;
        }
        disk := disk.(ca := Some(id.ca));
      }
      ok := true;
    }
  }

  class MutableIdentityProvider {
    var id: Identity

    constructor (initial: Identity)
      ensures id == initial
    {
      id := initial;
    }

    method Update(next: Identity)
      modifies this
      ensures id == next
    {
      id := next;
    }
  }

  // ----- renewing --------------------------------------------------------------------------------------------

  /** What the outside does during one renewal attempt: whether the address, token and CA bundle are there, the
      identity the exchange yields if it succeeds, how many files can be written, and how long it all takes. */
  datatype Attempt = Attempt(configured: bool, enrolled: Option<Identity>, writable: nat, took: nat)

  /** The files and the identity in use. */
  datatype Agent = Agent(disk: Disk, inUse: Identity)

  predicate Publishes(a: Attempt) {
    a.configured && a.enrolled.Some? && Complete(a.enrolled.value) && Writes(a.enrolled.value) <= a.writable
  }

  /** The files once an attempt is over. */
  function DiskAfter(d: Disk, a: Attempt): Disk {
    if a.configured && a.enrolled.Some? && Complete(a.enrolled.value)
    then Written(d, a.enrolled.value, a.writable) else d
  }

  function Renewed(s: Agent, a: Attempt): Agent {
    Agent(DiskAfter(s.disk, a), if Publishes(a) then a.enrolled.value else s.inUse)
  }

  /** `renewIdentityOnce` once the certificate is due.  Whichever step fails, the identity in use stays. */
  method RenewIdentityOnce(store: IdentityStore, provider: MutableIdentityProvider, a: Attempt) returns (renewed: bool)
    modifies store, provider
    ensures renewed <==> Publishes(a)
    ensures provider.id == if Publishes(a) then a.enrolled.value else old(provider.id)
    ensures store.disk == DiskAfter(old(store.disk), a)
    ensures renewed ==>
      && a.configured && a.enrolled == Some(provider.id)
      && store.disk.cert == Some(provider.id.cert) && store.disk.key == Some(provider.id.key)
    ensures !renewed ==> provider.id == old(provider.id)
    ensures !a.configured || a.enrolled.None? ==> store.disk == old(store.disk)
  {
    if !a.configured || a.enrolled.None? {
      return false;
    }
    var next := a.enrolled.value;
    var saved := store.Save(next, a.writable);
    if !saved {
      return false;
    }
    provider.Update(next);
    renewed := true;
  }

  /** Every file of an identity is on disk. */
  predicate Holds(d: Disk, id: Identity) {
    d.cert == Some(id.cert) && d.key == Some(id.key) && (id.ca != "" ==> d.ca == Some(id.ca))
  }

  /** Starting up: `usable` says whether the loaded certificate is unexpired.  What it hands over is on disk. */
  method EnsureEnrolled(pairs: Pairing, store: IdentityStore, usable: bool, a: Attempt) returns (id: Option<Identity>)
    modifies store
    ensures id.Some? ==> Holds(store.disk, id.value)
    ensures usable && Load(pairs, old(store.disk)).Found? ==>
              id == Some(Load(pairs, old(store.disk)).id) && store.disk == old(store.disk)
    ensures !(usable && Load(pairs, old(store.disk)).Found?) ==>
              id == (if Publishes(a) then a.enrolled else None) && store.disk == DiskAfter(old(store.disk), a)
    ensures id.Some? && !(usable && Load(pairs, old(store.disk)).Found?) ==>
      && a.configured && a.enrolled == id
      && store.disk.cert == Some(id.value.cert) && store.disk.key == Some(id.value.key)
  {
    var loaded := Load(pairs, store.disk);
    if loaded.Found? && usable {
      return Some(loaded.id);
    }
    if !a.configured || a.enrolled.None? {
      return None;
    }
    var saved := store.Save(a.enrolled.value, a.writable);
    id := if saved then a.enrolled else None;
  }

  function RenewedAll(s: Agent, attempts: seq<Attempt>): Agent {
    if attempts == [] then s
    else Renewed(RenewedAll(s, attempts[..|attempts| - 1]), attempts[|attempts| - 1])
  }

  /** In every reachable state the identity in use was on disk in full, at the start or by the end of the attempt
      that published it. */
  lemma {:induction false} InUseWasSaved(s: Agent, attempts: seq<Attempt>) returns (i: nat)
    requires Holds(s.disk, s.inUse)
    ensures i <= |attempts|
    ensures Holds(RenewedAll(s, attempts[..i]).disk, RenewedAll(s, attempts).inUse)
    ensures forall j :: i <= j <= |attempts| ==> RenewedAll(s, attempts[..j]).inUse == RenewedAll(s, attempts).inUse
  {
    var n := |attempts|;
    assert attempts[..n] == attempts;
    if n == 0 || Publishes(attempts[n - 1]) {
      return n;
    }
    i := InUseWasSaved(s, attempts[..n - 1]);
    assert forall j :: 0 <= j < n ==> attempts[..n - 1][..j] == attempts[..j];
  }

  // ----- the whole loop --------------------------------------------------------------------------------------

  /** The end of a certificate's validity, None for the zero time. */
  type Expiry = string -> Option<int>

  datatype Config = Config(before: int, checkInterval: int, retryBackoff: int)

  function WindowOf(expiry: Expiry, c: Config, s: Agent): (w: Option<int>) {
    match expiry(s.inUse.cert)
    case None => None
    case Some(notAfter) => Some(notAfter - c.before)
  }

  /** From the start of an attempt to the next firing of the timer, which is set when the attempt is over; one set to a
      negative time fires at once. */
  function Gap(c: Config, a: Attempt): (g: nat)
    ensures a.took <= g
  {
    a.took + Later(0, if Publishes(a) then c.checkInterval else c.retryBackoff)
  }

  function Gaps(c: Config, attempts: seq<Attempt>): (gs: seq<nat>)
    ensures |gs| == |attempts| && forall i :: 0 <= i < |gs| ==> gs[i] == Gap(c, attempts[i])
  {
    seq(|attempts|, i requires 0 <= i < |attempts| => Gap(c, attempts[i]))
  }

  /** Attempt `i` is made at the later of the firing before it and the start of the window of the identity then in
      use. */
  predicate OnSchedule(expiry: Expiry, c: Config, start: int, s: Agent, attempts: seq<Attempt>, times: seq<int>, i: nat)
    requires i < |times| <= |attempts|
  {
    var window := WindowOf(expiry, c, RenewedAll(s, attempts[..i]));
    var firing := if i == 0 then start else times[i - 1] + Gap(c, attempts[i - 1]);
    window.Some? && times[i] == Later(firing, window.value)
  }

  ghost predicate Scheduled(expiry: Expiry, c: Config, start: int, s: Agent, attempts: seq<Attempt>, times: seq<int>) {
    |times| == |attempts| && forall i :: 0 <= i < |times| ==> OnSchedule(expiry, c, start, s, attempts, times, i)
  }

  /** The starts of the renewal windows of the certificates in use before each attempt. */
  function Windows(expiry: Expiry, c: Config, s: Agent, attempts: seq<Attempt>): (ws: seq<int>)
    ensures |ws| == |attempts|
  {
    if attempts == [] then []
    else
      var before := attempts[..|attempts| - 1];
      var w := WindowOf(expiry, c, RenewedAll(s, before));
      Windows(expiry, c, s, before) + [if w.Some? then w.value else 0]
  }

  lemma {:induction false} WindowsAt(expiry: Expiry, c: Config, s: Agent, attempts: seq<Attempt>, i: nat)
    requires i < |attempts| && WindowOf(expiry, c, RenewedAll(s, attempts[..i])).Some?
    ensures Windows(expiry, c, s, attempts)[i] == WindowOf(expiry, c, RenewedAll(s, attempts[..i])).value
  {
    var n := |attempts| - 1;
    if i < n {
      assert attempts[..n][..i] == attempts[..i];
      WindowsAt(expiry, c, s, attempts[..n], i);
    }
  }

  /** Window `i` does not open before the timer fires. */
  predicate Opens(start: int, gaps: seq<nat>, windows: seq<int>, i: nat)
    requires i < |gaps| == |windows|
  {
    windows[i] >= if i == 0 then start else windows[i - 1] + gaps[i - 1]
  }

  /** Attempt `i` is made at the later of its window and the firing after the attempt before. */
  predicate MadeAt(start: int, gaps: seq<nat>, times: seq<int>, windows: seq<int>, i: nat)
    requires i < |gaps| == |times| == |windows|
  {
    times[i] == Later(if i == 0 then start else times[i - 1] + gaps[i - 1], windows[i])
  }

  lemma {:induction false} ScheduleIs(expiry: Expiry, c: Config, start: int, s: Agent, attempts: seq<Attempt>,
                                      times: seq<int>)
    requires Scheduled(expiry, c, start, s, attempts, times)
    ensures forall i :: 0 <= i < |times| ==>
      MadeAt(start, Gaps(c, attempts), times, Windows(expiry, c, s, attempts), i)
  {
    forall i | 0 <= i < |times| ensures MadeAt(start, Gaps(c, attempts), times, Windows(expiry, c, s, attempts), i) {
      assert OnSchedule(expiry, c, start, s, attempts, times, i);
      WindowsAt(expiry, c, s, attempts, i);
    }
  }

  /** The sleep after an attempt ignores the window of the certificate then in use, so the attempts of a run are all
      made when their windows open exactly when each window opens no earlier than an exchange and a sleep after the one
      before. */
  lemma {:induction false} AlwaysOnTimeIff(expiry: Expiry, c: Config, start: int, s: Agent, attempts: seq<Attempt>,
                                           times: seq<int>)
    requires Scheduled(expiry, c, start, s, attempts, times)
    ensures times == Windows(expiry, c, s, attempts) <==>
      forall i :: 0 <= i < |attempts| ==> Opens(start, Gaps(c, attempts), Windows(expiry, c, s, attempts), i)
  {
    var gaps, windows := Gaps(c, attempts), Windows(expiry, c, s, attempts);
    ScheduleIs(expiry, c, start, s, attempts, times);
    if times == windows {
      forall i | 0 <= i < |times| ensures Opens(start, gaps, windows, i) {
        assert MadeAt(start, gaps, times, windows, i);
      }
    }
    if forall i :: 0 <= i < |times| ==> Opens(start, gaps, windows, i) {
      for i := 0 to |times|
        invariant forall j :: 0 <= j < i ==> times[j] == windows[j]
      {
        assert MadeAt(start, gaps, times, windows, i) && Opens(start, gaps, windows, i);
      }
    }
  }

  /** From attempt `k` to attempt `i` when the timer alone decides. */
  function Total(gaps: seq<nat>, k: nat, i: nat): nat
    requires k <= i <= |gaps|
  {
    if k == i then 0 else Total(gaps, k, i - 1) + gaps[i - 1]
  }

  /** The earliest that attempt `k` can be made. */
  function Ready(start: int, windows: seq<int>, k: nat): int
    requires k < |windows|
  {
    if k == 0 then Later(start, windows[0]) else windows[k]
  }

  predicate By(start: int, gaps: seq<nat>, windows: seq<int>, k: nat, i: nat, end: int)
    requires k <= i < |windows| == |gaps|
  {
    Ready(start, windows, k) + Total(gaps, k, i) <= end
  }

  /** No window up to attempt `i`, and gaps from there on, delay it beyond `end`. */
  ghost predicate AllBy(start: int, gaps: seq<nat>, windows: seq<int>, i: nat, end: int)
    requires i < |windows| == |gaps|
  {
    forall k: nat :: k <= i ==> By(start, gaps, windows, k, i, end)
  }

  lemma {:induction false} AllByNext(start: int, gaps: seq<nat>, windows: seq<int>, i: nat, end: int)
    requires i + 1 < |windows| == |gaps|
    ensures AllBy(start, gaps, windows, i + 1, end)
      <==> AllBy(start, gaps, windows, i, end - gaps[i]) && windows[i + 1] <= end
  {
    var j, earlier := i + 1, end - gaps[i];
    assert By(start, gaps, windows, j, j, end) <==> windows[j] <= end;
    if AllBy(start, gaps, windows, j, end) {
      forall k: nat | k <= i ensures By(start, gaps, windows, k, i, earlier) {
        assert By(start, gaps, windows, k, j, end);
      }
    }
    if AllBy(start, gaps, windows, i, earlier) && windows[j] <= end {
      forall k: nat | k <= j ensures By(start, gaps, windows, k, j, end) {
        assert k <= i ==> By(start, gaps, windows, k, i, earlier);
      }
    }
  }

  /** That is when an attempt is made by then. */
  lemma {:induction false} MadeByIff(start: int, gaps: seq<nat>, times: seq<int>, windows: seq<int>, i: nat, end: int)
    requires |gaps| == |times| == |windows| && i < |times|
    requires forall j :: 0 <= j < |times| ==> MadeAt(start, gaps, times, windows, j)
    ensures times[i] <= end <==> AllBy(start, gaps, windows, i, end)
  {
    assert MadeAt(start, gaps, times, windows, i);
    if i == 0 {
      assert By(start, gaps, windows, 0, 0, end) <==> times[0] <= end;
    } else {
      MadeByIff(start, gaps, times, windows, i - 1, end - gaps[i - 1]);
      AllByNext(start, gaps, windows, i - 1, end);
    }
  }

  /** Attempt `i`, if it renews the identity, is over by the end of the one it replaces. */
  predicate InTime(expiry: Expiry, s: Agent, attempts: seq<Attempt>, times: seq<int>, i: nat)
    requires i < |times| == |attempts|
  {
    var notAfter := expiry(RenewedAll(s, attempts[..i]).inUse.cert);
    Publishes(attempts[i]) && notAfter.Some? ==> times[i] + attempts[i].took <= notAfter.value
  }

  /** From every window up to its own the exchanges and sleeps in between leave attempt `i` the time it takes. */
  ghost predicate HasRoom(c: Config, start: int, attempts: seq<Attempt>, windows: seq<int>, i: nat)
    requires i < |windows| == |attempts|
  {
    AllBy(start, Gaps(c, attempts), windows, i, windows[i] + c.before - attempts[i].took)
  }

  /** No identity expires before the renewal that replaces it is over exactly when, for every renewal, from each window
      up to its own the exchanges and sleeps in between and its own exchange add up to no more than the time from there
      to the end of the identity it replaces.  Neither the retries nor the sleep after a renewal look at that end. */
  lemma {:induction false} NeverExpiredIff(expiry: Expiry, c: Config, start: int, s: Agent, attempts: seq<Attempt>,
                                           times: seq<int>)
    requires Scheduled(expiry, c, start, s, attempts, times)
    ensures (forall i :: 0 <= i < |attempts| ==> InTime(expiry, s, attempts, times, i)) <==>
      forall i :: 0 <= i < |attempts| && Publishes(attempts[i]) ==>
        HasRoom(c, start, attempts, Windows(expiry, c, s, attempts), i)
  {
    var windows := Windows(expiry, c, s, attempts);
    ScheduleIs(expiry, c, start, s, attempts, times);
    forall i | 0 <= i < |attempts|
      ensures InTime(expiry, s, attempts, times, i) <==>
        (Publishes(attempts[i]) ==> HasRoom(c, start, attempts, windows, i))
    {
      assert OnSchedule(expiry, c, start, s, attempts, times, i);
      WindowsAt(expiry, c, s, attempts, i);
      MadeByIff(start, Gaps(c, attempts), times, windows, i, windows[i] + c.before - attempts[i].took);
    }
  }

  /** So a certificate valid for less than the check interval expires before the loop looks at it again. */
  lemma {:induction false} ShortLivedExpires(expiry: Expiry, c: Config, start: int, s: Agent, attempts: seq<Attempt>,
                                             times: seq<int>, i: nat, notAfter: int)
    requires Scheduled(expiry, c, start, s, attempts, times)
    requires i + 1 < |attempts| && Publishes(attempts[i]) && Publishes(attempts[i + 1])
    requires expiry(attempts[i].enrolled.value.cert) == Some(notAfter)
    requires notAfter < Windows(expiry, c, s, attempts)[i] + c.checkInterval
    ensures !InTime(expiry, s, attempts, times, i + 1)
  {
    var gaps, windows := Gaps(c, attempts), Windows(expiry, c, s, attempts);
    assert attempts[..i + 1][..i] == attempts[..i];
    assert OnSchedule(expiry, c, start, s, attempts, times, i + 1);
    ScheduleIs(expiry, c, start, s, attempts, times);
    assert MadeAt(start, gaps, times, windows, i) && MadeAt(start, gaps, times, windows, i + 1);
  }

  function OnTime(k: nat): nat {
    0
  }

  /** The loop with timers on time, through as many attempts as it makes.  `times` are when they start. */
  method RenewalLoop(store: IdentityStore, provider: MutableIdentityProvider, expiry: Expiry, c: Config, start: int,
                     attempts: seq<Attempt>)
    returns (times: seq<int>)
    modifies store, provider
    ensures |times| <= |attempts|
    ensures Agent(store.disk, provider.id) == RenewedAll(old(Agent(store.disk, provider.id)), attempts[..|times|])
    ensures |times| < |attempts| ==> expiry(provider.id.cert).None?
    ensures forall i :: 0 <= i < |times| ==>
      OnSchedule(expiry, c, start, old(Agent(store.disk, provider.id)), attempts, times, i)
  {
    ghost var s0 := Agent(store.disk, provider.id);
    times := [];
    var now := start;
    while |times| < |attempts|
      invariant |times| <= |attempts|
      invariant Agent(store.disk, provider.id) == RenewedAll(s0, attempts[..|times|])
      invariant now == if times == [] then start else times[|times| - 1] + Gap(c, attempts[|times| - 1])
      invariant forall i :: 0 <= i < |times| ==> OnSchedule(expiry, c, start, s0, attempts, times, i)
    {
      if expiry(provider.id.cert).None? {
        return;
      }
      ghost var due, window := now, WindowOf(expiry, c, RenewedAll(s0, attempts[..|times|])).value;
      var wakes;
      now, wakes := WaitForWindow(now, expiry(provider.id.cert).value, c.before, c.checkInterval, OnTime);
      assert now == Later(due, window);
      var a := attempts[|times|];
      assert attempts[..|times| + 1][..|times|] == attempts[..|times|];
      var renewed := RenewIdentityOnce(store, provider, a);
      ghost var earlier := times;
      times := times + [now];
      assert forall i :: 0 <= i < |earlier| && OnSchedule(expiry, c, start, s0, attempts, earlier, i) ==>
        OnSchedule(expiry, c, start, s0, attempts, times, i);
      assert OnSchedule(expiry, c, start, s0, attempts, times, |earlier|);
      now := now + a.took;
      now := now + Later(0, if renewed then c.checkInterval else c.retryBackoff);
    }
  }

  // ----- restarting ------------------------------------------------------------------------------------------

  /** Every certificate has one key and every key one certificate. */
  ghost predicate OneToOne(pairs: Pairing) {
    && (forall c, j, k :: pairs(c, j) && pairs(c, k) ==> j == k)
    && (forall b, c, k :: pairs(b, k) && pairs(c, k) ==> b == c)
  }

  /** After an attempt a restart finds the identity in use exactly when the attempt wrote nothing, or wrote
      everything and left no stale CA file behind.  A save that fails between its writes leaves files that do not
      load as the identity in use, although that one is still valid. */
  lemma {:induction false} RestartFindsInUseIff(pairs: Pairing, s: Agent, a: Attempt)
    requires OneToOne(pairs) && Load(pairs, s.disk) == Found(s.inUse)
    requires a.configured && a.enrolled.Some? && Complete(a.enrolled.value)
    requires pairs(a.enrolled.value.cert, a.enrolled.value.key) && a.enrolled.value.cert != s.inUse.cert
    ensures Load(pairs, Renewed(s, a).disk) == Found(Renewed(s, a).inUse)
      <==> a.writable == 0 || (Writes(a.enrolled.value) <= a.writable && !StaleCa(s.disk, a.enrolled.value))
  {
  }

  /** Writing the key but not the certificate leaves a pair that does not load at all. */
  lemma {:induction false} HalfSavedIsUnusable(pairs: Pairing, s: Agent, a: Attempt)
    requires OneToOne(pairs) && Load(pairs, s.disk) == Found(s.inUse)
    requires a.configured && a.enrolled.Some? && Complete(a.enrolled.value) && a.writable == 1
    requires pairs(a.enrolled.value.cert, a.enrolled.value.key) && a.enrolled.value.cert != s.inUse.cert
    ensures Load(pairs, Renewed(s, a).disk).Unusable? && Renewed(s, a).inUse == s.inUse
  {
  }

  /** An attempt that cannot hurt what is on disk. */
  predicate Clean(pairs: Pairing, s: Agent, a: Attempt) {
    a.configured && a.enrolled.Some? && Complete(a.enrolled.value) ==>
      a.writable == 0 ||
      (pairs(a.enrolled.value.cert, a.enrolled.value.key) && Writes(a.enrolled.value) <= a.writable &&
       !StaleCa(s.disk, a.enrolled.value))
  }

  lemma {:induction false} CleanStaysLoadable(pairs: Pairing, s: Agent, a: Attempt)
    requires Load(pairs, s.disk) == Found(s.inUse) && Clean(pairs, s, a)
    ensures Load(pairs, Renewed(s, a).disk) == Found(Renewed(s, a).inUse)
  {
  }

  /** Over any run of such attempts a restart always finds the identity in use. */
  lemma {:induction false} CleanRunsStayLoadable(pairs: Pairing, s: Agent, attempts: seq<Attempt>)
    requires Load(pairs, s.disk) == Found(s.inUse)
    requires forall i :: 0 <= i < |attempts| ==> Clean(pairs, RenewedAll(s, attempts[..i]), attempts[i])
    ensures Load(pairs, RenewedAll(s, attempts).disk) == Found(RenewedAll(s, attempts).inUse)
  {
    if attempts != [] {
      var n := |attempts| - 1;
      var rest := attempts[..n];
      forall i | 0 <= i < n ensures Clean(pairs, RenewedAll(s, rest[..i]), rest[i]) {
        assert rest[..i] == attempts[..i];
      }
      CleanRunsStayLoadable(pairs, s, rest);
      CleanStaysLoadable(pairs, RenewedAll(s, attempts[..n]), attempts[n]);
    }
  }

  /** Whatever is left on disk, one complete save without a stale CA file repairs it. */
  lemma {:induction false} CompleteSaveRepairs(pairs: Pairing, s: Agent, a: Attempt)
    requires Publishes(a) && pairs(a.enrolled.value.cert, a.enrolled.value.key) && !StaleCa(s.disk, a.enrolled.value)
    ensures Load(pairs, Renewed(s, a).disk) == Found(Renewed(s, a).inUse)
  {
  }
}
