/** Which data-encryption-key buffers may be zeroed (backend/cmd/clario-dr-service/sovereign_byok_dek.go). */
module DekCustody {
  import opened Common

  // ----- the provider ----------------------------------------------------------------------------------------

  newtype byte = x: int | 0 <= x < 256

  datatype Dek = Dek(buffer: array<byte>, version: int)

  /** What wrapping and then unwrapping under the tenant's key-encryption key comes to. */
  datatype Wrap = NotEnrolled | WrapFails | NoRecord | Wrapped(version: int)

  /** The disposable buffers are keyed by address and length, which for live buffers means by identity. */
  class SovereignDekProvider {
    var attached: bool
    var disposable: set<array<byte>>
    ghost var unwrapped: set<array<byte>>
    ghost var released: set<array<byte>>

    /** The tracked buffers are exactly the non-empty ones that custody handed out and nobody has released. */
    ghost predicate Valid()
      reads this
    {
      && released <= unwrapped
      && disposable == set b | b in unwrapped - released && b.Length > 0
    }

    constructor ()
      ensures Valid() && !attached && unwrapped == {} && released == {}
    {
      attached, disposable, unwrapped, released := false, {}, {}, {};
    }

    method AttachByok()
      requires Valid()
      modifies this`attached
      ensures Valid() && attached
    {
      attached := true;
    }

    /** `raw` is what the raw manager would return from its cache, `custody` what the gate would unwrap: a buffer of
        its own each time. */
    method Get(raw: Option<Dek>, wrap: Wrap, custody: Option<array<byte>>) returns (r: Option<Dek>)
      requires Valid()
      requires custody.Some? ==> custody.value !in unwrapped
      modifies this`disposable, this`unwrapped
      ensures Valid()
      ensures !attached || wrap.NotEnrolled? ==> r == raw && unwrapped == old(unwrapped)
      ensures attached && !wrap.NotEnrolled? ==>
                r == (if wrap.Wrapped? && custody.Some? then Some(Dek(custody.value, wrap.version)) else None)
      ensures attached && !wrap.NotEnrolled? ==>
                unwrapped == old(unwrapped) + (if r.Some? then {r.value.buffer} else {})
    {
      if !attached || wrap.NotEnrolled? {
        return raw;
      }
      if !wrap.Wrapped? || custody.None? {
        return None;
      }
      TrackDisposable(custody.value);
      r := Some(Dek(custody.value, wrap.version));
    }

    method TrackDisposable(dek: array<byte>)
      requires Valid() && dek !in unwrapped
      modifies this`disposable, this`unwrapped
      ensures Valid() && unwrapped == old(unwrapped) + {dek}
    {
      unwrapped := unwrapped + {dek};
      if dek.Length == 0 {
        return;
      }
      disposable := disposable + {dek};
    }

    /** Zeroes an unwrapped buffer at its first release and touches no other buffer, least of all a raw one. */
    method ReleaseDek(dek: array<byte>)
      requires Valid()
      modifies this`disposable, this`released, dek
      ensures Valid() && released == old(released) + {dek} * unwrapped
      ensures dek in unwrapped && dek !in old(released) ==> forall i :: 0 <= i < dek.Length ==> dek[i] == 0
      ensures dek !in unwrapped || dek in old(released) ==> dek[..] == old(dek[..])
    {
      released := released + {dek} * unwrapped;
      if dek.Length == 0 {
        return;
      }
      var ok := dek in disposable;
      disposable := disposable - {dek};
      if ok {
        for i := 0 to dek.Length
          invariant forall k :: 0 <= k < i ==> dek[k] == 0
          modifies dek
        {
          dek[i] := 0;
        }
      }
    }
  }

  // ----- every interleaving, with a garbage collector --------------------------------------------------------

  type Address = int

  /** An address and a length, as the tracked set writes them down.  It does not keep the buffer alive. */
  datatype Key = Key(at: Address, len: nat)

  /** A live buffer: whether custody unwrapped it, whether it was ever released, and how often it was zeroed. */
  datatype Buffer = Buffer(custody: bool, len: nat, released: bool, wipes: nat)

  /** Live buffers, tracked keys, and the buffers that a release has taken off the set but not zeroed yet. */
  datatype State = State(heap: map<Address, Buffer>, tracked: set<Key>, wiping: set<Address>)

  /** What any number of callers do at lock granularity; a step that cannot happen leaves the state alone. */
  datatype Step =
    | GetRaw(at: Address, len: nat)      // the raw manager fills a cache entry
    | GetCustody(at: Address, len: nat)
    | Release(at: Address)               // looks the key up and deletes it, under the lock
    | Wipe(at: Address)                  // zeroes the buffer, after the lock
    | Collect(at: Address)               // nobody holds the buffer any more

  function KeyOf(s: State, at: Address): Key
    requires at in s.heap
  {
    Key(at, s.heap[at].len)
  }

  function Next(s: State, step: Step): State {
    match step
    case GetRaw(at, len) =>
      if at in s.heap then s else s.(heap := s.heap[at := Buffer(false, len, false, 0)])
    case GetCustody(at, len) =>
      if at in s.heap then s
      else s.(heap := s.heap[at := Buffer(true, len, false, 0)],
              tracked := s.tracked + if len == 0 then {} else {Key(at, len)})
    case Release(at) =>
      if at !in s.heap then s
      else
        var found := s.heap[at].len > 0 && KeyOf(s, at) in s.tracked;
        State(s.heap[at := s.heap[at].(released := true)], s.tracked - (if found then {KeyOf(s, at)} else {}),
              s.wiping + if found then {at} else {})
    case Wipe(at) =>
      if at !in s.heap || at !in s.wiping then s
      else s.(heap := s.heap[at := s.heap[at].(wipes := s.heap[at].wipes + 1)], wiping := s.wiping - {at})
    case Collect(at) =>
      if at in s.wiping then s else s.(heap := s.heap - {at})
  }

  function Run(s: State, steps: seq<Step>): State {
    if steps == [] then s else Next(Run(s, steps[..|steps| - 1]), steps[|steps| - 1])
  }

  /** A custody buffer that still has to be released. */
  predicate Outstanding(s: State, at: Address) {
    at in s.heap && s.heap[at].custody && s.heap[at].len > 0 && !s.heap[at].released
  }

  /** A non-empty custody buffer is zeroed once, or about to be, exactly if it was released; no other buffer is. */
  predicate WipedAtRelease(s: State, at: Address)
    requires at in s.heap
  {
    var b := s.heap[at];
    b.wipes + (if at in s.wiping then 1 else 0) == if b.custody && b.len > 0 && b.released then 1 else 0
  }

  /** The tracked set is exactly the outstanding buffers' keys, and every live buffer was zeroed as it should be. */
  ghost predicate Owned(s: State) {
    && (forall at <- s.heap :: WipedAtRelease(s, at))
    && (forall at <- s.heap :: Outstanding(s, at) <==> KeyOf(s, at) in s.tracked)
    && (forall k <- s.tracked :: k.at in s.heap && k == KeyOf(s, k.at))
    && (forall at <- s.wiping :: at in s.heap)
  }

  predicate Leaks(s: State, step: Step) {
    step.Collect? && Outstanding(s, step.at)
  }

  lemma {:induction false} StepKeepsOwned(s: State, step: Step)
    requires Owned(s) && !Leaks(s, step)
    ensures Owned(Next(s, step))
  {
    var t := Next(s, step);
    forall at | at in t.heap
      ensures WipedAtRelease(t, at) && (Outstanding(t, at) <==> KeyOf(t, at) in t.tracked)
    {
      if at in s.heap {
        assert WipedAtRelease(s, at) && (Outstanding(s, at) <==> KeyOf(s, at) in s.tracked);
      } else {
        assert at !in s.wiping && forall len :: Key(at, len) !in s.tracked;
      }
    }
  }

  /** So it stays over every run in which each custody buffer is released before it is collected. */
  lemma {:induction false} OwnershipIsKept(s: State, steps: seq<Step>)
    requires Owned(s)
    requires forall i :: 0 <= i < |steps| ==> !Leaks(Run(s, steps[..i]), steps[i])
    ensures Owned(Run(s, steps))
  {
    if steps != [] {
      var n := |steps| - 1;
      assert forall i :: 0 <= i < n ==> steps[..n][..i] == steps[..i];
      OwnershipIsKept(s, steps[..n]);
      StepKeepsOwned(Run(s, steps[..n]), steps[n]);
    }
  }

  // ----- when a cache buffer can be zeroed -------------------------------------------------------------------

  /** A tracked key whose address is free again, or already belongs to a raw buffer of the same length. */
  predicate Stale(s: State, k: Key) {
    k in s.tracked && k.len > 0 && (k.at !in s.heap || (!s.heap[k.at].custody && s.heap[k.at].len == k.len))
  }

  /** No raw buffer has been zeroed or is about to be. */
  ghost predicate RawIntact(s: State) {
    forall at <- s.heap :: !s.heap[at].custody ==> s.heap[at].wipes == 0 && at !in s.wiping
  }

  predicate Collectless(steps: seq<Step>) {
    forall i :: 0 <= i < |steps| ==> !steps[i].Collect?
  }

  lemma {:induction false} NoStaleKeysStay(s: State, steps: seq<Step>)
    requires RawIntact(s) && (forall k :: !Stale(s, k)) && (forall at <- s.wiping :: at in s.heap) && Collectless(steps)
    ensures RawIntact(Run(s, steps)) && (forall k :: !Stale(Run(s, steps), k))
    ensures forall at <- Run(s, steps).wiping :: at in Run(s, steps).heap
  {
    if steps != [] {
      var n := |steps| - 1;
      NoStaleKeysStay(s, steps[..n]);
      var u, t := Run(s, steps[..n]), Run(s, steps);
      forall k ensures !Stale(t, k) {
        assert !Stale(u, k);
      }
      if steps[n].Release? && steps[n].at in u.heap {
        assert !Stale(u, KeyOf(u, steps[n].at));
      }
    }
  }

  /** Without further collections no run can zero a buffer of the raw cache exactly when no tracked key is stale. */
  lemma {:induction false} RawStaysIntactIff(s: State)
    requires RawIntact(s) && forall at <- s.wiping :: at in s.heap
    ensures (forall steps :: Collectless(steps) ==> RawIntact(Run(s, steps))) <==> (forall k :: !Stale(s, k))
  {
    if forall k :: !Stale(s, k) {
      forall steps | Collectless(steps) ensures RawIntact(Run(s, steps)) {
        NoStaleKeysStay(s, steps);
      }
    } else {
      var k :| Stale(s, k);
      var steps := [GetRaw(k.at, k.len), Release(k.at)];
      var first := steps[..1];
      assert first[..0] == [] && Run(s, []) == s;
      var t := Run(s, first);
      assert t == Next(s, GetRaw(k.at, k.len)) && !t.heap[k.at].custody && KeyOf(t, k.at) == k;
      assert k.at in Run(s, steps).wiping && Collectless(steps);
    }
  }

  /** And a key goes stale when an outstanding custody buffer is collected, since tracking does not keep it alive. */
  lemma {:induction false} LeakLeavesStaleKey(s: State, step: Step)
    requires Owned(s) && step.Collect?
    ensures (exists k :: Stale(Next(s, step), k)) <==> Leaks(s, step)
  {
    if Leaks(s, step) {
      assert WipedAtRelease(s, step.at);
      assert Stale(Next(s, step), KeyOf(s, step.at));
    } else {
      StepKeepsOwned(s, step);
      var t := Next(s, step);
      forall k ensures !Stale(t, k) {
        if k in t.tracked {
          assert k == KeyOf(t, k.at) && Outstanding(t, k.at);
        }
      }
    }
  }
}
