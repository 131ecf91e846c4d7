/** Loops that run only while leading (backend/cmd/clario-dr-service/intelligence.go) and the Redis election that
    tells them so (backend/internal/leadership/redis.go). */
module LeaderSingleton {

  // ----- one instance ----------------------------------------------------------------------------------------

  class LeaderContext {
    var cancelled: bool

    constructor ()
      ensures !cancelled
    {
      cancelled := false;
    }

    method Cancel()
      modifies this
      ensures cancelled
    {
      cancelled := true;
    }
  }

  datatype Callback = Acquired | Lost

  class Singleton {
    var stopLeader: LeaderContext?
    ghost var contexts: set<LeaderContext>

    /** Of all contexts ever started, the one that `stopLeader` cancels is the one that is not cancelled. */
    ghost predicate Valid()
      reads this, contexts
    {
      && (stopLeader != null ==> stopLeader in contexts)
      && forall c <- contexts :: !c.cancelled <==> c == stopLeader
    }

    constructor ()
      ensures Valid() && stopLeader == null && contexts == {}
    {
      stopLeader, contexts := null, {};
    }

    /** Starts a context; the one before it, if it was still running, ends. */
    method OnAcquire() returns (leader: LeaderContext)
      requires Valid()
      modifies this, contexts
      ensures Valid() && fresh(leader) && stopLeader == leader && contexts == old(contexts) + {leader}
    {
      if stopLeader != null {
        stopLeader.Cancel();
      }
      leader := new LeaderContext();
      stopLeader := leader;
      contexts := contexts + {leader};
    }

    /** What losing leadership and the end of the election's run both do: no context survives it. */
    method Stop()
      requires Valid()
      modifies this, contexts
      ensures Valid() && stopLeader == null && contexts == old(contexts)
      ensures forall c <- contexts :: c.cancelled
    {
      if stopLeader != null {
        stopLeader.Cancel();
        stopLeader := null;
      }
    }

    /** One run of the election, its callbacks in any order: at no point is more than one context live, and at the
        end none is. */
    method RunElection(callbacks: seq<Callback>) returns (started: seq<LeaderContext>)
      requires Valid() && contexts == {}
      modifies this
      ensures Valid() && stopLeader == null && contexts == set c | c in started
      ensures |started| == |Acquisitions(callbacks)|
      ensures forall c <- started :: c.cancelled
    {
      started := [];
      for i := 0 to |callbacks|
        invariant Valid() && fresh(contexts) && contexts == set c | c in started
        invariant |started| == |Acquisitions(callbacks[..i])|
      {
        assert callbacks[..i + 1][..i] == callbacks[..i];
        if callbacks[i] == Acquired {
          var leader := OnAcquire();
          started := started + [leader];
        } else {
          Stop();
        }
      }
      assert callbacks[..|callbacks|] == callbacks;
      Stop();
    }
  }

  function Acquisitions(callbacks: seq<Callback>): seq<Callback> {
    if callbacks == [] then []
    else Acquisitions(callbacks[..|callbacks| - 1]) + if callbacks[|callbacks| - 1] == Acquired then [Acquired] else []
  }

  // ----- many instances --------------------------------------------------------------------------------------

  datatype Lock = Free | Held(holder: nat, expires: int)

  /** Which timer an instance's loop waits for.  While it leads, its context is live. */
  datatype Mode = Following | Leading | Ended

  /** `lease` is when the lock expires as of the last reply the instance heard. */
  datatype Instance = Instance(mode: Mode, isLeader: bool, closed: bool, lease: int)

  datatype World = World(now: int, lock: Lock, instances: seq<Instance>)

  /** What became of a request: Redis never saw it, its reply was lost, or it was answered. */
  datatype Reply = Unreached | ReplyLost | Heard

  datatype Step =
    | Wait(time: int)
    | AcquireTimer(i: nat, reply: Reply)
    | RenewTimer(i: nat, reply: Reply)
    | ContextDone(i: nat)
    | Close(i: nat)

  predicate Takeable(w: World) {
    w.lock.Free? || w.lock.expires <= w.now
  }

  predicate HeldBy(w: World, i: nat) {
    w.lock.Held? && w.lock.holder == i && w.now < w.lock.expires
  }

  function Released(w: World, i: nat): Lock
    requires i < |w.instances|
  {
    if w.instances[i].isLeader && w.lock.Held? && w.lock.holder == i then Free else w.lock
  }

  function Next(ttl: int, w: World, step: Step): World {
    match step
    case Wait(time) => if time < 0 then w else w.(now := w.now + time)
    case AcquireTimer(i, reply) =>
      if i >= |w.instances| || !w.instances[i].mode.Following? then w
      else if w.instances[i].closed then w.(instances := w.instances[i := w.instances[i].(mode := Ended)])
      else if w.instances[i].isLeader || reply.Unreached? || !Takeable(w) then w
      else
        var lock := Held(i, w.now + ttl);
        if reply.ReplyLost? then w.(lock := lock)
        else
          var leading := w.instances[i].(mode := Leading, isLeader := true, lease := w.now + ttl);
          World(w.now, lock, w.instances[i := leading])
    case RenewTimer(i, reply) =>
      if i >= |w.instances| || !w.instances[i].mode.Leading? then w
      else if w.instances[i].closed then w.(instances := w.instances[i := w.instances[i].(mode := Ended)])
      else
        var extended := HeldBy(w, i) && !reply.Unreached?;
        var lock := if extended then Held(i, w.now + ttl) else w.lock;
        if extended && reply.Heard? then World(w.now, lock, w.instances[i := w.instances[i].(lease := w.now + ttl)])
        else World(w.now, lock, w.instances[i := w.instances[i].(mode := Following, isLeader := false)])
    case ContextDone(i) =>
      if i >= |w.instances| || w.instances[i].mode.Ended? then w
      else World(w.now, Released(w, i), w.instances[i := w.instances[i].(mode := Ended, isLeader := false)])
    case Close(i) =>
      if i >= |w.instances| || w.instances[i].closed then w
      else World(w.now, Released(w, i), w.instances[i := w.instances[i].(closed := true, isLeader := false)])
  }

  function Run(ttl: int, w: World, steps: seq<Step>): World {
    if steps == [] then w else Next(ttl, Run(ttl, w, steps[..|steps| - 1]), steps[|steps| - 1])
  }

  ghost predicate AtMostOneLeads(w: World) {
    forall i, j :: (0 <= i < |w.instances| && 0 <= j < |w.instances| &&
                    w.instances[i].mode.Leading? && w.instances[j].mode.Leading?) ==> i == j
  }

  predicate LeadsByLock(w: World, i: nat)
    requires i < |w.instances|
  {
    w.instances[i].mode.Leading? ==>
      && w.instances[i].isLeader && !w.instances[i].closed
      && w.lock == Held(i, w.instances[i].lease) && w.now < w.instances[i].lease
  }

  /** A leading instance holds the lock up to its lease, which is not over. */
  ghost predicate Covered(w: World) {
    forall i :: 0 <= i < |w.instances| ==>
      LeadsByLock(w, i) && (w.instances[i].isLeader ==> w.instances[i].mode.Leading?)
  }

  /** The two steps that can leave a live context without its lock: time passing a leader's lease before it renews,
      and closing the elector under a leader, which frees the lock but calls nobody back. */
  predicate Uncovers(w: World, step: Step) {
    match step
    case Wait(time) =>
      exists i :: 0 <= i < |w.instances| && w.instances[i].mode.Leading? && w.instances[i].lease <= w.now + time
    case Close(i) => i < |w.instances| && w.instances[i].mode.Leading?
    case _ => false
  }

  lemma {:induction false} StepKeepsCovered(ttl: int, w: World, step: Step)
    requires 0 < ttl && Covered(w) && !Uncovers(w, step)
    ensures Covered(Next(ttl, w, step))
  {
    var t := Next(ttl, w, step);
    forall k | 0 <= k < |t.instances|
      ensures LeadsByLock(t, k) && (t.instances[k].isLeader ==> t.instances[k].mode.Leading?)
    {
      assert LeadsByLock(w, k) && (w.instances[k].isLeader ==> w.instances[k].mode.Leading?);
    }
  }

  ghost predicate Timely(ttl: int, w: World, steps: seq<Step>) {
    forall i :: 0 <= i < |steps| ==> !Uncovers(Run(ttl, w, steps[..i]), steps[i])
  }

  /** Over any run of any number of instances without those two steps, whatever replies are lost, a leading instance
      always holds the lock, so no two lead. */
  lemma {:induction false} LeadersExclude(ttl: int, w: World, steps: seq<Step>)
    requires 0 < ttl && Covered(w) && Timely(ttl, w, steps)
    ensures Covered(Run(ttl, w, steps)) && AtMostOneLeads(Run(ttl, w, steps))
  {
    if steps != [] {
      var n := |steps| - 1;
      assert forall i :: 0 <= i < n ==> steps[..n][..i] == steps[..i];
      LeadersExclude(ttl, w, steps[..n]);
      StepKeepsCovered(ttl, Run(ttl, w, steps[..n]), steps[n]);
    }
    CoveredExcludes(Run(ttl, w, steps));
  }

  lemma {:induction false} CoveredExcludes(w: World)
    requires Covered(w)
    ensures AtMostOneLeads(w)
  {
    forall i, j | 0 <= i < |w.instances| && 0 <= j < |w.instances|
                  && w.instances[i].mode.Leading? && w.instances[j].mode.Leading?
      ensures i == j
    {
      assert LeadsByLock(w, i) && LeadsByLock(w, j);
    }
  }

  /** No timely run from here ever has two leaders. */
  ghost predicate StaysExclusive(ttl: int, w: World) {
    forall steps :: Timely(ttl, w, steps) ==> AtMostOneLeads(Run(ttl, w, steps))
  }

  /** Each of the two steps is unsafe whenever it happens: with an instance `j` waiting to take over, the runs after a
      step stay exclusive exactly when the step is neither. */
  lemma {:induction false} StepIsSafeIff(ttl: int, w: World, step: Step, j: nat)
    requires 0 < ttl && Covered(w)
    requires j < |w.instances| && w.instances[j].mode.Following? && !w.instances[j].closed
    ensures StaysExclusive(ttl, Next(ttl, w, step)) <==> !Uncovers(w, step)
  {
    var t := Next(ttl, w, step);
    if !Uncovers(w, step) {
      StepKeepsCovered(ttl, w, step);
      forall steps | Timely(ttl, t, steps) ensures AtMostOneLeads(Run(ttl, t, steps)) {
        LeadersExclude(ttl, t, steps);
      }
    } else {
      var i :| 0 <= i < |w.instances| && w.instances[i].mode.Leading? && (step.Close? ==> step.i == i) &&
               (step.Wait? ==> w.instances[i].lease <= w.now + step.time);
      assert LeadsByLock(w, i);
      var steps := [AcquireTimer(j, Heard)];
      assert Takeable(t) && steps[..0] == [] && Run(ttl, t, []) == t && Timely(ttl, t, steps);
      var u := Run(ttl, t, steps);
      assert u == Next(ttl, t, steps[0]);
      assert u.instances[i].mode.Leading? && u.instances[j].mode.Leading?;
    }
  }

  // ----- what the configuration must allow -------------------------------------------------------------------

  function Fresh(n: nat): World {
    World(0, Free, seq(n, _ => Instance(Following, false, false, 0)))
  }

  /** Time passes a leader's next renewal, due `renewEvery` after the last one it heard of, by more than `slack`; or an
      elector is closed under a leader. */
  predicate Lags(ttl: int, renewEvery: int, slack: int, w: World, step: Step) {
    match step
    case Wait(time) =>
      exists i :: 0 <= i < |w.instances| && w.instances[i].mode.Leading? &&
                  w.instances[i].lease - ttl + renewEvery + slack < w.now + time
    case Close(i) => i < |w.instances| && w.instances[i].mode.Leading?
    case _ => false
  }

  ghost predicate Punctual(ttl: int, renewEvery: int, slack: int, w: World, steps: seq<Step>) {
    forall i :: 0 <= i < |steps| ==> !Lags(ttl, renewEvery, slack, Run(ttl, w, steps[..i]), steps[i])
  }

  /** With renewals at most `slack` late, no two instances ever lead exactly when the renewal interval and the slack
      together stay below the lock's lifetime.  The election checks that of the interval alone. */
  lemma {:induction false} ExclusionIff(ttl: int, renewEvery: int, slack: int, n: nat)
    requires 0 < renewEvery < ttl && 0 <= slack && 2 <= n
    ensures (forall steps ::
               Punctual(ttl, renewEvery, slack, Fresh(n), steps) ==> AtMostOneLeads(Run(ttl, Fresh(n), steps)))
      <==> renewEvery + slack < ttl
  {
    if renewEvery + slack < ttl {
      forall steps | Punctual(ttl, renewEvery, slack, Fresh(n), steps)
        ensures AtMostOneLeads(Run(ttl, Fresh(n), steps))
      {
        forall i | 0 <= i < |steps| ensures !Uncovers(Run(ttl, Fresh(n), steps[..i]), steps[i]) {
          assert !Lags(ttl, renewEvery, slack, Run(ttl, Fresh(n), steps[..i]), steps[i]);
        }
        LeadersExclude(ttl, Fresh(n), steps);
      }
    } else {
      SlackExample(ttl, renewEvery, slack, n);
    }
  }

  /** The failing run: the first leader's renewal comes only when its lock has run out and another has taken it. */
  lemma {:induction false} SlackExample(ttl: int, renewEvery: int, slack: int, n: nat)
    requires 0 < renewEvery < ttl <= renewEvery + slack && 2 <= n
    ensures var steps := [AcquireTimer(0, Heard), Wait(ttl), AcquireTimer(1, Heard)];
      Punctual(ttl, renewEvery, slack, Fresh(n), steps) && !AtMostOneLeads(Run(ttl, Fresh(n), steps))
  {
    var a, b, c := AcquireTimer(0, Heard), Wait(ttl), AcquireTimer(1, Heard);
    var w0, steps := Fresh(n), [a, b, c];
    var w1 := Next(ttl, w0, a);
    var w2 := Next(ttl, w1, b);
    assert steps[..0] == [] && steps[..1] == [a] && steps[..2] == [a, b] && [a, b][..1] == [a] && [a][..0] == [];
    assert Run(ttl, w0, steps[..0]) == w0;
    assert Run(ttl, w0, steps[..1]) == w1 && Run(ttl, w0, steps[..2]) == w2;
    assert Run(ttl, w0, steps) == Next(ttl, w2, c);
    assert w1.instances[0].mode.Leading? && w1.instances[0].lease == ttl;
    var w3 := Next(ttl, w2, c);
    assert w3.instances[0].mode.Leading? && w3.instances[1].mode.Leading?;
  }

  // ----- getting and keeping leadership ----------------------------------------------------------------------

  /** An instance that follows leads after its timer exactly when nobody holds an unexpired lock and it hears of taking
      it; it then holds the lock for its lifetime.  If the reply is lost it holds the lock without knowing. */
  lemma {:induction false} AcquireIff(ttl: int, w: World, i: nat, reply: Reply)
    requires i < |w.instances| && w.instances[i].mode == Following && !w.instances[i].closed && !w.instances[i].isLeader
    ensures var t := Next(ttl, w, AcquireTimer(i, reply));
      && |t.instances| == |w.instances| && t.now == w.now
      && (t.instances[i].mode == Leading <==> reply == Heard && (w.lock == Free || w.lock.expires <= w.now))
      && (t.instances[i].mode == Leading ==>
            t.instances[i].isLeader && t.lock == Held(i, w.now + ttl) && t.instances[i].lease == w.now + ttl)
      && (t.instances[i].mode != Leading ==> t.instances == w.instances)
      && (reply == Unreached ==> t == w)
      && (reply == ReplyLost ==>
            t.lock == if w.lock == Free || w.lock.expires <= w.now then Held(i, w.now + ttl) else w.lock)
  {
  }

  /** An instance that leads still does after its timer exactly when it still holds the lock and hears so; it then holds
      it for its lifetime from now.  Otherwise it follows. */
  lemma {:induction false} RenewIff(ttl: int, w: World, i: nat, reply: Reply)
    requires i < |w.instances| && w.instances[i].mode == Leading && !w.instances[i].closed && w.instances[i].isLeader
    ensures var t := Next(ttl, w, RenewTimer(i, reply));
      && |t.instances| == |w.instances| && t.now == w.now
      && (t.instances[i].mode == Leading <==>
            reply == Heard && w.lock.Held? && w.lock.holder == i && w.now < w.lock.expires)
      && (t.instances[i].mode == Leading ==>
            t.instances[i].isLeader && t.lock == Held(i, w.now + ttl) && t.instances[i].lease == w.now + ttl)
      && (t.instances[i].mode != Leading ==> t.instances[i].mode == Following && !t.instances[i].isLeader)
      && (reply == Unreached ==> t.lock == w.lock)
      && (reply == ReplyLost && w.lock.Held? && w.lock.holder == i && w.now < w.lock.expires ==>
            t.lock == Held(i, w.now + ttl))
      && forall j :: 0 <= j < |w.instances| && j != i ==> t.instances[j] == w.instances[j]
  {
  }

  /** When its context is done an instance ends, and a leader frees the lock it holds. */
  lemma {:induction false} DoneIff(ttl: int, w: World, i: nat)
    requires i < |w.instances| && w.instances[i].mode != Ended
    ensures var t := Next(ttl, w, ContextDone(i));
      && |t.instances| == |w.instances| && t.now == w.now
      && t.instances[i].mode == Ended && !t.instances[i].isLeader
      && t.lock == (if w.instances[i].isLeader && w.lock.Held? && w.lock.holder == i then Free else w.lock)
      && forall j :: 0 <= j < |w.instances| && j != i ==> t.instances[j] == w.instances[j]
  {
  }

  /** Closing an elector frees the lock it leads by, and its loop ends at its next timer. */
  lemma {:induction false} CloseIs(ttl: int, w: World, i: nat, reply: Reply)
    requires i < |w.instances| && !w.instances[i].closed && w.instances[i].mode != Ended
    ensures var t := Next(ttl, w, Close(i));
      && |t.instances| == |w.instances| && t.instances[i].closed && t.instances[i].mode == w.instances[i].mode
      && !t.instances[i].isLeader
      && t.lock == (if w.instances[i].isLeader && w.lock.Held? && w.lock.holder == i then Free else w.lock)
      && Next(ttl, t, if w.instances[i].mode == Leading then RenewTimer(i, reply) else AcquireTimer(i, reply))
         == t.(instances := t.instances[i := t.instances[i].(mode := Ended)])
  {
  }

  /** Instance `i` hears the replies to its renewals, and its context is not done. */
  predicate HearsReplies(steps: seq<Step>, i: nat) {
    forall k :: 0 <= k < |steps| ==>
      (steps[k].RenewTimer? && steps[k].i == i ==> steps[k].reply == Heard) && steps[k] != ContextDone(i)
  }

  /** A leader that renews before its lease is over, and hears of it, leads for ever, whatever the others do. */
  lemma {:induction false} LeaderStays(ttl: int, w: World, steps: seq<Step>, i: nat)
    requires 0 < ttl && Covered(w) && Timely(ttl, w, steps)
    requires i < |w.instances| && w.instances[i].mode == Leading && HearsReplies(steps, i)
    ensures i < |Run(ttl, w, steps).instances| && Run(ttl, w, steps).instances[i].mode == Leading
    ensures Run(ttl, w, steps).lock == Held(i, Run(ttl, w, steps).instances[i].lease)
    ensures Run(ttl, w, steps).now < Run(ttl, w, steps).instances[i].lease
  {
    if steps == [] {
      assert LeadsByLock(w, i);
    } else {
      var n := |steps| - 1;
      assert forall k :: 0 <= k < n ==> steps[..n][..k] == steps[..k];
      LeaderStays(ttl, w, steps[..n], i);
      LeadersExclude(ttl, w, steps[..n]);
      LeaderStaysForOne(ttl, Run(ttl, w, steps[..n]), steps[n], i);
    }
  }

  lemma {:induction false} LeaderStaysForOne(ttl: int, w: World, step: Step, i: nat)
    requires 0 < ttl && Covered(w) && !Uncovers(w, step)
    requires i < |w.instances| && w.instances[i].mode == Leading && HearsReplies([step], i)
    ensures i < |Next(ttl, w, step).instances| && Next(ttl, w, step).instances[i].mode == Leading
    ensures Next(ttl, w, step).lock == Held(i, Next(ttl, w, step).instances[i].lease)
    ensures Next(ttl, w, step).now < Next(ttl, w, step).instances[i].lease
  {
    assert LeadsByLock(w, i) && [step][0] == step;
    StepKeepsCovered(ttl, w, step);
    assert Next(ttl, w, step).instances[i].mode == Leading;
    assert LeadsByLock(Next(ttl, w, step), i);
  }

  /** And when it stops renewing, another instance takes over once its lease has run out. */
  lemma {:induction false} AnotherTakesOver(ttl: int, w: World, i: nat, j: nat, time: int)
    requires 0 < ttl && Covered(w) && i < |w.instances| && j < |w.instances| && i != j
    requires w.instances[i].mode == Leading && w.instances[j].mode == Following && !w.instances[j].closed
    requires 0 <= time
    ensures Next(ttl, Next(ttl, w, Wait(time)), AcquireTimer(j, Heard)).instances[j].mode == Leading
      <==> w.instances[i].lease <= w.now + time
  {
    assert LeadsByLock(w, i);
  }
}
