/** Single-use enrolment tokens: the Redis claim and its durable backstop
    (backend/cmd/clario-dr-service/agent_runtime.go, backend/internal/siem/sources/enroll/token.go, enroll_service.go,
    backend/migrations/dr_db/000005_enrollment_tokens.up.sql).  Times are whole nanoseconds. */
module EnrollmentTokens {
  import opened Common

  const SECOND := 1_000_000_000
  const DEFAULT_TTL := 900 * SECOND
  const REDIS_MARGIN := 30 * SECOND
  const BACKDATING := 30 * SECOND

  type Jti = string

  // ----- the durable table -----------------------------------------------------------------------------------

  datatype TokenRecord = TokenRecord(jti: Jti, agent: string, tenant: string, purpose: string, expiresAt: int)

  datatype Consumption = Consumption(at: int, ip: Option<string>)

  datatype Row = Row(token: TokenRecord, issuedAt: int, consumed: Option<Consumption>)

  type Rows = map<Jti, Row>

  /** The table's constraints: the primary key, the agent's foreign key and the two checks. */
  predicate Insertable(rows: Rows, t: TokenRecord, dbNow: int, agentKnown: bool) {
    t.jti !in rows && agentKnown && t.purpose in ["enroll", "rotate"] && t.expiresAt > dbNow
  }

  predicate Consumable(rows: Rows, jti: Jti, now: int) {
    jti in rows && rows[jti].consumed.None? && rows[jti].token.expiresAt > now
  }

  /** An empty address is stored as NULL. */
  function Address(ip: string): Option<string> {
    if ip == "" then None else Some(ip)
  }

  class EnrollmentTokenStore {
    var rows: Rows

    constructor ()
      ensures rows == map[]
    {
      rows := map[];
    }

    /** `up` is false when the transaction fails for a reason outside the table. */
    method Insert(t: TokenRecord, dbNow: int, agentKnown: bool, up: bool) returns (ok: bool)
      modifies this
      ensures ok <==> up && Insertable(old(rows), t, dbNow, agentKnown)
      ensures ok <==>
        up && t.jti !in old(rows) && agentKnown && (t.purpose == "enroll" || t.purpose == "rotate") &&
        dbNow < t.expiresAt
      ensures rows == if ok then old(rows)[t.jti := Row(t, dbNow, None)] else old(rows)
    {
      ok := up && Insertable(rows, t, dbNow, agentKnown);
      if ok {
        rows := rows[t.jti := Row(t, dbNow, None)];
      }
    }

    method MarkConsumed(jti: Jti, ip: string, now: int, up: bool) returns (r: Option<Row>)
      modifies this
      ensures r.Some? <==> up && Consumable(old(rows), jti, now)
      ensures r.Some? ==> r.value == old(rows[jti]).(consumed := Some(Consumption(now, Address(ip))))
      ensures r.Some? && ip != "" ==> r.value.consumed == Some(Consumption(now, Some(ip)))
      ensures r.Some? && ip == "" ==> r.value.consumed == Some(Consumption(now, None))
      ensures rows == if r.Some? then old(rows)[jti := r.value] else old(rows)
    {
      if !up || jti !in rows || rows[jti].consumed.Some? || rows[jti].token.expiresAt <= now {
        return None;
      }
      rows := rows[jti := rows[jti].(consumed := Some(Consumption(now, Address(ip))))];
      r := Some(rows[jti]);
    }
  }

  // ----- the Redis marks -------------------------------------------------------------------------------------

  datatype Mark = Issued | Taken(ip: string)

  /** A mark and the time at which Redis drops it. */
  datatype Entry = Entry(mark: Mark, deadline: int)

  type Marks = map<Jti, Entry>

  /** The claims a token carries that matter here, and whether it is otherwise acceptable: well formed, well signed,
      with an issuer, an audience and a known purpose. */
  datatype Claims = Claims(jti: Jti, nbfSeconds: int, expSeconds: int, authentic: bool)

  /** The expiry and not-before checks, in whole seconds. */
  predicate Parses(c: Claims, now: int) {
    c.authentic && c.expSeconds > now / SECOND && c.nbfSeconds <= now / SECOND
  }

  /** What a token minted at a given time for a given lifetime claims. */
  function MintedClaims(jti: Jti, minted: int, ttl: int): Claims {
    Claims(jti, (minted - BACKDATING) / SECOND, (minted + ttl) / SECOND, true)
  }

  predicate Claimable(marks: Marks, c: Claims, now: int) {
    Parses(c, now) && c.jti in marks && now < marks[c.jti].deadline && marks[c.jti].mark.Issued?
  }

  datatype MintParams = MintParams(agent: string, tenant: string, purpose: string, ttl: int)

  datatype Minted = Minted(token: Claims, expiresAt: int)

  function Ttl(p: MintParams): (ttl: int)
    ensures ttl > 0
  {
    if p.ttl <= 0 then DEFAULT_TTL else p.ttl
  }

  class TokenManager {
    var marks: Marks

    constructor ()
      ensures marks == map[]
    {
      marks := map[];
    }

    method RegisterJti(jti: Jti, deadline: int)
      modifies this
      ensures marks == old(marks)[jti := Entry(Issued, deadline)]
    {
      marks := marks[jti := Entry(Issued, deadline)];
    }

    method Mint(p: MintParams, jti: Jti, now: int, signs: bool, up: bool) returns (r: Option<Minted>)
      modifies this
      ensures r.Some? <==> signs && up
      ensures r.Some? ==> r.value.token == MintedClaims(jti, now, Ttl(p))
      ensures r.Some? ==> r.value.expiresAt == r.value.token.expSeconds * SECOND
      ensures r.Some? ==> r.value.expiresAt <= now + Ttl(p) < r.value.expiresAt + SECOND
      ensures marks == if r.Some? then old(marks)[jti := Entry(Issued, now + Ttl(p) + REDIS_MARGIN)] else old(marks)
      ensures r.Some? ==>
        var ttl := if p.ttl <= 0 then 900_000_000_000 else p.ttl;
        && r.value.token.nbfSeconds == (now - 30_000_000_000) / 1_000_000_000
        && r.value.token.expSeconds == (now + ttl) / 1_000_000_000
        && marks[jti].deadline == now + ttl + 30_000_000_000
    {
      var ttl := if p.ttl <= 0 then DEFAULT_TTL else p.ttl;
      var nbf, exp := (now - BACKDATING) / SECOND, (now + ttl) / SECOND;
      if !signs || !up {
        return None;
      }
      RegisterJti(jti, now + ttl + REDIS_MARGIN);
      r := Some(Minted(Claims(jti, nbf, exp, true), exp * SECOND));
    }

    method Claim(c: Claims, ip: string, now: int, up: bool) returns (ok: bool)
      modifies this
      ensures ok <==> up && Claimable(old(marks), c, now)
      ensures ok ==> c.authentic && c.nbfSeconds * 1_000_000_000 <= now < c.expSeconds * 1_000_000_000
      ensures marks == if ok then old(marks)[c.jti := Entry(Taken(ip), old(marks[c.jti]).deadline)] else old(marks)
    {
      InWholeSeconds(c, now);
      if !Parses(c, now) || !up || c.jti !in marks || marks[c.jti].deadline <= now || marks[c.jti].mark != Issued {
        return false;
      }
      marks := marks[c.jti := marks[c.jti].(mark := Taken(ip))];
      ok := true;
    }
  }

  /** A token is claimable exactly when it is authentic, its clock is between its two times, and Redis has a live mark
      for it that nobody has taken. */
  lemma {:induction false} ClaimableIff(marks: Marks, c: Claims, now: int)
    ensures Claimable(marks, c, now) <==>
      && c.authentic && c.nbfSeconds * 1_000_000_000 <= now < c.expSeconds * 1_000_000_000
      && c.jti in marks && marks[c.jti].mark == Issued && now < marks[c.jti].deadline
  {
    InWholeSeconds(c, now);
  }

  lemma {:induction false} InWholeSeconds(c: Claims, now: int)
    ensures Parses(c, now) <==>
      c.authentic && c.nbfSeconds * 1_000_000_000 <= now < c.expSeconds * 1_000_000_000
  {
    assert SECOND * (now / SECOND) <= now < SECOND * (now / SECOND) + SECOND;
  }

  /** On the same clock the checks agree: a minted token is accepted, its not-before time once passed, exactly as long
      as the table would consume it, and so long Redis still has the mark.  A clock may be up to 30 seconds behind the
      minting one, and none that is 31 seconds behind accepts the token. */
  lemma {:induction false} ExpiryChecksAgree(jti: Jti, minted: int, ttl: int, now: int)
    ensures var c := MintedClaims(jti, minted, ttl);
      && (Parses(c, now) <==> c.nbfSeconds * SECOND <= now < c.expSeconds * SECOND)
      && (Parses(c, now) ==> now < minted + ttl + REDIS_MARGIN)
      && minted - BACKDATING - SECOND < c.nbfSeconds * SECOND <= minted - BACKDATING
  {
    assert SECOND * (now / SECOND) <= now < SECOND * (now / SECOND) + SECOND;
  }

  /** What `Mint` returns has a durable row with the same expiry, and nothing is returned without one. */
  method MintDurably(tokens: TokenManager, store: EnrollmentTokenStore, p: MintParams, jti: Jti, now: int, signs: bool,
                     redisUp: bool, dbNow: int, agentKnown: bool, dbUp: bool)
    returns (r: Option<Minted>)
    modifies tokens, store
    ensures r.Some? ==> jti !in old(store.rows) && r.value.token == MintedClaims(jti, now, Ttl(p))
    ensures r.Some? ==> r.value.expiresAt == r.value.token.expSeconds * SECOND
    ensures r.Some? ==> dbNow < r.value.expiresAt <= now + Ttl(p)
    ensures store.rows == if r.None? then old(store.rows) else
      old(store.rows)[jti := Row(TokenRecord(jti, p.agent, p.tenant, p.purpose, r.value.expiresAt), dbNow, None)]
    ensures tokens.marks == if !signs || !redisUp then old(tokens.marks) else
      old(tokens.marks)[jti := Entry(Issued, now + Ttl(p) + REDIS_MARGIN)]
  {
    var out := tokens.Mint(p, jti, now, signs, redisUp);
    if out.None? {
      return None;
    }
    var t := TokenRecord(jti, p.agent, p.tenant, p.purpose, out.value.expiresAt);
    var ok := store.Insert(t, dbNow, agentKnown, dbUp);
    r := if ok then out else None;
  }

  // ----- every interleaving ----------------------------------------------------------------------------------

  datatype World = World(rows: Rows, marks: Marks)

  /** What any number of minters and clients do, one committed effect at a time.  Redis may in between drop or
      restore any marks: keys expire, it is flushed, or it restarts from an older snapshot. */
  datatype Step =
    | Register(jti: Jti, deadline: int)
    | Insert(token: TokenRecord, dbNow: int, agentKnown: bool)
    | Claim(claims: Claims, ip: string, now: int)
    | Consume(jti: Jti, ip: string, now: int)
    | RedisBecomes(marks: Marks)

  predicate Wins(w: World, step: Step, j: Jti) {
    step.Consume? && step.jti == j && Consumable(w.rows, j, step.now)
  }

  predicate ClaimWins(w: World, step: Step, j: Jti) {
    step.Claim? && step.claims.jti == j && Claimable(w.marks, step.claims, step.now)
  }

  function Next(w: World, step: Step): World {
    match step
    case Register(jti, deadline) => w.(marks := w.marks[jti := Entry(Issued, deadline)])
    case Insert(t, dbNow, agentKnown) =>
      if Insertable(w.rows, t, dbNow, agentKnown) then w.(rows := w.rows[t.jti := Row(t, dbNow, None)]) else w
    case Claim(c, ip, now) =>
      if Claimable(w.marks, c, now) then w.(marks := w.marks[c.jti := w.marks[c.jti].(mark := Taken(ip))]) else w
    case Consume(jti, ip, now) =>
      if Consumable(w.rows, jti, now)
      then w.(rows := w.rows[jti := w.rows[jti].(consumed := Some(Consumption(now, Address(ip))))])
      else w
    case RedisBecomes(marks) => w.(marks := marks)
  }

  /** Each step is a call of one of the methods, other than what Redis does by itself. */
  method Perform(tokens: TokenManager, store: EnrollmentTokenStore, step: Step)
    modifies tokens, store
    ensures World(store.rows, tokens.marks) == Next(old(World(store.rows, tokens.marks)), step)
  {
    match step {
      case Register(jti, deadline) => tokens.RegisterJti(jti, deadline);
      case Insert(t, dbNow, agentKnown) => var ok := store.Insert(t, dbNow, agentKnown, true);
      case Claim(c, ip, now) => var ok := tokens.Claim(c, ip, now, true);
      case Consume(jti, ip, now) => var r := store.MarkConsumed(jti, ip, now, true);
      case RedisBecomes(marks) => tokens.marks := marks;
    }
  }

  function Run(w: World, steps: seq<Step>): World {
    if steps == [] then w else Next(Run(w, steps[..|steps| - 1]), steps[|steps| - 1])
  }

  /** How many times `j` is consumed successfully during a run. */
  function Won(w: World, steps: seq<Step>, j: Jti): nat {
    if steps == [] then 0
    else
      var before := steps[..|steps| - 1];
      Won(w, before, j) + if Wins(Run(w, before), steps[|steps| - 1], j) then 1 else 0
  }

  function Spent(rows: Rows, j: Jti): nat {
    if j in rows && rows[j].consumed.Some? then 1 else 0
  }

  /** Each token is consumed at most once over any run, whatever Redis forgets: successes are exactly the change of
      its row from unspent to spent. */
  lemma {:induction false} SingleUse(w: World, steps: seq<Step>, j: Jti)
    ensures Won(w, steps, j) == Spent(Run(w, steps).rows, j) - Spent(w.rows, j)
    ensures Won(w, steps, j) <= 1
  {
    if steps != [] {
      SingleUse(w, steps[..|steps| - 1], j);
    }
  }

  /** Rows stay, keep what they were issued with, and once consumed keep their consumption record. */
  lemma {:induction false} RecordsNeverChange(w: World, steps: seq<Step>, j: Jti)
    requires j in w.rows
    ensures j in Run(w, steps).rows
    ensures Run(w, steps).rows[j].token == w.rows[j].token && Run(w, steps).rows[j].issuedAt == w.rows[j].issuedAt
    ensures w.rows[j].consumed.Some? ==> Run(w, steps).rows[j] == w.rows[j]
  {
    if steps != [] {
      RecordsNeverChange(w, steps[..|steps| - 1], j);
    }
  }

  lemma {:induction false} RunSplits(w: World, first: seq<Step>, second: seq<Step>)
    ensures Run(w, first + second) == Run(Run(w, first), second)
  {
    if second == [] {
      assert first + second == first;
    } else {
      assert (first + second)[..|first + second| - 1] == first + second[..|second| - 1];
      RunSplits(w, first, second[..|second| - 1]);
    }
  }

  /** A successful consumption happens strictly before expiry and is what the row records for ever after. */
  lemma {:induction false} WinnerIsOnRecord(w: World, steps: seq<Step>, i: nat)
    requires i < |steps| && steps[i].Consume? && Wins(Run(w, steps[..i]), steps[i], steps[i].jti)
    ensures steps[i].jti in Run(w, steps).rows
    ensures Run(w, steps).rows[steps[i].jti].consumed
         == Some(Consumption(steps[i].now, if steps[i].ip == "" then None else Some(steps[i].ip)))
    ensures steps[i].now < Run(w, steps).rows[steps[i].jti].token.expiresAt
  {
    var upTo := steps[..i + 1];
    assert upTo[..i] == steps[..i] && upTo + steps[i + 1..] == steps;
    RunSplits(w, upTo, steps[i + 1..]);
    RecordsNeverChange(Run(w, upTo), steps[i + 1..], steps[i].jti);
  }

  /** Two successful consumptions in one run are of different tokens. */
  lemma {:induction false} OneWinner(w: World, steps: seq<Step>, i: nat, k: nat)
    requires i < k < |steps| && steps[i].Consume? && steps[k].Consume?
    requires Wins(Run(w, steps[..i]), steps[i], steps[i].jti) && Wins(Run(w, steps[..k]), steps[k], steps[k].jti)
    ensures steps[i].jti != steps[k].jti
  {
    assert steps[..k][..i] == steps[..i];
    WinnerIsOnRecord(w, steps[..k], i);
  }

  /** What every reachable table satisfies. */
  ghost predicate Sound(rows: Rows) {
    forall j <- rows ::
      && rows[j].token.jti == j && rows[j].issuedAt < rows[j].token.expiresAt
      && (rows[j].consumed.Some? ==> rows[j].consumed.value.at < rows[j].token.expiresAt)
  }

  lemma {:induction false} RunsStaySound(w: World, steps: seq<Step>)
    requires Sound(w.rows)
    ensures Sound(Run(w, steps).rows)
  {
    if steps != [] {
      RunsStaySound(w, steps[..|steps| - 1]);
    }
  }

  // ----- what Redis adds -------------------------------------------------------------------------------------

  function Live(marks: Marks, j: Jti): nat {
    if j in marks && marks[j].mark.Issued? then 1 else 0
  }

  function Claimed(w: World, steps: seq<Step>, j: Jti): nat {
    if steps == [] then 0
    else
      var before := steps[..|steps| - 1];
      Claimed(w, before, j) + if ClaimWins(Run(w, before), steps[|steps| - 1], j) then 1 else 0
  }

  /** A step that makes the mark of `j` claimable when it was not: registering it, or Redis coming back with it. */
  predicate Revives(w: World, step: Step, j: Jti) {
    (step.Register? || step.RedisBecomes?) && Live(w.marks, j) == 0 && Live(Next(w, step).marks, j) == 1
  }

  function Revived(w: World, steps: seq<Step>, j: Jti): nat {
    if steps == [] then 0
    else
      var before := steps[..|steps| - 1];
      Revived(w, before, j) + if Revives(Run(w, before), steps[|steps| - 1], j) then 1 else 0
  }

  /** Every successful claim uses up one registration: without a mark coming back, Redis alone lets a token through
      once. */
  lemma {:induction false} ClaimsUseUpMarks(w: World, steps: seq<Step>, j: Jti)
    ensures Claimed(w, steps, j) + Live(Run(w, steps).marks, j) <= Live(w.marks, j) + Revived(w, steps, j)
  {
    if steps != [] {
      ClaimsUseUpMarks(w, steps[..|steps| - 1], j);
    }
  }

  /** The replay the durable row is there for: Redis comes back from a snapshot taken before the claim, and the token
      is claimed twice, but consumed once. */
  lemma {:induction false} ReplayIsClaimedTwiceConsumedOnce(w: World, c: Claims, expiresAt: int, now: int)
    requires Claimable(w.marks, c, now) && Consumable(w.rows, c.jti, now)
    ensures var claim, consume := Claim(c, "", now), Consume(c.jti, "", now);
      var steps := [claim, consume, RedisBecomes(w.marks), claim, consume];
      Claimed(w, steps, c.jti) == 2 && Won(w, steps, c.jti) == 1
  {
    var a, b, r := Claim(c, "", now), Consume(c.jti, "", now), RedisBecomes(w.marks);
    var steps := [a, b, r, a, b];
    assert steps[..4] == [a, b, r, a] && [a, b, r, a][..3] == [a, b, r];
    assert [a, b, r][..2] == [a, b] && [a, b][..1] == [a] && [a][..0] == [];
    assert Run(w, [a]) == Next(w, a) && Run(w, [a, b]) == Next(Next(w, a), b);
    assert Claimed(w, [a], c.jti) == 1 && Won(w, [a], c.jti) == 0;
    assert Claimed(w, [a, b], c.jti) == 1 && Won(w, [a, b], c.jti) == 1;
    assert Run(w, [a, b, r]).marks == w.marks;
    assert Claimed(w, [a, b, r], c.jti) == 1 && Won(w, [a, b, r], c.jti) == 1;
    assert Claimed(w, [a, b, r, a], c.jti) == 2;
    SingleUse(w, steps, c.jti);
  }

  // ----- one token among many --------------------------------------------------------------------------------

  predicate Touches(w: World, step: Step, j: Jti) {
    match step
    case Register(jti, _) => jti == j
    case Insert(t, _, _) => t.jti == j
    case Claim(c, _, _) => c.jti == j
    case Consume(jti, _, _) => jti == j
    case RedisBecomes(marks) => j !in marks || j !in w.marks || marks[j] != w.marks[j]
  }

  lemma {:induction false} UntouchedStep(w: World, step: Step, j: Jti)
    requires j in w.rows && j in w.marks && !Touches(w, step, j)
    ensures j in Next(w, step).rows && Next(w, step).rows[j] == w.rows[j]
    ensures j in Next(w, step).marks && Next(w, step).marks[j] == w.marks[j]
  {
  }

  lemma {:induction false} Untouched(w: World, steps: seq<Step>, j: Jti)
    requires j in w.rows && j in w.marks
    requires forall i :: 0 <= i < |steps| ==> !Touches(Run(w, steps[..i]), steps[i], j)
    ensures j in Run(w, steps).rows && Run(w, steps).rows[j] == w.rows[j]
    ensures j in Run(w, steps).marks && Run(w, steps).marks[j] == w.marks[j]
  {
    if steps != [] {
      var n := |steps| - 1;
      assert forall i :: 0 <= i < n ==> steps[..n][..i] == steps[..i];
      Untouched(w, steps[..n], j);
      UntouchedStep(Run(w, steps[..n]), steps[n], j);
    }
  }

  /** A minted token that nobody has presented and Redis still knows is claimed exactly on a clock between its
      not-before time and its expiry, and then consumed exactly on one before its expiry. */
  lemma {:induction false} MintedTokenWorksIff(w: World, steps: seq<Step>, c: Claims, minted: int, ttl: int,
                                               claimAt: int, consumeAt: int, ip: string)
    requires 0 < ttl && c == MintedClaims(c.jti, minted, ttl)
    requires c.jti in w.rows && w.rows[c.jti].consumed.None?
    requires w.rows[c.jti].token.expiresAt == c.expSeconds * SECOND
    requires c.jti in w.marks && w.marks[c.jti] == Entry(Issued, minted + ttl + REDIS_MARGIN)
    requires forall i :: 0 <= i < |steps| ==> !Touches(Run(w, steps[..i]), steps[i], c.jti)
    ensures ClaimWins(Run(w, steps), Claim(c, ip, claimAt), c.jti)
      <==> c.nbfSeconds * SECOND <= claimAt < w.rows[c.jti].token.expiresAt
    ensures Wins(Next(Run(w, steps), Claim(c, ip, claimAt)), Consume(c.jti, ip, consumeAt), c.jti)
      <==> consumeAt < w.rows[c.jti].token.expiresAt
  {
    Untouched(w, steps, c.jti);
    ExpiryChecksAgree(c.jti, minted, ttl, claimAt);
  }

  /** A mint whose row was never inserted can be claimed, but not consumed. */
  lemma {:induction false} FailedMintIsUseless(w: World, steps: seq<Step>, j: Jti)
    requires j !in w.rows
    requires forall i :: 0 <= i < |steps| && steps[i].Insert? ==> steps[i].token.jti != j
    ensures Won(w, steps, j) == 0 && j !in Run(w, steps).rows
  {
    if steps != [] {
      FailedMintIsUseless(w, steps[..|steps| - 1], j);
    }
  }
}
