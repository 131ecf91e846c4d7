/** The whole audit: every database, the summary, and the audit after the remediation
    (backend/cmd/audit-isolation/main.go:247-315, 477-553). */
module IsolationReport {
  import opened Common
  import opened IsolationAudit
  import opened Remediation

  // ----- one database ----------------------------------------------------------------------------------------

  function AuditAll(db: Db, role: Role, targets: seq<Target>): (r: seq<TableResult>)
    ensures |r| == |targets| && forall i :: 0 <= i < |r| ==> r[i] == Audited(db, role, targets[i])
  {
    seq(|targets|, i requires 0 <= i < |targets| => Audited(db, role, targets[i]))
  }

  ghost predicate DistinctNames(targets: seq<Target>) {
    && (forall i :: 0 <= i < |targets| ==> '.' !in targets[i].name)
    && (forall i, j :: 0 <= i < j < |targets| ==> targets[i].name != targets[j].name)
  }

  function Remediated(db: Db, role: Role, targets: seq<Target>): Db {
    ExecAll(db, FixAll(AuditAll(db, role, targets)))
  }

  lemma {:induction false} FlatMapConcat<S, T>(f: S -> seq<T>, a: seq<S>, b: seq<S>)
    ensures FlatMap(f, a + b) == FlatMap(f, a) + FlatMap(f, b)
  {
    if b == [] {
      assert a + b == a;
    } else {
      assert (a + b)[..|a + b| - 1] == a + b[..|b| - 1];
      FlatMapConcat(f, a, b[..|b| - 1]);
    }
  }

  lemma {:induction false} FlatMapSplit<S, T>(f: S -> seq<T>, s: seq<S>, k: nat)
    requires k < |s|
    ensures FlatMap(f, s) == FlatMap(f, s[..k]) + f(s[k]) + FlatMap(f, s[k + 1..])
  {
    assert s == s[..k + 1] + s[k + 1..] && s[..k + 1][..k] == s[..k];
    FlatMapConcat(f, s[..k + 1], s[k + 1..]);
  }

  /** All statements are for this table; none is, and none for one with a dot. */
  ghost predicate Concerns(script: seq<Statement>, table: string) {
    forall i :: 0 <= i < |script| ==> script[i].table == table
  }

  ghost predicate Spares(script: seq<Statement>, table: string) {
    forall i :: 0 <= i < |script| ==> script[i].table != table && '.' !in script[i].table
  }

  lemma {:induction false} FixConcerns(r: TableResult)
    ensures Concerns(Fix(r), r.table)
  {
    PoliciesConcern(r.missingPolicies, r.table);
  }

  lemma {:induction false} PoliciesConcern(missing: seq<Policy>, table: string)
    ensures Concerns(CreatePolicies(missing, table), table)
  {
    if missing != [] {
      PoliciesConcern(missing[..|missing| - 1], table);
    }
  }

  lemma {:induction false} NoTableNoEffect(db: Db, script: seq<Statement>, name: string)
    requires name !in db.tables && Concerns(script, name)
    ensures ExecAll(db, script) == db
  {
    if script != [] {
      NoTableNoEffect(db, script[..|script| - 1], name);
    }
  }

  /** Of a script, only the part for a table acts on it. */
  lemma {:induction false} OwnPartActs(db: Db, before: seq<Statement>, own: seq<Statement>, rest: seq<Statement>,
                                       name: string)
    requires '.' !in name && Spares(before, name) && Concerns(own, name) && Spares(rest, name)
    ensures name in ExecAll(db, before + own + rest).tables <==> name in db.tables
    ensures name in db.tables ==> ViewOf(ExecAll(db, before + own + rest), name) == EffectAll(ViewOf(db, name), own)
  {
    ExecConcat(db, before + own, rest);
    ExecConcat(db, before, own);
    OtherStatements(db, before, name);
    if name in db.tables {
      OwnStatements(ExecAll(db, before), own, name);
    } else {
      NoTableNoEffect(ExecAll(db, before), own, name);
    }
    OtherStatements(ExecAll(ExecAll(db, before), own), rest, name);
  }

  lemma {:induction false} FlatMapSpares(f: TableResult -> seq<Statement>, results: seq<TableResult>, name: string)
    requires forall i :: 0 <= i < |results| ==> Spares(f(results[i]), name)
    ensures Spares(FlatMap(f, results), name)
  {
    if results != [] {
      FlatMapSpares(f, results[..|results| - 1], name);
    }
  }

  lemma {:induction false} EachPartActs(db: Db, f: TableResult -> seq<Statement>, results: seq<TableResult>, k: nat,
                                        name: string)
    requires k < |results| && '.' !in name && Concerns(f(results[k]), name)
    requires forall i :: 0 <= i < |results| && i != k ==> Spares(f(results[i]), name)
    ensures name in ExecAll(db, FlatMap(f, results)).tables <==> name in db.tables
    ensures name in db.tables ==>
              ViewOf(ExecAll(db, FlatMap(f, results)), name) == EffectAll(ViewOf(db, name), f(results[k]))
  {
    FlatMapSplit(f, results, k);
    FlatMapSpares(f, results[..k], name);
    FlatMapSpares(f, results[k + 1..], name);
    OwnPartActs(db, FlatMap(f, results[..k]), f(results[k]), FlatMap(f, results[k + 1..]), name);
  }

  /** Applying the whole script of a database repairs each of its tables as if it were the only one. */
  lemma {:induction false} EachTableRepaired(db: Db, role: Role, targets: seq<Target>, k: nat)
    requires DistinctNames(targets) && k < |targets|
    ensures targets[k].name in Remediated(db, role, targets).tables <==> targets[k].name in db.tables
    ensures var name := targets[k].name;
      name in db.tables ==> ViewOf(Remediated(db, role, targets), name) == Repaired(ViewOf(db, name), targets[k])
  {
    var results, name := AuditAll(db, role, targets), targets[k].name;
    forall i | 0 <= i < |results|
      ensures if i == k then Concerns(Fix(results[i]), name) else Spares(Fix(results[i]), name)
    {
      FixConcerns(results[i]);
    }
    EachPartActs(db, Fix, results, k, name);
    if name in db.tables {
      FixRepairs(role, targets[k], ViewOf(db, name));
    }
  }

  /** The table can be indexed, and the audit sees no NULL rows once row-level security is on and forced. */
  predicate SoundOnceFixed(db: Db, role: Role, tbl: Target) {
    tbl.name in db.tables &&
    var v := ViewOf(db, tbl.name);
    (v.t.indexed || CanIndex(v)) && CountedNulls(role, tbl, v.t.(rlsEnabled := true, rlsForced := true)) == 0
  }

  /** Its policies are there or can be created. */
  predicate PoliciesOnceFixed(db: Db, tbl: Target) {
    tbl.name in db.tables &&
    var t := db.tables[tbl.name];
    t.hasTenantId || forall p :: p in ExpectedPoliciesFor(tbl) ==> p in t.policies
  }

  lemma {:induction false} PoliciesConvergeIff(db: Db, role: Role, targets: seq<Target>, k: nat)
    requires DistinctNames(targets) && k < |targets| && targets[k].name in db.tables
    ensures Audited(Remediated(db, role, targets), role, targets[k]).missingPolicies == []
      <==> PoliciesOnceFixed(db, targets[k])
  {
    EachTableRepaired(db, role, targets, k);
    var v := ViewOf(db, targets[k].name);
    var expected, t := ExpectedPoliciesFor(targets[k]), Repaired(v, targets[k]).t;
    var missing := Missing(expected, v.t.policies);
    if Missing(expected, t.policies) != [] {
      assert Missing(expected, t.policies)[0] in expected && Missing(expected, t.policies)[0] !in t.policies;
    }
    assert forall p :: p in Elements(missing) <==> p in missing;
  }

  /** Remediation converges: after applying what was printed, a table passes the next audit exactly when it exists,
      its index and policies can be created, and the NULL rows then counted are none. */
  lemma {:induction false} RemediationConvergesIff(db: Db, role: Role, targets: seq<Target>, k: nat)
    requires DistinctNames(targets) && k < |targets|
    ensures Audited(Remediated(db, role, targets), role, targets[k]).pass
      <==> SoundOnceFixed(db, role, targets[k]) && PoliciesOnceFixed(db, targets[k])
    ensures Audited(Remediated(db, role, targets), role, targets[k]).pass <==>
      targets[k].name in db.tables &&
      var t := db.tables[targets[k].name];
      && (t.indexed || (t.hasTenantId && !t.partitioned && IndexName(targets[k].name) !in db.relations))
      && (t.hasTenantId ||
          (TenantIsolation in t.policies && TenantInsert in t.policies &&
           (targets[k].skipUpdateDelete || (TenantUpdate in t.policies && TenantDelete in t.policies))))
      && (targets[k].nullableTenantId || !t.hasTenantId ||
          (if role == Bypasses then t.nullRows else t.exposedNulls) == 0)
    ensures Sound(Audited(Remediated(db, role, targets), role, targets[k])) <==> SoundOnceFixed(db, role, targets[k])
  {
    EachTableRepaired(db, role, targets, k);
    if targets[k].name in db.tables {
      PoliciesConvergeIff(db, role, targets, k);
      PassIff(Remediated(db, role, targets), role, targets[k]);
    }
  }

  /** So a table in good order apart from its NULL rows never converges for a role that bypasses row-level security;
      for one that does not, the script hides from the count the rows that no policy exposes, and the table passes
      with them still in it. */
  lemma {:induction false} NullRowsHiddenIff(db: Db, role: Role, targets: seq<Target>, k: nat)
    requires DistinctNames(targets) && k < |targets| && targets[k].name in db.tables
    requires Audited(db, role, targets[k]).nullTenantCount > 0
    requires var v := ViewOf(db, targets[k].name); v.t.indexed || CanIndex(v)
    requires db.tables[targets[k].name].exposedNulls <= db.tables[targets[k].name].nullRows
    ensures var after := Remediated(db, role, targets);
      targets[k].name in after.tables
      && after.tables[targets[k].name].nullRows == db.tables[targets[k].name].nullRows > 0
      && (Audited(after, role, targets[k]).pass <==> !role.Bypasses? && db.tables[targets[k].name].exposedNulls == 0)
  {
    RemediationConvergesIff(db, role, targets, k);
    EachTableRepaired(db, role, targets, k);
  }

  /** A second script has nothing for a table exactly when only NULL rows can still be wrong with it. */
  lemma {:induction false} SecondScriptIsEmptyIff(db: Db, role: Role, targets: seq<Target>, k: nat)
    requires DistinctNames(targets) && k < |targets| && targets[k].name in db.tables
    ensures Fix(Audited(Remediated(db, role, targets), role, targets[k])) == []
      <==> (ViewOf(db, targets[k].name).t.indexed || CanIndex(ViewOf(db, targets[k].name)))
           && PoliciesOnceFixed(db, targets[k])
  {
    EachTableRepaired(db, role, targets, k);
    RemediationConvergesIff(db, role, targets, k);
    var after := Remediated(db, role, targets);
    var r := Audited(after, role, targets[k]);
    var c := CreatePolicies(r.missingPolicies, r.table);
    assert |c| == 0 <==> r.missingPolicies == [];
    PoliciesConvergeIff(db, role, targets, k);
  }

  // ----- every database --------------------------------------------------------------------------------------

  /** A database to audit: what connecting finds, None if it cannot be reached, and its tables. */
  datatype DbTarget = DbTarget(connection: Option<Db>, tables: seq<Target>)

  datatype Summary = Summary(totalTables: nat, rlsEnabled: nat, rlsForced: nat, missingIndex: nat, nullTenantIds: nat,
                             pass: bool)

  function AuditedDb(role: Role, db: DbTarget): DbResult {
    if db.connection.None? then DbResult(false, []) else DbResult(true, AuditAll(db.connection.value, role, db.tables))
  }

  lemma {:induction false} PrefixGrows<T>(s: seq<T>, i: nat)
    requires i < |s|
    ensures s[..i + 1] == s[..i] + [s[i]]
  {
  }

  method AuditDatabase(role: Role, db: DbTarget) returns (r: DbResult)
    ensures r == AuditedDb(role, db)
  {
    if db.connection.None? {
      return DbResult(false, []);
    }
    var tables := [];
    for i := 0 to |db.tables|
      invariant tables == AuditAll(db.connection.value, role, db.tables)[..i]
    {
      var t := AuditTable(db.connection.value, role, db.tables[i]);
      PrefixGrows(AuditAll(db.connection.value, role, db.tables), i);
      tables := tables + [t];
    }
    r := DbResult(true, tables);
  }

  function AuditedDbs(role: Role, dbs: seq<DbTarget>): (r: seq<DbResult>)
    ensures |r| == |dbs| && forall i :: 0 <= i < |dbs| ==> r[i] == AuditedDb(role, dbs[i])
  {
    seq(|dbs|, i requires 0 <= i < |dbs| => AuditedDb(role, dbs[i]))
  }

  lemma {:induction false} InFlatMap<S(!new), T>(f: S -> seq<T>, s: seq<S>, x: T)
    ensures x in FlatMap(f, s) <==> exists k :: 0 <= k < |s| && x in f(s[k])
  {
    if s != [] {
      var rest, last := s[..|s| - 1], s[|s| - 1];
      InFlatMap(f, rest, x);
      assert FlatMap(f, s) == FlatMap(f, rest) + f(last);
      if x in f(last) {
        assert s[|s| - 1] == last;
      }
      if k :| 0 <= k < |s| && x in f(s[k]) {
        assert k < |rest| ==> rest[k] == s[k];
      }
    }
  }

  /** What is printed for a database: if it could be reached, what is printed for each of its tables, and nothing
      otherwise. */
  lemma {:induction false} ScriptIs(role: Role, db: DbTarget, st: Statement)
    ensures AuditedDb(role, db).reachable <==> db.connection.Some?
    ensures st in Script(AuditedDb(role, db)) <==>
      db.connection.Some? &&
      exists k :: 0 <= k < |db.tables| && st in Fix(Audited(db.connection.value, role, db.tables[k]))
  {
    if db.connection.Some? {
      var results := AuditAll(db.connection.value, role, db.tables);
      InFlatMap(Fix, results, st);
      if k :| 0 <= k < |results| && st in Fix(results[k]) {
        assert st in Fix(Audited(db.connection.value, role, db.tables[k]));
      }
      if k :| 0 <= k < |db.tables| && st in Fix(Audited(db.connection.value, role, db.tables[k])) {
        assert st in Fix(results[k]);
      }
    }
  }

  /** Every table result, in order. */
  function Tables(dbs: seq<DbResult>): seq<TableResult> {
    if dbs == [] then [] else Tables(dbs[..|dbs| - 1]) + dbs[|dbs| - 1].tables
  }

  lemma {:induction false} TablesSnoc(dbs: seq<DbResult>, last: DbResult)
    ensures Tables(dbs + [last]) == Tables(dbs) + last.tables
  {
    assert (dbs + [last])[..|dbs|] == dbs;
  }

  predicate IsEnabled(t: TableResult) { t.rlsEnabled }

  predicate IsForced(t: TableResult) { t.rlsForced }

  predicate LacksIndex(t: TableResult) { !t.hasTenantIndex }

  predicate HasNulls(t: TableResult) { t.nullTenantCount > 0 }

  /** How many tables a predicate holds of. */
  function Count(p: TableResult -> bool, s: seq<TableResult>): (n: nat)
    ensures n <= |s|
    ensures n == |s| <==> forall i :: 0 <= i < |s| ==> p(s[i])
    ensures n == 0 <==> forall i :: 0 <= i < |s| ==> !p(s[i])
  {
    if s == [] then 0 else Count(p, s[..|s| - 1]) + if p(s[|s| - 1]) then 1 else 0
  }

  predicate Counts(s: Summary, tables: seq<TableResult>) {
    && s.totalTables == |tables| && s.rlsEnabled == Count(IsEnabled, tables) && s.rlsForced == Count(IsForced, tables)
    && s.missingIndex == Count(LacksIndex, tables) && s.nullTenantIds == Count(HasNulls, tables)
  }

  function Counted(s: Summary, t: TableResult): Summary {
    s.(totalTables := s.totalTables + 1,
       rlsEnabled := s.rlsEnabled + if t.rlsEnabled then 1 else 0,
       rlsForced := s.rlsForced + if t.rlsForced then 1 else 0,
       missingIndex := s.missingIndex + if t.hasTenantIndex then 0 else 1,
       nullTenantIds := s.nullTenantIds + if t.nullTenantCount > 0 then 1 else 0)
  }

  lemma {:induction false} CountsOneMore(s: Summary, tables: seq<TableResult>, t: TableResult)
    requires Counts(s, tables)
    ensures Counts(Counted(s, t), tables + [t])
  {
    assert (tables + [t])[..|tables|] == tables;
  }

  method CountTables(s: Summary, tables: seq<TableResult>, ghost before: seq<TableResult>) returns (r: Summary)
    requires Counts(s, before)
    ensures Counts(r, before + tables)
  {
    r := s;
    assert before + tables[..0] == before;
    for j := 0 to |tables|
      invariant Counts(r, before + tables[..j])
    {
      CountsOneMore(r, before + tables[..j], tables[j]);
      assert before + tables[..j] + [tables[j]] == before + tables[..j + 1];
      r := Counted(r, tables[j]);
    }
    assert tables[..|tables|] == tables;
  }

  predicate Passes(s: Summary) {
    && s.totalTables > 0 && s.rlsEnabled == s.totalTables && s.rlsForced == s.totalTables
    && s.missingIndex == 0 && s.nullTenantIds == 0
  }

  /** Some table was audited, and each one, policies apart, is in order. */
  predicate AllSound(tables: seq<TableResult>) {
    tables != [] && forall i :: 0 <= i < |tables| ==> Sound(tables[i])
  }

  lemma {:induction false} PassesIff(s: Summary, tables: seq<TableResult>)
    requires Counts(s, tables)
    ensures Passes(s) <==> AllSound(tables)
  {
    if Passes(s) {
      forall i | 0 <= i < |tables| ensures Sound(tables[i]) {
        assert IsEnabled(tables[i]) && IsForced(tables[i]) && !LacksIndex(tables[i]) && !HasNulls(tables[i]);
      }
    } else if forall i :: 0 <= i < |tables| ==> Sound(tables[i]) {
      assert forall i :: 0 <= i < |tables| ==>
        IsEnabled(tables[i]) && IsForced(tables[i]) && !LacksIndex(tables[i]) && !HasNulls(tables[i]);
    }
  }

  /** The counters are the cardinalities they name, over the tables of every database that was reached. */
  method RunAudit(role: Role, dbs: seq<DbTarget>) returns (results: seq<DbResult>, summary: Summary)
    ensures results == AuditedDbs(role, dbs)
    ensures Counts(summary, Tables(results))
    ensures summary.pass <==> AllSound(Tables(results))
  {
    results, summary := [], Summary(0, 0, 0, 0, 0, false);
    for i := 0 to |dbs|
      invariant results == AuditedDbs(role, dbs)[..i]
      invariant Counts(summary, Tables(results))
    {
      results, summary := AuditNext(role, dbs, i, results, summary);
    }
    PassesIff(summary, Tables(results));
    PassDoesNotCount(summary, Tables(results), Passes(summary));
    summary := summary.(pass := Passes(summary));
  }

  method AuditNext(role: Role, dbs: seq<DbTarget>, i: nat, results: seq<DbResult>, summary: Summary)
    returns (more: seq<DbResult>, s: Summary)
    requires i < |dbs| && results == AuditedDbs(role, dbs)[..i] && Counts(summary, Tables(results))
    ensures more == AuditedDbs(role, dbs)[..i + 1] && Counts(s, Tables(more))
  {
    var r := AuditDatabase(role, dbs[i]);
    s := CountTables(summary, r.tables, Tables(results));
    TablesSnoc(results, r);
    PrefixGrows(AuditedDbs(role, dbs), i);
    more := results + [r];
  }

  lemma {:induction false} PassDoesNotCount(s: Summary, tables: seq<TableResult>, pass: bool)
    requires Counts(s, tables)
    ensures Counts(s.(pass := pass), tables)
  {
  }

  /** A database that cannot be reached leaves no trace in the summary. */
  lemma {:induction false} UnreachableIsIgnored(role: Role, before: seq<DbResult>, db: DbTarget, rest: seq<DbResult>)
    requires db.connection.None?
    ensures Tables(before + [AuditedDb(role, db)] + rest) == Tables(before + rest)
  {
    var r := AuditedDb(role, db);
    TablesConcat(before + [r], rest);
    TablesSnoc(before, r);
    TablesConcat(before, rest);
  }

  lemma {:induction false} TablesConcat(a: seq<DbResult>, b: seq<DbResult>)
    ensures Tables(a + b) == Tables(a) + Tables(b)
  {
    if b == [] {
      assert a + b == a;
    } else {
      assert (a + b)[..|a + b| - 1] == a + b[..|b| - 1];
      TablesConcat(a, b[..|b| - 1]);
    }
  }

  /** A database after its printed script was applied, if it was reached. */
  function RemediatedTarget(role: Role, db: DbTarget): DbTarget {
    match db.connection
    case None => db
    case Some(c) => DbTarget(Some(Remediated(c, role, db.tables)), db.tables)
  }

  predicate At(results: seq<DbResult>, i: int, k: int) {
    0 <= i < |results| && 0 <= k < |results[i].tables|
  }

  predicate Reached(dbs: seq<DbTarget>, i: int, k: int) {
    0 <= i < |dbs| && dbs[i].connection.Some? && 0 <= k < |dbs[i].tables|
  }

  /** The audit after the remediation sums up to PASS exactly when some table was reached and each one that was can
      be put in order. */
  lemma {:induction false} RemediatedSummaryIff(s: Summary, role: Role, dbs: seq<DbTarget>, again: seq<DbTarget>)
    requires forall i :: 0 <= i < |dbs| ==> DistinctNames(dbs[i].tables)
    requires |again| == |dbs| && forall i :: 0 <= i < |dbs| ==> again[i] == RemediatedTarget(role, dbs[i])
    requires Counts(s, Tables(AuditedDbs(role, again)))
    ensures Passes(s) <==>
      (exists i, k :: Reached(dbs, i, k)) &&
      (forall i, k :: Reached(dbs, i, k) ==> SoundOnceFixed(dbs[i].connection.value, role, dbs[i].tables[k]))
  {
    PassesIff(s, Tables(AuditedDbs(role, again)));
    EveryTable(AuditedDbs(role, again));
    forall i, k
      ensures At(AuditedDbs(role, again), i, k) <==> Reached(dbs, i, k)
      ensures Reached(dbs, i, k) ==>
        (Sound(AuditedDbs(role, again)[i].tables[k]) <==>
           SoundOnceFixed(dbs[i].connection.value, role, dbs[i].tables[k]))
    {
      EachReached(role, dbs, again, i, k);
    }
  }

  lemma {:induction false} EachReached(role: Role, dbs: seq<DbTarget>, again: seq<DbTarget>, i: int, k: int)
    requires 0 <= i < |dbs| ==> DistinctNames(dbs[i].tables)
    requires |again| == |dbs| && (0 <= i < |dbs| ==> again[i] == RemediatedTarget(role, dbs[i]))
    ensures At(AuditedDbs(role, again), i, k) <==> Reached(dbs, i, k)
    ensures Reached(dbs, i, k) ==>
      (Sound(AuditedDbs(role, again)[i].tables[k]) <==> SoundOnceFixed(dbs[i].connection.value, role, dbs[i].tables[k]))
  {
    if Reached(dbs, i, k) {
      RemediationConvergesIff(dbs[i].connection.value, role, dbs[i].tables, k);
    }
  }

  lemma {:induction false} EveryTable(results: seq<DbResult>)
    ensures AllSound(Tables(results)) <==>
      (exists i, k :: At(results, i, k)) && forall i, k :: At(results, i, k) ==> Sound(results[i].tables[k])
  {
    forall i, k | At(results, i, k) ensures results[i].tables[k] in Tables(results) {
      InTables(results, i, k);
    }
    forall i | 0 <= i < |Tables(results)|
      ensures exists j, k :: At(results, j, k) && Tables(results)[i] == results[j].tables[k]
    {
      var j, k := FromTables(results, Tables(results)[i]);
      assert At(results, j, k);
    }
    if Tables(results) != [] {
      var j, k := FromTables(results, Tables(results)[0]);
      assert At(results, j, k);
    }
  }

  lemma {:induction false} InTables(results: seq<DbResult>, i: nat, k: nat)
    requires i < |results| && k < |results[i].tables|
    ensures results[i].tables[k] in Tables(results)
  {
    if i < |results| - 1 {
      InTables(results[..|results| - 1], i, k);
    }
  }

  lemma {:induction false} FromTables(results: seq<DbResult>, t: TableResult) returns (i: nat, k: nat)
    requires t in Tables(results)
    ensures i < |results| && k < |results[i].tables| && results[i].tables[k] == t
  {
    var n := |results| - 1;
    if t in results[n].tables {
      i := n;
      k :| k < |results[n].tables| && results[n].tables[k] == t;
    } else {
      i, k := FromTables(results[..n], t);
    }
  }

  /** The table exists, is protected and indexed, and shows the auditing role no NULL rows that must not be there. */
  predicate Protected(db: Db, role: Role, tbl: Target) {
    tbl.name in db.tables &&
    var t := db.tables[tbl.name];
    t.rlsEnabled && t.rlsForced && t.indexed && CountedNulls(role, tbl, t) == 0
  }

  predicate LacksPolicy(db: Db, tbl: Target) {
    tbl.name !in db.tables || exists p <- ExpectedPoliciesFor(tbl) :: p !in db.tables[tbl.name].policies
  }

  lemma {:induction false} AuditFinds(db: Db, role: Role, tbl: Target)
    ensures Sound(Audited(db, role, tbl)) <==> Protected(db, role, tbl)
    ensures Audited(db, role, tbl).missingPolicies != [] <==> LacksPolicy(db, tbl)
    ensures Audited(db, role, tbl).pass <==> Protected(db, role, tbl) && !LacksPolicy(db, tbl)
  {
    var expected, r := ExpectedPoliciesFor(tbl), Audited(db, role, tbl);
    if r.missingPolicies != [] {
      assert r.missingPolicies[0] in r.missingPolicies;
    }
    if tbl.name !in db.tables {
      assert expected[0] in Missing(expected, {});
    }
  }

  /** The summary says PASS exactly when some table was reached and each one that was is protected. */
  lemma {:induction false} SummaryPassesIff(s: Summary, role: Role, dbs: seq<DbTarget>)
    requires Counts(s, Tables(AuditedDbs(role, dbs)))
    ensures Passes(s) <==>
      (exists i, k :: Reached(dbs, i, k)) &&
      (forall i, k :: Reached(dbs, i, k) ==> Protected(dbs[i].connection.value, role, dbs[i].tables[k]))
  {
    var results := AuditedDbs(role, dbs);
    PassesIff(s, Tables(results));
    EveryTable(results);
    forall i, k
      ensures At(results, i, k) <==> Reached(dbs, i, k)
      ensures Reached(dbs, i, k) ==>
        (Sound(results[i].tables[k]) <==> Protected(dbs[i].connection.value, role, dbs[i].tables[k]))
    {
      if Reached(dbs, i, k) {
        AuditFinds(dbs[i].connection.value, role, dbs[i].tables[k]);
      }
    }
  }

  /** The summary says PASS although some table fails exactly when every table that was reached is protected and some
      one lacks a policy expected on it. */
  lemma {:induction false} SummaryMissesPoliciesIff(s: Summary, role: Role, dbs: seq<DbTarget>)
    requires Counts(s, Tables(AuditedDbs(role, dbs)))
    ensures Passes(s) && (exists t <- Tables(AuditedDbs(role, dbs)) :: !t.pass)
      <==> && (forall i, k :: Reached(dbs, i, k) ==> Protected(dbs[i].connection.value, role, dbs[i].tables[k]))
           && exists i, k :: Reached(dbs, i, k) && LacksPolicy(dbs[i].connection.value, dbs[i].tables[k])
  {
    var results := AuditedDbs(role, dbs);
    SummaryPassesIff(s, role, dbs);
    if t :| t in Tables(results) && !t.pass {
      var i, k := FromTables(results, t);
      assert Reached(dbs, i, k);
      AuditFinds(dbs[i].connection.value, role, dbs[i].tables[k]);
    }
    if i, k :| Reached(dbs, i, k) && LacksPolicy(dbs[i].connection.value, dbs[i].tables[k]) {
      InTables(results, i, k);
      AuditFinds(dbs[i].connection.value, role, dbs[i].tables[k]);
    }
  }

  const NO_POLICIES := Db(map["t" := Table(false, true, true, true, true, 0, 0, {})], {})

  /** One database with one table, protected but without a single policy: the summary says PASS, and no table passes. */
  lemma {:induction false} NoPoliciesExample(s: Summary, role: Role, dbs: seq<DbTarget>)
    requires dbs == [DbTarget(Some(NO_POLICIES), [Target("t", false, false)])]
    requires Counts(s, Tables(AuditedDbs(role, dbs)))
    ensures Passes(s) && forall t <- Tables(AuditedDbs(role, dbs)) :: !t.pass
  {
    var tbl := dbs[0].tables[0];
    assert Reached(dbs, 0, 0);
    assert TenantIsolation in ExpectedPoliciesFor(tbl);
    AuditFinds(NO_POLICIES, role, tbl);
    SummaryPassesIff(s, role, dbs);
    forall t | t in Tables(AuditedDbs(role, dbs)) ensures !t.pass {
      var i, k := FromTables(AuditedDbs(role, dbs), t);
    }
  }
}
