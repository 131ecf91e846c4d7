/** The tenant-isolation audit and the remediation it prints (backend/cmd/audit-isolation/main.go). */
module IsolationAudit {

  // ----- a database ------------------------------------------------------------------------------------------

  datatype Policy = TenantIsolation | TenantInsert | TenantUpdate | TenantDelete | OtherPolicy(name: string)

  /** A table as the catalog shows it.  `indexed` says that some index definition on it is LIKE '%tenant_id%';
      `nullRows` are its rows without a tenant, and `exposedNulls` those of them that its policies let a role under
      row-level security see. */
  datatype Table = Table(partitioned: bool, hasTenantId: bool, rlsEnabled: bool, rlsForced: bool, indexed: bool,
                         nullRows: nat, exposedNulls: nat, policies: set<Policy>)

  /** The names of a schema's relations: "idx_" + of + "_tenant_id", or any other. */
  datatype Relation = TenantIdIndex(of: string) | OtherRelation(name: string)

  datatype Db = Db(tables: map<string, Table>, relations: set<Relation>)

  /** How the auditing role stands to row-level security. */
  datatype Role = Bypasses | Owner | Other

  predicate Subject(role: Role, t: Table) {
    match role
    case Bypasses => false
    case Owner => t.rlsEnabled && t.rlsForced
    case Other => t.rlsEnabled
  }

  // ----- auditing --------------------------------------------------------------------------------------------

  datatype Target = Target(name: string, nullableTenantId: bool, skipUpdateDelete: bool)

  datatype TableResult = TableResult(table: string, rlsEnabled: bool, rlsForced: bool, hasTenantIndex: bool,
                                     nullTenantCount: nat,
                                     missingPolicies: seq<Policy>, pass: bool)

  function ExpectedPoliciesFor(tbl: Target): seq<Policy> {
    if tbl.skipUpdateDelete then [TenantIsolation, TenantInsert]
    else [TenantIsolation, TenantInsert, TenantUpdate, TenantDelete]
  }

  function Missing(expected: seq<Policy>, policies: set<Policy>): (m: seq<Policy>)
    ensures forall p :: p in m <==> p in expected && p !in policies
  {
    if expected == [] then []
    else
      var last := expected[|expected| - 1];
      Missing(expected[..|expected| - 1], policies) + if last in policies then [] else [last]
  }

  /** The NULL rows the count sees.  A count that fails, for want of the table or the column, leaves zero. */
  function CountedNulls(role: Role, tbl: Target, t: Table): nat {
    if tbl.nullableTenantId || !t.hasTenantId then 0 else if Subject(role, t) then t.exposedNulls else t.nullRows
  }

  /** What the audit checks of a table besides its policies. */
  predicate Sound(r: TableResult) {
    r.rlsEnabled && r.rlsForced && r.hasTenantIndex && r.nullTenantCount == 0
  }

  function AuditedTable(role: Role, tbl: Target, t: Table): (r: TableResult)
    ensures r.pass <==> Sound(r) && r.missingPolicies == []
  {
    var missing, nulls := Missing(ExpectedPoliciesFor(tbl), t.policies), CountedNulls(role, tbl, t);
    TableResult(tbl.name, t.rlsEnabled, t.rlsForced, t.indexed, nulls, missing,
                t.rlsEnabled && t.rlsForced && t.indexed && nulls == 0 && missing == [])
  }

  function Audited(db: Db, role: Role, tbl: Target): TableResult {
    if tbl.name in db.tables then AuditedTable(role, tbl, db.tables[tbl.name])
    else TableResult(tbl.name, false, false, false, 0, Missing(ExpectedPoliciesFor(tbl), {}), false)
  }

  /** Every table needs the isolation and the insert policy, and one whose rows may be updated and deleted also those
      for that. */
  lemma {:induction false} NeededPolicies(tbl: Target, p: Policy)
    ensures p in ExpectedPoliciesFor(tbl) <==>
      p == TenantIsolation || p == TenantInsert || (!tbl.skipUpdateDelete && (p == TenantUpdate || p == TenantDelete))
  {
  }

  /** What a pass means: the table exists and is protected, each policy it needs is there, and the rows without a
      tenant, where there may be none, are none or all hidden from the auditing role. */
  lemma {:induction false} PassIff(db: Db, role: Role, tbl: Target)
    ensures Audited(db, role, tbl).pass <==>
      tbl.name in db.tables &&
      var t := db.tables[tbl.name];
      && t.rlsEnabled && t.rlsForced && t.indexed
      && TenantIsolation in t.policies && TenantInsert in t.policies
      && (tbl.skipUpdateDelete || (TenantUpdate in t.policies && TenantDelete in t.policies))
      && (tbl.nullableTenantId || !t.hasTenantId || (if role.Bypasses? then t.nullRows else t.exposedNulls) == 0)
  {
    if tbl.name in db.tables {
      var missing := Missing(ExpectedPoliciesFor(tbl), db.tables[tbl.name].policies);
      if missing != [] {
        assert missing[0] in missing;
        NeededPolicies(tbl, missing[0]);
      } else {
        NeededPolicies(tbl, TenantIsolation);
        NeededPolicies(tbl, TenantInsert);
        NeededPolicies(tbl, TenantUpdate);
        NeededPolicies(tbl, TenantDelete);
      }
    }
  }

  /** The NULL rows reported: none where there may be some or there is no such column, and else those that the role
      sees; it sees all, unless it is subject to row-level security, and then those a policy lets it see.  The owner of
      a table is subject only if that is forced. */
  lemma {:induction false} NullsReported(db: Db, role: Role, tbl: Target)
    requires tbl.name in db.tables
    ensures var t := db.tables[tbl.name];
      Audited(db, role, tbl).nullTenantCount
      == if tbl.nullableTenantId || !t.hasTenantId then 0
         else if t.rlsEnabled && (role == Other || (role == Owner && t.rlsForced)) then t.exposedNulls
         else t.nullRows
  {
  }

  method MissingPolicies(expected: seq<Policy>, policies: set<Policy>) returns (missing: seq<Policy>)
    ensures missing == Missing(expected, policies)
  {
    missing := [];
    for i := 0 to |expected|
      invariant missing == Missing(expected[..i], policies)
    {
      assert expected[..i + 1][..i] == expected[..i];
      if expected[i] !in policies {
        missing := missing + [expected[i]];
      }
    }
    assert expected[..|expected|] == expected;
  }

  method AuditTable(db: Db, role: Role, tbl: Target) returns (r: TableResult)
    ensures r == Audited(db, role, tbl)
  {
    var rlsEnabled, rlsForced, hasIndex, nulls, policies := false, false, false, 0, {};
    if tbl.name in db.tables {
      var t := db.tables[tbl.name];
      rlsEnabled, rlsForced, hasIndex, policies := t.rlsEnabled, t.rlsForced, t.indexed, t.policies;
      if !tbl.nullableTenantId && t.hasTenantId {
        nulls := if Subject(role, t) then t.exposedNulls else t.nullRows;
      }
    }
    var missing := MissingPolicies(ExpectedPoliciesFor(tbl), policies);
    r := TableResult(tbl.name, rlsEnabled, rlsForced, hasIndex, nulls, missing,
                     rlsEnabled && rlsForced && hasIndex && nulls == 0 && |missing| == 0);
  }

  // ----- remediation -----------------------------------------------------------------------------------------

  datatype Statement =
    | EnableRls(table: string)
    | ForceRls(table: string)
    | CreatePolicy(policy: Policy, table: string)
    | CreateIndex(table: string)

  function CreatePolicies(missing: seq<Policy>, table: string): seq<Statement> {
    if missing == [] then []
    else CreatePolicies(missing[..|missing| - 1], table) + [CreatePolicy(missing[|missing| - 1], table)]
  }

  /** What is printed for one table: nothing if it passed, else one statement for each thing that is wrong, except
      for its NULL rows. */
  function Fix(r: TableResult): seq<Statement> {
    if r.pass then []
    else
      (if r.rlsEnabled then [] else [EnableRls(r.table)]) + (if r.rlsForced then [] else [ForceRls(r.table)])
      + CreatePolicies(r.missingPolicies, r.table) + (if r.hasTenantIndex then [] else [CreateIndex(r.table)])
  }

  lemma {:induction false} PoliciesPrinted(missing: seq<Policy>, table: string, st: Statement)
    ensures st in CreatePolicies(missing, table) <==>
      st.CreatePolicy? && st.policy in missing && st.table == table
  {
    if missing != [] {
      var rest, last := missing[..|missing| - 1], missing[|missing| - 1];
      PoliciesPrinted(rest, table, st);
      assert missing == rest + [last];
    }
  }

  lemma {:induction false} StatementsOf(r: TableResult, st: Statement)
    ensures st in Fix(r) <==>
      && !r.pass && st.table == r.table
      && match st
         case EnableRls(_) => !r.rlsEnabled
         case ForceRls(_) => !r.rlsForced
         case CreateIndex(_) => !r.hasTenantIndex
         case CreatePolicy(p, _) => p in r.missingPolicies
  {
    PoliciesPrinted(r.missingPolicies, r.table, st);
  }

  /** What is printed for a table: nothing if it passes, else a statement for each thing that it lacks. */
  lemma {:induction false} Printed(db: Db, role: Role, tbl: Target, st: Statement)
    ensures st in Fix(Audited(db, role, tbl)) <==>
      && !Audited(db, role, tbl).pass && st.table == tbl.name
      && var exists' := tbl.name in db.tables;
         match st
         case EnableRls(_) => !exists' || !db.tables[tbl.name].rlsEnabled
         case ForceRls(_) => !exists' || !db.tables[tbl.name].rlsForced
         case CreateIndex(_) => !exists' || !db.tables[tbl.name].indexed
         case CreatePolicy(p, _) =>
           && (p == TenantIsolation || p == TenantInsert ||
               (!tbl.skipUpdateDelete && (p == TenantUpdate || p == TenantDelete)))
           && (!exists' || p !in db.tables[tbl.name].policies)
  {
    StatementsOf(Audited(db, role, tbl), st);
    if st.CreatePolicy? {
      NeededPolicies(tbl, st.policy);
    }
  }

  function FlatMap<S, T>(f: S -> seq<T>, s: seq<S>): seq<T> {
    if s == [] then [] else FlatMap(f, s[..|s| - 1]) + f(s[|s| - 1])
  }

  function FixAll(results: seq<TableResult>): seq<Statement> {
    FlatMap(Fix, results)
  }

  lemma {:induction false} NothingToFix(results: seq<TableResult>)
    requires forall i :: 0 <= i < |results| ==> results[i].pass
    ensures FixAll(results) == []
  {
    if results != [] {
      NothingToFix(results[..|results| - 1]);
    }
  }

  datatype DbResult = DbResult(reachable: bool, tables: seq<TableResult>)

  function Script(d: DbResult): (script: seq<Statement>)
    ensures !d.reachable ==> script == []
  {
    if d.reachable then FixAll(d.tables) else []
  }

  /** The statements printed, database by database. */
  method PrintRemediationSql(dbs: seq<DbResult>) returns (scripts: seq<seq<Statement>>)
    ensures |scripts| == |dbs|
    ensures forall i :: 0 <= i < |dbs| ==> scripts[i] == Script(dbs[i])
  {
    scripts := [];
    for i := 0 to |dbs|
      invariant |scripts| == i
      invariant forall k :: 0 <= k < i ==> scripts[k] == Script(dbs[k])
    {
      var script := [];
      if dbs[i].reachable {
        script := PrintTables(dbs[i].tables);
      }
      scripts := scripts + [script];
    }
  }

  method PrintTables(tables: seq<TableResult>) returns (script: seq<Statement>)
    ensures script == FixAll(tables)
  {
    script := [];
    var needsWork := false;
    for i := 0 to |tables|
      invariant !needsWork && forall k :: 0 <= k < i ==> tables[k].pass
    {
      if !tables[i].pass {
        needsWork := true;
        break;
      }
    }
    if !needsWork {
      NothingToFix(tables);
      return;
    }
    for i := 0 to |tables|
      invariant script == FixAll(tables[..i])
    {
      assert tables[..i + 1][..i] == tables[..i];
      if tables[i].pass {
        continue;
      }
      var statements := PrintTable(tables[i]);
      script := script + statements;
    }
    assert tables[..|tables|] == tables;
  }

  method PrintTable(t: TableResult) returns (script: seq<Statement>)
    requires !t.pass
    ensures script == Fix(t)
  {
    script := [];
    if !t.rlsEnabled {
      script := script + [EnableRls(t.table)];
    }
    if !t.rlsForced {
      script := script + [ForceRls(t.table)];
    }
    var policies := PrintPolicies(t.missingPolicies, t.table);
    script := script + policies;
    if !t.hasTenantIndex {
      script := script + [CreateIndex(t.table)];
    }
  }

  method PrintPolicies(missing: seq<Policy>, table: string) returns (script: seq<Statement>)
    ensures script == CreatePolicies(missing, table)
  {
    script := [];
    for p := 0 to |missing|
      invariant script == CreatePolicies(missing[..p], table)
    {
      assert missing[..p + 1][..p] == missing[..p];
      script := script + [CreatePolicy(missing[p], table)];
    }
    assert missing[..|missing|] == missing;
  }
}
