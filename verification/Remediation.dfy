/** What applying the printed remediation does to the next audit (backend/cmd/audit-isolation/main.go:477-553). */
module Remediation {
  import opened IsolationAudit

  // ----- executing a script ----------------------------------------------------------------------------------

  function ReplaceDots(s: string): (r: string)
    ensures '.' !in s ==> r == s
  {
    seq(|s|, i requires 0 <= i < |s| => if s[i] == '.' then '_' else s[i])
  }

  function IndexName(table: string): Relation {
    TenantIdIndex(ReplaceDots(table))
  }

  /** A table, and whether the name its index would get is taken. */
  datatype View = View(t: Table, taken: bool)

  function ViewOf(db: Db, name: string): View
    requires name in db.tables
  {
    View(db.tables[name], IndexName(name) in db.relations)
  }

  predicate CanIndex(v: View) {
    v.t.hasTenantId && !v.t.partitioned && !v.taken
  }

  /** What a statement does to its table.  One that fails changes nothing: a policy that exists already, a policy or an
      index over a column that does not, an index built concurrently on a partitioned table; and an index whose name
      is taken is skipped. */
  function Effect(v: View, st: Statement): View {
    match st
    case EnableRls(_) => v.(t := v.t.(rlsEnabled := true))
    case ForceRls(_) => v.(t := v.t.(rlsForced := true))
    case CreatePolicy(p, _) => if v.t.hasTenantId then v.(t := v.t.(policies := v.t.policies + {p})) else v
    case CreateIndex(_) => if CanIndex(v) then View(v.t.(indexed := true), true) else v
  }

  function Exec(db: Db, st: Statement): Db {
    if st.table !in db.tables then db
    else
      var v := Effect(ViewOf(db, st.table), st);
      Db(db.tables[st.table := v.t], db.relations + if v.taken then {IndexName(st.table)} else {})
  }

  function ExecAll(db: Db, script: seq<Statement>): Db {
    if script == [] then db else Exec(ExecAll(db, script[..|script| - 1]), script[|script| - 1])
  }

  function EffectAll(v: View, script: seq<Statement>): View {
    if script == [] then v else Effect(EffectAll(v, script[..|script| - 1]), script[|script| - 1])
  }

  /** The index definition PostgreSQL would show, and the audit's LIKE '%tenant_id%', whose underscore stands for any
      character. */
  function IndexDef(name: string, table: string): string {
    "CREATE INDEX " + name + " ON public." + table + " USING btree (tenant_id)"
  }

  predicate TenantIdAt(def: string, i: int) {
    0 <= i && i + 9 <= |def| && def[i..i + 6] == "tenant" && def[i + 7..i + 9] == "id"
  }

  ghost predicate LikeTenantId(def: string) {
    exists i :: TenantIdAt(def, i)
  }

  /** So a created index is one that the audit finds. */
  lemma {:induction false} CreatedIndexIsFound(name: string, table: string)
    ensures LikeTenantId(IndexDef(name, table))
  {
    var head := "CREATE INDEX " + name + " ON public." + table + " USING btree (";
    var def := IndexDef(name, table);
    assert def == head + "tenant_id)";
    assert TenantIdAt(def, |head|);
  }

  lemma {:induction false} EffectConcat(v: View, a: seq<Statement>, b: seq<Statement>)
    ensures EffectAll(v, a + b) == EffectAll(EffectAll(v, a), b)
  {
    if b == [] {
      assert a + b == a;
    } else {
      assert (a + b)[..|a + b| - 1] == a + b[..|b| - 1];
      EffectConcat(v, a, b[..|b| - 1]);
    }
  }

  lemma {:induction false} ExecConcat(db: Db, a: seq<Statement>, b: seq<Statement>)
    ensures ExecAll(db, a + b) == ExecAll(ExecAll(db, a), b)
  {
    if b == [] {
      assert a + b == a;
    } else {
      assert (a + b)[..|a + b| - 1] == a + b[..|b| - 1];
      ExecConcat(db, a, b[..|b| - 1]);
    }
  }

  /** Statements for one table act on that table alone. */
  lemma {:induction false} OwnStatements(db: Db, script: seq<Statement>, name: string)
    requires name in db.tables && forall i :: 0 <= i < |script| ==> script[i].table == name
    ensures name in ExecAll(db, script).tables
    ensures ViewOf(ExecAll(db, script), name) == EffectAll(ViewOf(db, name), script)
  {
    if script != [] {
      OwnStatements(db, script[..|script| - 1], name);
    }
  }

  /** And leave every other alone, index names included, as long as table names have no dots. */
  lemma {:induction false} OtherStatements(db: Db, script: seq<Statement>, name: string)
    requires '.' !in name
    requires forall i :: 0 <= i < |script| ==> script[i].table != name && '.' !in script[i].table
    ensures name in ExecAll(db, script).tables <==> name in db.tables
    ensures name in db.tables ==> ViewOf(ExecAll(db, script), name) == ViewOf(db, name)
  {
    if script != [] {
      OtherStatements(db, script[..|script| - 1], name);
    }
  }

  // ----- one table -------------------------------------------------------------------------------------------

  function Elements(s: seq<Policy>): set<Policy> {
    set p | p in s
  }

  function WithPolicies(v: View, missing: seq<Policy>): View {
    if v.t.hasTenantId then v.(t := v.t.(policies := v.t.policies + Elements(missing))) else v
  }

  lemma {:induction false} ElementsSnoc(s: seq<Policy>, last: Policy)
    ensures Elements(s + [last]) == Elements(s) + {last}
  {
  }

  lemma {:induction false} OneMorePolicy(v: View, rest: seq<Policy>, last: Policy, table: string)
    ensures Effect(WithPolicies(v, rest), CreatePolicy(last, table)) == WithPolicies(v, rest + [last])
  {
    ElementsSnoc(rest, last);
    assert v.t.policies + Elements(rest) + {last} == v.t.policies + (Elements(rest) + {last});
  }

  lemma {:induction false} PoliciesCreated(v: View, missing: seq<Policy>, table: string)
    ensures EffectAll(v, CreatePolicies(missing, table)) == WithPolicies(v, missing)
  {
    if missing == [] {
      assert v.t.policies + Elements(missing) == v.t.policies;
    } else {
      var rest, last := missing[..|missing| - 1], missing[|missing| - 1];
      PoliciesCreated(v, rest, table);
      OneMorePolicy(v, rest, last, table);
      assert rest + [last] == missing;
      var before := CreatePolicies(rest, table);
      assert CreatePolicies(missing, table) == before + [CreatePolicy(last, table)];
      assert (before + [CreatePolicy(last, table)])[..|before|] == before;
    }
  }

  /** Everything repaired that the statements can repair: all but NULL rows, policies without a column to check, and
      an index that cannot be built. */
  function Repaired(v: View, tbl: Target): View {
    var missing := if v.t.hasTenantId then Elements(Missing(ExpectedPoliciesFor(tbl), v.t.policies)) else {};
    View(v.t.(rlsEnabled := true, rlsForced := true, policies := v.t.policies + missing,
              indexed := v.t.indexed || CanIndex(v)),
         v.taken || (!v.t.indexed && CanIndex(v)))
  }

  lemma {:induction false} AtMostOne(v: View, script: seq<Statement>)
    requires |script| <= 1
    ensures EffectAll(v, script) == if script == [] then v else Effect(v, script[0])
  {
    if script != [] {
      assert script[..0] == [] && EffectAll(v, []) == v;
    }
  }

  function Flags(v: View, x: string): seq<Statement> {
    (if v.t.rlsEnabled then [] else [EnableRls(x)]) + (if v.t.rlsForced then [] else [ForceRls(x)])
  }

  lemma {:induction false} FlagsSet(v: View, x: string)
    ensures EffectAll(v, Flags(v, x)) == v.(t := v.t.(rlsEnabled := true, rlsForced := true))
  {
    var a := if v.t.rlsEnabled then [] else [EnableRls(x)];
    var b := if v.t.rlsForced then [] else [ForceRls(x)];
    EffectConcat(v, a, b);
    AtMostOne(v, a);
    AtMostOne(EffectAll(v, a), b);
  }

  lemma {:induction false} IndexBuilt(v: View, x: string)
    ensures EffectAll(v, if v.t.indexed then [] else [CreateIndex(x)])
         == if v.t.indexed || !CanIndex(v) then v else View(v.t.(indexed := true), true)
  {
    AtMostOne(v, if v.t.indexed then [] else [CreateIndex(x)]);
  }

  lemma {:induction false} StagesRepair(v: View, missing: seq<Policy>, x: string)
    ensures var u := WithPolicies(v.(t := v.t.(rlsEnabled := true, rlsForced := true)), missing);
      EffectAll(v, Flags(v, x) + CreatePolicies(missing, x) + if v.t.indexed then [] else [CreateIndex(x)])
        == if v.t.indexed || !CanIndex(v) then u else View(u.t.(indexed := true), true)
  {
    var c, d := CreatePolicies(missing, x), if v.t.indexed then [] else [CreateIndex(x)];
    EffectConcat(v, Flags(v, x) + c, d);
    EffectConcat(v, Flags(v, x), c);
    FlagsSet(v, x);
    var u := EffectAll(v, Flags(v, x));
    PoliciesCreated(u, missing, x);
    IndexBuilt(EffectAll(u, c), x);
  }

  lemma {:induction false} FixRepairs(role: Role, tbl: Target, v: View)
    ensures EffectAll(v, Fix(AuditedTable(role, tbl, v.t))) == Repaired(v, tbl)
  {
    var r := AuditedTable(role, tbl, v.t);
    assert v.t.policies + {} == v.t.policies;
    if r.pass {
      assert Elements(r.missingPolicies) == {};
    } else {
      StagesRepair(v, r.missingPolicies, tbl.name);
      assert Fix(r) == Flags(v, tbl.name) + CreatePolicies(r.missingPolicies, tbl.name)
                       + if v.t.indexed then [] else [CreateIndex(tbl.name)];
    }
  }
}
