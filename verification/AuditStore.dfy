/** The audit tables and the cached chain tails, with the two programs that write them: the rebaseline tool
    (backend/cmd/audit-rebaseline/main.go) and batch ingestion (backend/internal/audit/service/audit_service.go). */
module AuditStore {
  import opened Ordering
  import opened EntryHashing
  import opened AuditChain
  import opened Rebaselining

  /** The audit_logs rows, the audit_chain_state table, and the Redis copy of each tenant's last hash. */
  datatype Db = Db(rows: seq<Row>, state: map<string, Tail>, cache: map<string, string>)

  // ----- what the columns make of an entry -------------------------------------------------------------------

  /** What a UUID and a JSONB column give back for a text stored in them, the JSON compacted: one spelling for each
      UUID, and one key order, one occurrence of each key and one escaping for each JSON value. */
  datatype Columns = Columns(uuid: string -> string, json: string -> string)

  /** Storing what was read back changes nothing, and NULL stays NULL. */
  ghost predicate NormalForm(c: Columns) {
    && (forall x :: c.uuid(c.uuid(x)) == c.uuid(x) && c.json(c.json(x)) == c.json(x))
    && c.uuid("") == "" && c.json("") == ""
  }

  /** An entry as it is read back.  Its id is generated in the column's spelling. */
  function Stored(c: Columns, e: Entry): Entry {
    e.(tenant := c.uuid(e.tenant), user := c.uuid(e.user),
       oldValue := c.json(e.oldValue), newValue := c.json(e.newValue))
  }

  function StoredRow(c: Columns, r: Row): Row {
    r.(entry := Stored(c, r.entry))
  }

  function StoredRows(c: Columns, rows: seq<Row>): (r: seq<Row>)
    ensures |r| == |rows| && forall i :: 0 <= i < |rows| ==> r[i] == StoredRow(c, rows[i])
  {
    seq(|rows|, i requires 0 <= i < |rows| => StoredRow(c, rows[i]))
  }

  // ----- appending -------------------------------------------------------------------------------------------

  /** The hash the next batch of a tenant chains from: the cached one, else the stored one, else genesis.  The cache
      goes by the tenant's text as it came, the table by its UUID. */
  function LastHash(c: Columns, db: Db, tenant: string): string {
    if tenant in db.cache then db.cache[tenant]
    else if c.uuid(tenant) in db.state then db.state[c.uuid(tenant)].hash
    else GENESIS
  }

  /** A batch of one tenant, sorted and chained onto the last hash. */
  function Chained(c: Columns, h: Hasher, db: Db, tenant: string, batch: seq<Entry>): (r: seq<Row>)
    ensures |r| == |batch|
  {
    ChainRows(h, LastHash(c, db, tenant), Sort(batch, EntryLeq))
  }

  /** The rows it leaves: hashed over the text as it came, and read back in the columns' form. */
  function NewRows(c: Columns, h: Hasher, db: Db, tenant: string, batch: seq<Entry>): seq<Row> {
    StoredRows(c, Chained(c, h, db, tenant, batch))
  }

  function Appended(c: Columns, h: Hasher, db: Db, tenant: string, batch: seq<Entry>): Db
    requires batch != []
  {
    var chained := Chained(c, h, db, tenant, batch);
    Db(db.rows + NewRows(c, h, db, tenant, batch), db.state[c.uuid(tenant) := TailOf(chained)],
       db.cache[tenant := chained[|chained| - 1].hash])
  }

  /** The rows of entries with these ids. */
  function Kept(rows: seq<Row>, ids: set<string>): seq<Row> {
    if rows == [] then []
    else
      var rest, r := rows[..|rows| - 1], rows[|rows| - 1];
      if r.entry.id in ids then Kept(rest, ids) + [r] else Kept(rest, ids)
  }

  /** The same when only rows with these ids are inserted: the tails move on all the same. */
  function Flushed(c: Columns, h: Hasher, db: Db, tenant: string, batch: seq<Entry>, inserted: set<string>): Db
    requires batch != []
  {
    Appended(c, h, db, tenant, batch).(rows := db.rows + Kept(NewRows(c, h, db, tenant, batch), inserted))
  }

  // ----- the programs ----------------------------------------------------------------------------------------

  class Store {
    var rows: seq<Row>
    var state: map<string, Tail>
    var cache: map<string, string>

    ghost function Abs(): Db
      reads this
    {
      Db(rows, state, cache)
    }

    /** Recompute every tenant's chain and, if asked to, write it back and refresh the chain state. */
    method Rebaseline(h: Hasher, apply: bool)
      modifies this`rows, this`state
      ensures !apply ==> Abs() == old(Abs())
      ensures apply ==> JoinUpdate(h, old(rows), rows) && StateRefreshed(h, Entries(old(rows)), old(state), state)
    {
      var triples, lasts := RecomputeAll(h, Entries(rows));
      if !apply {
        return;
      }
      EachRowHasTriple(h, rows);
      RefreshedState(h, Entries(rows), state, lasts);
      rows := UpdateFrom(rows, triples);
      state := state + lasts;
    }

    /** One tenant's share of a batch, when the tails can be read and written: `inserted` are the ids of the entries
        whose rows the database takes, none if the insert fails, else all but those the unique index drops. */
    method AppendBatch(c: Columns, h: Hasher, tenant: string, batch: seq<Entry>, inserted: set<string>)
      requires batch != []
      modifies this
      ensures Abs() == Flushed(c, h, old(Abs()), tenant, batch, inserted)
      ensures var last := Sort(batch, EntryLeq)[|batch| - 1];
        tenant in cache && state == old(state)[c.uuid(tenant) := Tail(last.id, cache[tenant], last.createdAt)] &&
        cache == old(cache)[tenant := cache[tenant]]
    {
      var previousHash;
      if tenant in cache {
        previousHash := cache[tenant];
      } else if c.uuid(tenant) in state {
        previousHash := state[c.uuid(tenant)].hash;
      } else {
        previousHash := GENESIS;
      }
      var chained := ChainBatch(h, previousHash, Sort(batch, EntryLeq));
      var last := chained[|chained| - 1];
      state := state[c.uuid(tenant) := Tail(last.entry.id, last.hash, last.entry.createdAt)];
      cache := cache[tenant := last.hash];
      var taken := BatchInsert(StoredRows(c, chained), inserted);
      rows := rows + taken;
    }
  }

  /** INSERT ... ON CONFLICT DO NOTHING */
  method BatchInsert(rows: seq<Row>, inserted: set<string>) returns (taken: seq<Row>)
    ensures taken == Kept(rows, inserted)
  {
    taken := [];
    for i := 0 to |rows|
      invariant taken == Kept(rows[..i], inserted)
    {
      assert rows[..i + 1][..i] == rows[..i];
      if rows[i].entry.id in inserted {
        taken := taken + [rows[i]];
      }
    }
    assert rows[..|rows|] == rows;
  }

  /** The loop that chains a sorted batch. */
  method ChainBatch(h: Hasher, start: string, entries: seq<Entry>) returns (chained: seq<Row>)
    ensures chained == ChainRows(h, start, entries)
  {
    chained := [];
    var previousHash := start;
    for i := 0 to |entries|
      invariant chained == ChainRows(h, start, entries[..i])
      invariant previousHash == ChainHash(h, start, entries[..i])
    {
      assert entries[..i + 1][..i] == entries[..i];
      var entryHash := h(entries[i], previousHash);
      chained := chained + [Row(entries[i], previousHash, entryHash)];
      previousHash := entryHash;
    }
    assert entries[..|entries|] == entries;
  }

  // ----- the parts of the rebaseline -------------------------------------------------------------------------

  ghost predicate HasTriple(triples: seq<Triple>, id: string) {
    exists x :: x in triples && x.id == id
  }

  ghost predicate TailsOf(h: Hasher, es: seq<Entry>, tenants: seq<string>, lasts: map<string, Tail>) {
    && (forall t :: t in lasts <==> t in tenants)
    && (forall t :: t in lasts ==> Ordered(es, t) != [] && lasts[t] == TailOf(TenantChain(h, es, t)))
  }

  /** The per-tenant loop. */
  method RecomputeAll(h: Hasher, es: seq<Entry>) returns (triples: seq<Triple>, lasts: map<string, Tail>)
    ensures triples == AllTriples(h, es, Sort(Tenants(es), StringLeq))
    ensures TailsOf(h, es, Sort(Tenants(es), StringLeq), lasts)
  {
    var tenants := Sort(Tenants(es), StringLeq);
    triples, lasts := [], map[];
    for i := 0 to |tenants|
      invariant triples == AllTriples(h, es, tenants[..i])
      invariant TailsOf(h, es, tenants[..i], lasts)
    {
      var tid := tenants[i];
      TakeNext(tenants, i);
      ListedTenantHasEntries(es, tid);
      var own, last := RecomputeTenant(h, es, tid);
      TailsOfNext(h, es, tenants[..i], tid, lasts, last);
      triples := triples + own;
      lasts := lasts[tid := last];
    }
    assert tenants[..|tenants|] == tenants;
  }

  lemma {:induction false} TakeNext<T>(s: seq<T>, i: nat)
    requires i < |s|
    ensures s[..i + 1] == s[..i] + [s[i]] && s[..i + 1][..i] == s[..i]
  {
  }

  lemma {:induction false} ChainGrows(h: Hasher, es: seq<Entry>, i: nat)
    requires i < |es|
    ensures ChainHash(h, GENESIS, es[..i + 1]) == h(es[i], ChainHash(h, GENESIS, es[..i]))
    ensures ChainRows(h, GENESIS, es[..i + 1])
         == ChainRows(h, GENESIS, es[..i])
            + [Row(es[i], ChainHash(h, GENESIS, es[..i]), ChainHash(h, GENESIS, es[..i + 1]))]
  {
    assert es[..i + 1][..i] == es[..i];
  }

  lemma {:induction false} TriplesGrow(chain: seq<Row>, r: Row)
    ensures TriplesOf(chain + [r]) == TriplesOf(chain) + [TripleOf(r)]
  {
  }

  /** The scan of one tenant's entries, carrying the previous hash along. */
  method RecomputeTenant(h: Hasher, es: seq<Entry>, tenant: string) returns (triples: seq<Triple>, last: Tail)
    requires Ordered(es, tenant) != []
    ensures triples == TriplesOf(TenantChain(h, es, tenant)) && last == TailOf(TenantChain(h, es, tenant))
  {
    var entries := Ordered(es, tenant);
    var prev := GENESIS;
    triples := [];
    ghost var chain: seq<Row> := [];
    last := Tail("", GENESIS, 0);
    for i := 0 to |entries|
      invariant chain == ChainRows(h, GENESIS, entries[..i]) && prev == ChainHash(h, GENESIS, entries[..i])
      invariant triples == TriplesOf(chain)
      invariant 0 < i ==> last == TailOf(chain)
    {
      var e := entries[i];
      var entryHash := h(e, prev);
      ChainGrows(h, entries, i);
      TriplesGrow(chain, Row(e, prev, entryHash));
      triples := triples + [Triple(e.id, prev, entryHash)];
      chain := chain + [Row(e, prev, entryHash)];
      prev := entryHash;
      last := Tail(e.id, entryHash, e.createdAt);
    }
    assert entries[..|entries|] == entries;
  }

  lemma {:induction false} TailsOfNext(h: Hasher, es: seq<Entry>, tenants: seq<string>, t: string,
                                       lasts: map<string, Tail>, last: Tail)
    requires TailsOf(h, es, tenants, lasts)
    requires Ordered(es, t) != [] && last == TailOf(TenantChain(h, es, t))
    ensures TailsOf(h, es, tenants + [t], lasts[t := last])
  {
  }

  lemma {:induction false} ListedTenantHasEntries(es: seq<Entry>, tenant: string)
    requires tenant in Sort(Tenants(es), StringLeq)
    ensures Ordered(es, tenant) != []
  {
    assert tenant in multiset(Sort(Tenants(es), StringLeq));
    assert tenant in Tenants(es);
    TenantsAre(es, tenant);
    var e :| e in es && e.tenant == tenant;
    OrderedElement(es, tenant, e);
  }

  lemma {:induction false} RefreshedState(h: Hasher, es: seq<Entry>, state: map<string, Tail>, lasts: map<string, Tail>)
    requires TailsOf(h, es, Sort(Tenants(es), StringLeq), lasts)
    ensures StateRefreshed(h, es, state, state + lasts)
  {
    forall t ensures t in lasts <==> t in Tenants(es) {
      assert t in Sort(Tenants(es), StringLeq) <==> t in multiset(Sort(Tenants(es), StringLeq));
      assert t in Tenants(es) <==> t in multiset(Tenants(es));
    }
  }

  lemma {:induction false} EachRowHasTriple(h: Hasher, rows: seq<Row>)
    ensures forall i :: 0 <= i < |rows| ==>
      HasTriple(AllTriples(h, Entries(rows), Sort(Tenants(Entries(rows)), StringLeq)), rows[i].entry.id)
  {
    forall i | 0 <= i < |rows|
      ensures HasTriple(AllTriples(h, Entries(rows), Sort(Tenants(Entries(rows)), StringLeq)), rows[i].entry.id)
    {
      assert Entries(rows)[i] == rows[i].entry;
      var r := RecomputedRow(h, Entries(rows), rows[i].entry);
      assert TripleOf(r).id == rows[i].entry.id;
    }
  }

  /** UPDATE audit_logs ... FROM _rebaseline r WHERE a.id = r.id */
  method UpdateFrom(rows: seq<Row>, triples: seq<Triple>) returns (rows': seq<Row>)
    requires forall i :: 0 <= i < |rows| ==> HasTriple(triples, rows[i].entry.id)
    ensures |rows'| == |rows|
    ensures forall i :: 0 <= i < |rows| ==> rows'[i].entry == rows[i].entry && TripleOf(rows'[i]) in triples
  {
    rows' := [];
    for i := 0 to |rows|
      invariant |rows'| == i
      invariant forall k :: 0 <= k < i ==> rows'[k].entry == rows[k].entry && TripleOf(rows'[k]) in triples
    {
      assert HasTriple(triples, rows[i].entry.id);
      var x :| x in triples && x.id == rows[i].entry.id;
      rows' := rows' + [Row(rows[i].entry, x.prev, x.hash)];
      assert TripleOf(rows'[i]) == x;
    }
  }
}
