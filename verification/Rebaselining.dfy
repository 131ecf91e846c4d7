/** Rebuilding every tenant's audit chain (backend/cmd/audit-rebaseline/main.go).  Nothing is appended between the scan
    and the commit. */
module Rebaselining {
  import opened Ordering
  import opened EntryHashing
  import opened AuditChain

  /** What is written for one row, found by its id. */
  datatype Triple = Triple(id: string, prev: string, hash: string)

  function TripleOf(r: Row): Triple {
    Triple(r.entry.id, r.prev, r.hash)
  }

  // ----- ids -------------------------------------------------------------------------------------------------

  ghost predicate UniqueIds(es: seq<Entry>) {
    es == [] || ((forall e :: e in es[1..] ==> e.id != es[0].id) && UniqueIds(es[1..]))
  }

  /** The primary key: an id may recur, but not at the same time. */
  ghost predicate PrimaryKey(es: seq<Entry>) {
    forall i, j :: 0 <= i < j < |es| ==> es[i].id != es[j].id || es[i].createdAt != es[j].createdAt
  }

  lemma {:induction false} UniqueIndex(es: seq<Entry>, i: nat, j: nat)
    requires UniqueIds(es) && i < |es| && j < |es| && es[i].id == es[j].id
    ensures i == j
  {
    if i > 0 && j > 0 {
      UniqueIndex(es[1..], i - 1, j - 1);
    }
  }

  lemma {:induction false} RepeatedId(es: seq<Entry>) returns (i: nat, j: nat)
    requires !UniqueIds(es)
    ensures i < j < |es| && es[i].id == es[j].id
  {
    if exists e :: e in es[1..] && e.id == es[0].id {
      var e :| e in es[1..] && e.id == es[0].id;
      var k :| 0 <= k < |es[1..]| && es[1..][k] == e;
      i, j := 0, k + 1;
    } else {
      i, j := RepeatedId(es[1..]);
      i, j := i + 1, j + 1;
    }
  }

  lemma {:induction false} OfTenantUnique(es: seq<Entry>, tenant: string)
    requires UniqueIds(es)
    ensures UniqueIds(OfTenant(es, tenant))
  {
    if es != [] {
      OfTenantUnique(es[1..], tenant);
      if es[0].tenant == tenant {
        var rest := OfTenant(es[1..], tenant);
        forall e | e in rest ensures e.id != es[0].id { OfTenantElement(es[1..], tenant, e); }
        assert OfTenant(es, tenant)[1..] == rest;
      }
    }
  }

  lemma {:induction false} InsertUnique(x: Entry, es: seq<Entry>)
    requires UniqueIds(es) && forall e :: e in es ==> e.id != x.id
    ensures UniqueIds(Insert(x, es, EntryLeq))
  {
    if es != [] && !EntryLeq(x, es[0]) {
      InsertUnique(x, es[1..]);
      var rest := Insert(x, es[1..], EntryLeq);
      forall e | e in rest ensures e.id != es[0].id {
        assert e in multiset(rest);
        assert e == x || e in es[1..];
      }
    }
  }

  lemma {:induction false} SortUnique(es: seq<Entry>)
    requires UniqueIds(es)
    ensures UniqueIds(Sort(es, EntryLeq))
  {
    if es != [] {
      SortUnique(es[1..]);
      var rest := Sort(es[1..], EntryLeq);
      forall e | e in rest ensures e.id != es[0].id {
        assert e in multiset(rest);
        assert e in es[1..];
      }
      InsertUnique(es[0], rest);
    }
  }

  // ----- recomputing -----------------------------------------------------------------------------------------

  function TenantChain(h: Hasher, es: seq<Entry>, tenant: string): seq<Row> {
    ChainRows(h, GENESIS, Ordered(es, tenant))
  }

  function TenantHash(h: Hasher, es: seq<Entry>, tenant: string): string {
    ChainHash(h, GENESIS, Ordered(es, tenant))
  }

  /** SELECT DISTINCT tenant_id ... ORDER BY 1 */
  function Tenants(es: seq<Entry>): seq<string> {
    if es == [] then []
    else
      var rest := Tenants(es[1..]);
      if es[0].tenant in rest then rest else [es[0].tenant] + rest
  }

  lemma {:induction false} TenantsAre(es: seq<Entry>, tenant: string)
    ensures tenant in Tenants(es) <==> exists e :: e in es && e.tenant == tenant
  {
    if es != [] {
      TenantsAre(es[1..], tenant);
      assert es == [es[0]] + es[1..];
    }
  }

  function TriplesOf(chain: seq<Row>): (r: seq<Triple>)
    ensures |r| == |chain| && forall m :: 0 <= m < |chain| ==> r[m] == TripleOf(chain[m])
  {
    seq(|chain|, m requires 0 <= m < |chain| => TripleOf(chain[m]))
  }

  /** The triples of the given tenants' recomputed chains. */
  function AllTriples(h: Hasher, es: seq<Entry>, tenants: seq<string>): seq<Triple> {
    if tenants == [] then []
    else
      var rest, t := tenants[..|tenants| - 1], tenants[|tenants| - 1];
      AllTriples(h, es, rest) + TriplesOf(TenantChain(h, es, t))
  }

  ghost predicate IsTriple(h: Hasher, es: seq<Entry>, x: Triple) {
    x in AllTriples(h, es, Sort(Tenants(es), StringLeq))
  }

  lemma {:induction false} TripleOrigin(h: Hasher, es: seq<Entry>, tenants: seq<string>, x: Triple) returns (r: Row)
    requires x in AllTriples(h, es, tenants)
    ensures TripleOf(r) == x && r in TenantChain(h, es, r.entry.tenant)
  {
    var rest, t := tenants[..|tenants| - 1], tenants[|tenants| - 1];
    if x in AllTriples(h, es, rest) {
      r := TripleOrigin(h, es, rest, x);
    } else {
      var chain := TenantChain(h, es, t);
      var m :| 0 <= m < |chain| && TriplesOf(chain)[m] == x;
      ChainRowAt(h, GENESIS, Ordered(es, t), m);
      OrderedElement(es, t, chain[m].entry);
      r := chain[m];
    }
  }

  lemma {:induction false} TripleListed(h: Hasher, es: seq<Entry>, tenants: seq<string>, t: string, m: nat)
    requires t in tenants && m < |TenantChain(h, es, t)|
    ensures TripleOf(TenantChain(h, es, t)[m]) in AllTriples(h, es, tenants)
  {
    var rest, last := tenants[..|tenants| - 1], tenants[|tenants| - 1];
    if t == last {
      assert TriplesOf(TenantChain(h, es, t))[m] == TripleOf(TenantChain(h, es, t)[m]);
    } else {
      TripleListed(h, es, rest, t, m);
    }
  }

  /** The row recomputed for an entry. */
  lemma {:induction false} RecomputedRow(h: Hasher, es: seq<Entry>, e: Entry) returns (r: Row)
    requires e in es
    ensures r in TenantChain(h, es, e.tenant) && r.entry == e && r.hash == h(e, r.prev)
    ensures exists before :: r.prev == ChainHash(h, GENESIS, before)
    ensures IsTriple(h, es, TripleOf(r))
  {
    var order := Ordered(es, e.tenant);
    OrderedElement(es, e.tenant, e);
    var m :| 0 <= m < |order| && order[m] == e;
    ChainRowAt(h, GENESIS, order, m);
    r := TenantChain(h, es, e.tenant)[m];
    assert order[..m + 1][..m] == order[..m];
    TenantsAre(es, e.tenant);
    assert e.tenant in multiset(Sort(Tenants(es), StringLeq));
    TripleListed(h, es, Sort(Tenants(es), StringLeq), e.tenant, m);
  }

  ghost predicate RowUpdated(h: Hasher, es: seq<Entry>, before: Row, after: Row) {
    after.entry == before.entry && IsTriple(h, es, TripleOf(after))
  }

  /** UPDATE ... FROM the triples WHERE the ids agree: where several triples agree, any one may be used. */
  ghost predicate JoinUpdate(h: Hasher, rows: seq<Row>, rows': seq<Row>) {
    |rows'| == |rows| && forall i :: 0 <= i < |rows| ==> RowUpdated(h, Entries(rows), rows[i], rows'[i])
  }

  lemma {:induction false} UpdateKeepsEntries(h: Hasher, rows: seq<Row>, rows': seq<Row>)
    requires JoinUpdate(h, rows, rows')
    ensures Entries(rows') == Entries(rows)
  {
    forall i | 0 <= i < |rows| ensures rows'[i].entry == rows[i].entry {
      assert RowUpdated(h, Entries(rows), rows[i], rows'[i]);
    }
  }

  function TailOf(chain: seq<Row>): Tail
    requires chain != []
  {
    var r := chain[|chain| - 1];
    Tail(r.entry.id, r.hash, r.entry.createdAt)
  }

  /** The chain state points at the recomputed tail of every tenant that has rows; other tenants' is untouched. */
  ghost predicate StateRefreshed(h: Hasher, es: seq<Entry>, state: map<string, Tail>, state': map<string, Tail>) {
    && (forall t :: t in Tenants(es) ==>
          Ordered(es, t) != [] && t in state' && state'[t] == TailOf(TenantChain(h, es, t)))
    && (forall t :: t !in Tenants(es) ==> (t in state' <==> t in state))
    && (forall t :: t !in Tenants(es) && t in state ==> state'[t] == state[t])
  }

  // ----- after the update ------------------------------------------------------------------------------------

  /** With unique ids a row gets the hashes recomputed for its own entry. */
  lemma {:induction false} UpdatedRow(h: Hasher, rows: seq<Row>, rows': seq<Row>, i: nat) returns (m: nat)
    requires UniqueIds(Entries(rows)) && JoinUpdate(h, rows, rows') && i < |rows|
    ensures var t := rows[i].entry.tenant;
      && m < |Ordered(Entries(rows), t)| && Ordered(Entries(rows), t)[m] == rows[i].entry
      && rows'[i] == TenantChain(h, Entries(rows), t)[m]
  {
    var es, e := Entries(rows), rows[i].entry;
    assert RowUpdated(h, es, rows[i], rows'[i]);
    var r := TripleOrigin(h, es, Sort(Tenants(es), StringLeq), TripleOf(rows'[i]));
    var chain := TenantChain(h, es, r.entry.tenant);
    m :| 0 <= m < |chain| && chain[m] == r;
    ChainRowAt(h, GENESIS, Ordered(es, r.entry.tenant), m);
    OrderedElement(es, r.entry.tenant, r.entry);
    var k :| 0 <= k < |es| && es[k] == r.entry;
    UniqueIndex(es, i, k);
  }

  lemma {:induction false} RebuiltRow(h: Hasher, rows: seq<Row>, rows': seq<Row>, tenant: string, k: nat)
    requires UniqueIds(Entries(rows)) && JoinUpdate(h, rows, rows') && k < |OrderedRows(rows', tenant)|
    ensures k < |TenantChain(h, Entries(rows), tenant)|
    ensures OrderedRows(rows', tenant)[k] == TenantChain(h, Entries(rows), tenant)[k]
  {
    var es, order, row := Entries(rows), Ordered(Entries(rows), tenant), OrderedRows(rows', tenant)[k];
    UpdateKeepsEntries(h, rows, rows');
    OrderedRowsEntries(rows', tenant);
    assert Entries(OrderedRows(rows', tenant))[k] == row.entry;
    OrderedRowsElement(rows', tenant, row);
    var i :| 0 <= i < |rows'| && rows'[i] == row;
    var m := UpdatedRow(h, rows, rows', i);
    assert Entries(rows')[i] == row.entry;
    OfTenantUnique(es, tenant);
    SortUnique(OfTenant(es, tenant));
    UniqueIndex(order, k, m);
  }

  /** After the update every tenant's rows, in order, are the recomputed chain from genesis. */
  lemma {:induction false} RebaselineRebuildsChains(h: Hasher, rows: seq<Row>, rows': seq<Row>, tenant: string)
    requires UniqueIds(Entries(rows)) && JoinUpdate(h, rows, rows')
    ensures OrderedRows(rows', tenant) == TenantChain(h, Entries(rows), tenant)
    ensures Linked(h, OrderedRows(rows', tenant))
  {
    UpdateKeepsEntries(h, rows, rows');
    OrderedRowsEntries(rows', tenant);
    var after, chain := OrderedRows(rows', tenant), TenantChain(h, Entries(rows), tenant);
    assert |after| == |chain|;
    forall k | 0 <= k < |after| ensures after[k] == chain[k] {
      RebuiltRow(h, rows, rows', tenant, k);
    }
    ChainRowsLinked(h, GENESIS, Ordered(Entries(rows), tenant));
  }

  /** And the chain state has the id, the hash and the time of each tenant's last row. */
  lemma {:induction false} RefreshedTails(h: Hasher, rows: seq<Row>, rows': seq<Row>, state: map<string, Tail>,
                                          state': map<string, Tail>, tenant: string)
    requires UniqueIds(Entries(rows)) && JoinUpdate(h, rows, rows')
    requires StateRefreshed(h, Entries(rows), state, state')
    ensures tenant in Tenants(Entries(rows)) ==>
      var order := OrderedRows(rows', tenant);
      && tenant in state' && order != []
      && state'[tenant].id == order[|order| - 1].entry.id && state'[tenant].hash == order[|order| - 1].hash
      && state'[tenant].at == order[|order| - 1].entry.createdAt
    ensures tenant !in Tenants(Entries(rows)) ==>
      (tenant in state' <==> tenant in state) && (tenant in state ==> state'[tenant] == state[tenant])
  {
    RebaselineRebuildsChains(h, rows, rows', tenant);
  }

  /** Every time window of every tenant verifies after the update. */
  lemma {:induction false} RebaselineVerifies(h: Hasher, rows: seq<Row>, rows': seq<Row>, tenant: string, lo: int,
                                              hi: int)
    requires UniqueIds(Entries(rows)) && JoinUpdate(h, rows, rows')
    ensures Linked(h, Between(OrderedRows(rows', tenant), lo, hi))
  {
    RebaselineRebuildsChains(h, rows, rows', tenant);
    OrderedInTime(rows', tenant);
    WindowsVerify(h, OrderedRows(rows', tenant), lo, hi);
  }

  /** Rebuilding again changes no row. */
  lemma {:induction false} RebaselineIdempotent(h: Hasher, rows: seq<Row>, once: seq<Row>, twice: seq<Row>)
    requires UniqueIds(Entries(rows)) && JoinUpdate(h, rows, once) && JoinUpdate(h, once, twice)
    ensures twice == once
  {
    UpdateKeepsEntries(h, rows, once);
    forall i | 0 <= i < |rows| ensures twice[i] == once[i] {
      var m := UpdatedRow(h, rows, once, i);
      var k := UpdatedRow(h, once, twice, i);
      var order := Ordered(Entries(rows), rows[i].entry.tenant);
      OfTenantUnique(Entries(rows), rows[i].entry.tenant);
      SortUnique(OfTenant(Entries(rows), rows[i].entry.tenant));
      UniqueIndex(order, m, k);
    }
  }

  lemma {:induction false} OfTenantCount(es: seq<Entry>, tenant: string, e: Entry)
    ensures multiset(OfTenant(es, tenant))[e] == if e.tenant == tenant then multiset(es)[e] else 0
  {
    if es != [] {
      OfTenantCount(es[1..], tenant, e);
      assert es == [es[0]] + es[1..];
    }
  }

  /** The order in which rows are stored is irrelevant to the recomputed chains. */
  lemma {:induction false} StorageOrderIrrelevant(h: Hasher, es: seq<Entry>, fs: seq<Entry>, tenant: string)
    requires PrimaryKey(es) && multiset(es) == multiset(fs)
    ensures TenantChain(h, es, tenant) == TenantChain(h, fs, tenant)
  {
    var a, b := OfTenant(es, tenant), OfTenant(fs, tenant);
    forall e ensures multiset(a)[e] == multiset(b)[e] {
      OfTenantCount(es, tenant, e);
      OfTenantCount(fs, tenant, e);
    }
    assert multiset(a) == multiset(b);
    EntryOrder();
    NoTiesByKey(es, tenant);
    SortCanonical(a, b, EntryLeq);
  }

  lemma {:induction false} NoTiesByKey(es: seq<Entry>, tenant: string)
    requires PrimaryKey(es)
    ensures NoTies(OfTenant(es, tenant), EntryLeq)
  {
    forall x, y | x in OfTenant(es, tenant) && y in OfTenant(es, tenant) && EntryLeq(x, y) && EntryLeq(y, x)
      ensures x == y
    {
      OfTenantElement(es, tenant, x);
      OfTenantElement(es, tenant, y);
      var i :| 0 <= i < |es| && es[i] == x;
      var j :| 0 <= j < |es| && es[j] == y;
      StringLeqTotal(x.id, y.id);
      assert i == j;
    }
  }

  // ----- exactly when the rebuild can be relied on -----------------------------------------------------------

  lemma {:induction false} OwnTriple(h: Hasher, rows: seq<Row>, i: nat) returns (r: Row)
    requires i < |rows|
    ensures RowUpdated(h, Entries(rows), rows[i], r)
  {
    assert Entries(rows)[i] == rows[i].entry;
    r := RecomputedRow(h, Entries(rows), rows[i].entry);
  }

  /** The rows after an update that matches every row with its own triple. */
  lemma {:induction false} FaithfulUpdate(h: Hasher, rows: seq<Row>) returns (rows': seq<Row>)
    ensures JoinUpdate(h, rows, rows')
  {
    rows' := [];
    for i := 0 to |rows|
      invariant |rows'| == i
      invariant forall k :: 0 <= k < i ==> RowUpdated(h, Entries(rows), rows[k], rows'[k])
    {
      var r := OwnTriple(h, rows, i);
      rows' := rows' + [r];
    }
  }

  /** Whichever triple the update uses where ids agree, all tenants' chains verify afterwards: this holds exactly
      when no two rows share an id.  The table's primary key, (id, created_at), does not promise that. */
  lemma {:induction false} RebaselineReliableIff(sha: string -> string, rows: seq<Row>)
    requires Digest(sha) && PrimaryKey(Entries(rows))
    ensures (forall rows', t :: JoinUpdate(HasherOf(sha), rows, rows') ==> Linked(HasherOf(sha), OrderedRows(rows', t)))
      <==> UniqueIds(Entries(rows))
  {
    var h := HasherOf(sha);
    if UniqueIds(Entries(rows)) {
      forall rows', t | JoinUpdate(h, rows, rows') ensures Linked(h, OrderedRows(rows', t)) {
        RebaselineRebuildsChains(h, rows, rows', t);
      }
    } else {
      var rows', t := MismatchedUpdate(sha, rows);
    }
  }

  /** An update may give row i the hashes recomputed for any entry that shares its id. */
  lemma {:induction false} UpdateWithOther(h: Hasher, rows: seq<Row>, i: nat, r: Row) returns (rows': seq<Row>)
    requires i < |rows| && IsTriple(h, Entries(rows), TripleOf(r)) && r.entry.id == rows[i].entry.id
    ensures JoinUpdate(h, rows, rows') && Row(rows[i].entry, r.prev, r.hash) in rows'
  {
    var faithful := FaithfulUpdate(h, rows);
    var wrong := Row(rows[i].entry, r.prev, r.hash);
    assert TripleOf(wrong) == TripleOf(r);
    assert RowUpdated(h, Entries(rows), rows[i], wrong);
    rows' := faithful[i := wrong];
    assert rows'[i] == wrong;
  }

  /** If two rows share an id, one of them may get the other's hashes. */
  lemma {:induction false} MismatchedUpdate(sha: string -> string, rows: seq<Row>) returns (rows': seq<Row>, t: string)
    requires Digest(sha) && PrimaryKey(Entries(rows)) && !UniqueIds(Entries(rows))
    ensures JoinUpdate(HasherOf(sha), rows, rows') && !Linked(HasherOf(sha), OrderedRows(rows', t))
  {
    var es := Entries(rows);
    var i, j := RepeatedId(es);
    var r := RecomputedRow(HasherOf(sha), es, es[j]);
    rows' := UpdateWithOther(HasherOf(sha), rows, i, r);
    OtherEntrysHash(sha, rows', es[i], es[j], r);
    t := es[i].tenant;
  }

  /** A row carrying the hash of an entry created at another time cannot verify. */
  lemma {:induction false} OtherEntrysHash(sha: string -> string, rows: seq<Row>, e: Entry, f: Entry, r: Row)
    requires Digest(sha) && e.createdAt != f.createdAt
    requires r.hash == EntryHash(sha, f, r.prev) && exists before :: r.prev == ChainHash(HasherOf(sha), GENESIS, before)
    requires Row(e, r.prev, r.hash) in rows
    ensures !Linked(HasherOf(sha), OrderedRows(rows, e.tenant))
  {
    var h, wrong := HasherOf(sha), Row(e, r.prev, r.hash);
    OrderedRowsElement(rows, e.tenant, wrong);
    var order := OrderedRows(rows, e.tenant);
    var k :| 0 <= k < |order| && order[k] == wrong;
    if Linked(h, order) {
      LinkedAt(h, order, k);
      var before :| r.prev == ChainHash(h, GENESIS, before);
      ChainHashPipeFree(sha, before);
      PreimageDetermines(e, r.prev, f, r.prev);
    }
  }
}
