/** The audit hash chain: its order and recurrence (backend/cmd/audit-rebaseline/main.go) and its verification
    (backend/internal/audit/service/integrity_service.go). */
module AuditChain {
  import opened Ordering
  import opened EntryHashing

  datatype Row = Row(entry: Entry, prev: string, hash: string)

  datatype Tail = Tail(id: string, hash: string, at: int)

  // ----- reading a tenant's rows in chain order --------------------------------------------------------------

  /** ORDER BY created_at ASC, id ASC */
  predicate EntryLeq(a: Entry, b: Entry) {
    a.createdAt < b.createdAt || (a.createdAt == b.createdAt && StringLeq(a.id, b.id))
  }

  predicate RowLeq(a: Row, b: Row) {
    EntryLeq(a.entry, b.entry)
  }

  lemma {:induction false} EntryOrder()
    ensures TotalPreorder(EntryLeq) && TotalPreorder(RowLeq)
  {
    forall a: Entry, b: Entry ensures EntryLeq(a, b) || EntryLeq(b, a) { StringLeqTotal(a.id, b.id); }
    forall a: Entry, b: Entry, c: Entry | EntryLeq(a, b) && EntryLeq(b, c) ensures EntryLeq(a, c) {
      if a.createdAt == b.createdAt == c.createdAt { StringLeqTransitive(a.id, b.id, c.id); }
    }
  }

  function Entries(rows: seq<Row>): (r: seq<Entry>)
    ensures |r| == |rows| && forall i :: 0 <= i < |rows| ==> r[i] == rows[i].entry
  {
    if rows == [] then [] else [rows[0].entry] + Entries(rows[1..])
  }

  function RowsOf(rows: seq<Row>, tenant: string): seq<Row> {
    if rows == [] then []
    else if rows[0].entry.tenant == tenant then [rows[0]] + RowsOf(rows[1..], tenant)
    else RowsOf(rows[1..], tenant)
  }

  function OfTenant(es: seq<Entry>, tenant: string): seq<Entry> {
    if es == [] then []
    else if es[0].tenant == tenant then [es[0]] + OfTenant(es[1..], tenant)
    else OfTenant(es[1..], tenant)
  }

  /** A tenant's rows in chain order. */
  function OrderedRows(rows: seq<Row>, tenant: string): seq<Row> {
    Sort(RowsOf(rows, tenant), RowLeq)
  }

  /** A tenant's entries in chain order. */
  function Ordered(es: seq<Entry>, tenant: string): seq<Entry> {
    Sort(OfTenant(es, tenant), EntryLeq)
  }

  lemma {:induction false} InsertEntries(r: Row, rows: seq<Row>)
    ensures Entries(Insert(r, rows, RowLeq)) == Insert(r.entry, Entries(rows), EntryLeq)
  {
    if rows != [] && !RowLeq(r, rows[0]) {
      InsertEntries(r, rows[1..]);
    }
  }

  lemma {:induction false} SortEntries(rows: seq<Row>)
    ensures Entries(Sort(rows, RowLeq)) == Sort(Entries(rows), EntryLeq)
  {
    if rows != [] {
      SortEntries(rows[1..]);
      InsertEntries(rows[0], Sort(rows[1..], RowLeq));
    }
  }

  lemma {:induction false} EntriesOfTenant(rows: seq<Row>, tenant: string)
    ensures Entries(RowsOf(rows, tenant)) == OfTenant(Entries(rows), tenant)
  {
    if rows != [] {
      EntriesOfTenant(rows[1..], tenant);
    }
  }

  /** The order of a tenant's rows depends on their entries only. */
  lemma {:induction false} OrderedRowsEntries(rows: seq<Row>, tenant: string)
    ensures Entries(OrderedRows(rows, tenant)) == Ordered(Entries(rows), tenant)
  {
    EntriesOfTenant(rows, tenant);
    SortEntries(RowsOf(rows, tenant));
  }

  lemma {:induction false} RowsOfElement(rows: seq<Row>, tenant: string, r: Row)
    ensures r in RowsOf(rows, tenant) <==> r in rows && r.entry.tenant == tenant
  {
    if rows != [] {
      RowsOfElement(rows[1..], tenant, r);
    }
  }

  lemma {:induction false} OrderedRowsElement(rows: seq<Row>, tenant: string, r: Row)
    ensures r in OrderedRows(rows, tenant) <==> r in rows && r.entry.tenant == tenant
  {
    RowsOfElement(rows, tenant, r);
    assert r in OrderedRows(rows, tenant) <==> r in multiset(OrderedRows(rows, tenant));
    assert r in RowsOf(rows, tenant) <==> r in multiset(RowsOf(rows, tenant));
  }

  lemma {:induction false} OrderedElement(es: seq<Entry>, tenant: string, e: Entry)
    ensures e in Ordered(es, tenant) <==> e in es && e.tenant == tenant
  {
    OfTenantElement(es, tenant, e);
    assert e in Ordered(es, tenant) <==> e in multiset(Ordered(es, tenant));
    assert e in OfTenant(es, tenant) <==> e in multiset(OfTenant(es, tenant));
  }

  lemma {:induction false} OfTenantElement(es: seq<Entry>, tenant: string, e: Entry)
    ensures e in OfTenant(es, tenant) <==> e in es && e.tenant == tenant
  {
    if es != [] {
      OfTenantElement(es[1..], tenant, e);
    }
  }

  // ----- chains ----------------------------------------------------------------------------------------------

  /** The rows of the chain over `es` that starts from `start`. */
  function ChainRows(h: Hasher, start: string, es: seq<Entry>): (r: seq<Row>)
    ensures |r| == |es|
  {
    if es == [] then []
    else
      var rest := es[..|es| - 1];
      ChainRows(h, start, rest) + [Row(es[|es| - 1], ChainHash(h, start, rest), ChainHash(h, start, es))]
  }

  lemma {:induction false} ChainRowAt(h: Hasher, start: string, es: seq<Entry>, i: nat)
    requires i < |es|
    ensures ChainRows(h, start, es)[i] == Row(es[i], ChainHash(h, start, es[..i]), ChainHash(h, start, es[..i + 1]))
  {
    if i < |es| - 1 {
      ChainRowAt(h, start, es[..|es| - 1], i);
      assert es[..|es| - 1][..i] == es[..i] && es[..|es| - 1][..i + 1] == es[..i + 1];
    } else {
      assert es[..i + 1] == es;
    }
  }

  lemma {:induction false} ChainRowsEntries(h: Hasher, start: string, es: seq<Entry>)
    ensures Entries(ChainRows(h, start, es)) == es
  {
    if es != [] {
      ChainRowsEntries(h, start, es[..|es| - 1]);
      EntriesConcat(ChainRows(h, start, es[..|es| - 1]), [ChainRows(h, start, es)[|es| - 1]]);
    }
  }

  lemma {:induction false} EntriesConcat(a: seq<Row>, b: seq<Row>)
    ensures Entries(a + b) == Entries(a) + Entries(b)
  {
  }

  /** What verification checks: each hash is that of its entry and previous hash, and each previous hash is the
      hash before it.  The first previous hash of a window is taken on trust. */
  ghost predicate Linked(h: Hasher, rows: seq<Row>) {
    rows == [] ||
    var rest, r := rows[..|rows| - 1], rows[|rows| - 1];
    && Linked(h, rest)
    && r.hash == h(r.entry, r.prev)
    && (rest != [] ==> r.prev == rest[|rest| - 1].hash)
  }

  lemma {:induction false} LinkedAt(h: Hasher, rows: seq<Row>, i: nat)
    requires Linked(h, rows) && i < |rows|
    ensures rows[i].hash == h(rows[i].entry, rows[i].prev)
    ensures 0 < i ==> rows[i].prev == rows[i - 1].hash
  {
    if i < |rows| - 1 {
      LinkedAt(h, rows[..|rows| - 1], i);
    }
  }

  lemma {:induction false} ChainRowsLinked(h: Hasher, start: string, es: seq<Entry>)
    ensures Linked(h, ChainRows(h, start, es))
    ensures es != [] ==> var r := ChainRows(h, start, es);
      r[0].prev == start && r[|r| - 1].hash == ChainHash(h, start, es)
  {
    if es != [] {
      var rest := es[..|es| - 1];
      ChainRowsLinked(h, start, rest);
      var r := ChainRows(h, start, es);
      assert r[..|r| - 1] == ChainRows(h, start, rest);
    }
  }

  /** Rows that link up from `start` are the chain over their entries. */
  lemma {:induction false} LinkedIsChain(h: Hasher, start: string, rows: seq<Row>)
    requires Linked(h, rows) && (rows != [] ==> rows[0].prev == start)
    ensures rows == ChainRows(h, start, Entries(rows))
    ensures rows != [] ==> rows[|rows| - 1].hash == ChainHash(h, start, Entries(rows))
  {
    if rows != [] {
      var rest, r := rows[..|rows| - 1], rows[|rows| - 1];
      LinkedIsChain(h, start, rest);
      var es := Entries(rows);
      assert es[..|es| - 1] == Entries(rest) && es[|es| - 1] == r.entry;
      assert rest == [] ==> Entries(rest) == [];
    }
  }

  // ----- verification ----------------------------------------------------------------------------------------

  /** `VerifyChain` over the rows it streams. */
  method VerifyChain(h: Hasher, window: seq<Row>) returns (verified: bool)
    ensures verified <==> Linked(h, window)
  {
    var broken, isFirst, previousHash := false, true, "";
    for i := 0 to |window|
      invariant isFirst <==> i == 0
      invariant !broken <==> Linked(h, window[..i])
      invariant !broken && 0 < i ==> previousHash == window[..i][i - 1].hash
    {
      var row := window[i];
      assert window[..i + 1][..i] == window[..i];
      if isFirst {
        previousHash := row.prev;
        isFirst := false;
      }
      var expected := h(row.entry, previousHash);
      if expected != row.hash {
        broken := true;
      } else if !broken && row.prev != previousHash {
        broken := true;
      } else {
        previousHash := row.hash;
      }
    }
    assert window[..|window|] == window;
    verified := !broken;
  }

  /** The rows of an ordered list created in [lo, hi]. */
  function Between(rows: seq<Row>, lo: int, hi: int): seq<Row> {
    if rows == [] then []
    else
      var rest, r := rows[..|rows| - 1], rows[|rows| - 1];
      Between(rest, lo, hi) + if lo <= r.entry.createdAt <= hi then [r] else []
  }

  ghost predicate InTimeOrder(rows: seq<Row>) {
    forall i, j :: 0 <= i < j < |rows| ==> rows[i].entry.createdAt <= rows[j].entry.createdAt
  }

  /** If a tenant's whole chain verifies, so does every time window of it. */
  lemma {:induction false} WindowsVerify(h: Hasher, rows: seq<Row>, lo: int, hi: int)
    requires Linked(h, rows) && InTimeOrder(rows)
    ensures Linked(h, Between(rows, lo, hi))
    ensures Between(rows, lo, hi) != [] ==> lo <= rows[|rows| - 1].entry.createdAt
    ensures var w := Between(rows, lo, hi);
      w != [] && rows[|rows| - 1].entry.createdAt <= hi ==> w[|w| - 1] == rows[|rows| - 1]
  {
    if rows != [] {
      var rest, r := rows[..|rows| - 1], rows[|rows| - 1];
      WindowsVerify(h, rest, lo, hi);
      var w := Between(rest, lo, hi);
      assert rest != [] ==> rest[|rest| - 1].entry.createdAt <= r.entry.createdAt;
      if lo <= r.entry.createdAt <= hi {
        assert (w + [r])[..|w|] == w;
      } else {
        assert w + [] == w;
      }
    }
  }

  /** Of two rows in verifier order the first was created earlier, or at the same time with the smaller id. */
  lemma {:induction false} VerifierOrder(rows: seq<Row>, tenant: string, i: nat, j: nat)
    requires i < j < |OrderedRows(rows, tenant)|
    ensures var a, b := OrderedRows(rows, tenant)[i].entry, OrderedRows(rows, tenant)[j].entry;
      && a.tenant == b.tenant == tenant
      && (a.createdAt < b.createdAt || (a.createdAt == b.createdAt && exists k: nat :: SmallerAfter(a.id, b.id, k)))
  {
    var order := OrderedRows(rows, tenant);
    EntryOrder();
    SortSorted(RowsOf(rows, tenant), RowLeq);
    assert RowLeq(order[i], order[j]);
    StringLeqIff(order[i].entry.id, order[j].entry.id);
    OrderedRowsElement(rows, tenant, order[i]);
    OrderedRowsElement(rows, tenant, order[j]);
  }

  lemma {:induction false} OrderedInTime(rows: seq<Row>, tenant: string)
    ensures InTimeOrder(OrderedRows(rows, tenant))
  {
    EntryOrder();
    SortSorted(RowsOf(rows, tenant), RowLeq);
  }
}
