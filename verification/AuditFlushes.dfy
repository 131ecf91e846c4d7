/** Any run of flushes: entries the unique index drops, inserts that fail, and tails that are stale or not found
    (backend/internal/audit/service/audit_service.go:131-248, backend/internal/audit/repository/audit_repo.go:72). */
module AuditFlushes {
  import opened Ordering
  import opened EntryHashing
  import opened AuditChain
  import opened Rebaselining
  import opened AuditStore
  import opened AuditAppends

  /** One tenant's share of a flush: the hash it chained from, and the ids of the entries whose rows were inserted.  The
      others were dropped as redelivered, or the insert failed. */
  datatype Flush = Flush(tenant: string, batch: seq<Entry>, start: string, inserted: set<string>)

  function Batched(f: Flush): seq<Entry> {
    Sort(f.batch, EntryLeq)
  }

  function IdsOf(es: seq<Entry>): set<string> {
    set e | e in es :: e.id
  }

  /** The rows that are inserted. */
  function Inserted(c: Columns, h: Hasher, f: Flush): seq<Row> {
    Kept(StoredRows(c, ChainRows(h, f.start, Batched(f))), f.inserted)
  }

  function After(c: Columns, h: Hasher, rows: seq<Row>, f: Flush): seq<Row> {
    rows + Inserted(c, h, f)
  }

  /** Genesis, or a hash that was computed for an entry with one of these ids. */
  ghost predicate From(h: Hasher, ids: set<string>, s: string) {
    s == GENESIS || exists e: Entry, p: string :: e.id in ids && PipeFree(e.id) && s == h(e, p)
  }

  /** The entries are one tenant's with new ids, and the flush chained from genesis, as when no tail was found, or from
      any hash computed before, stored or not, up to date or not. */
  ghost predicate IsFlush(h: Hasher, used: set<string>, f: Flush) {
    && From(h, used, f.start) && UniqueIds(f.batch)
    && forall e :: e in f.batch ==> e.tenant == f.tenant && PipeFree(e.id) && e.id !in used
  }

  ghost predicate Possible(h: Hasher, used: set<string>, fs: seq<Flush>)
    decreases |fs|
  {
    fs != [] ==> IsFlush(h, used, fs[0]) && Possible(h, used + IdsOf(fs[0].batch), fs[1..])
  }

  function Run(c: Columns, h: Hasher, rows: seq<Row>, fs: seq<Flush>): seq<Row>
    decreases |fs|
  {
    if fs == [] then rows else Run(c, h, After(c, h, rows, fs[0]), fs[1..])
  }

  predicate KeptAt(f: Flush, i: nat)
    requires i < |Batched(f)|
  {
    Batched(f)[i].id in f.inserted
  }

  ghost predicate Nothing(f: Flush) {
    forall i :: 0 <= i < |Batched(f)| ==> !KeptAt(f, i)
  }

  /** The entries inserted follow one another in the batch. */
  ghost predicate Together(f: Flush) {
    forall i, j, k :: 0 <= i < j < k < |Batched(f)| && KeptAt(f, i) && KeptAt(f, k) ==> KeptAt(f, j)
  }

  ghost predicate KeptReadBack(c: Columns, f: Flush) {
    forall i :: 0 <= i < |Batched(f)| && KeptAt(f, i) ==> ReadsBack(c, Batched(f)[i])
  }

  ghost predicate KeptLater(f: Flush, old': seq<Row>) {
    forall i, r :: 0 <= i < |Batched(f)| && KeptAt(f, i) && r in old' ==> EntryLeq(r.entry, Batched(f)[i])
  }

  /** What a flush must be like: nothing inserted, or entries that follow one another and read back, and, if the tenant
      has rows, the batch from its first entry on, chained from the last row's hash and sorting after the rows. */
  ghost predicate Good(c: Columns, f: Flush, old': seq<Row>) {
    || Nothing(f)
    || (&& Together(f) && KeptReadBack(c, f)
        && (old' != [] ==> KeptAt(f, 0) && f.start == old'[|old'| - 1].hash && KeptLater(f, old')))
  }

  /** Every flush of the tenant is, when its turn comes. */
  ghost predicate AllGood(c: Columns, h: Hasher, rows: seq<Row>, fs: seq<Flush>, tenant: string)
    decreases |fs|
  {
    fs != [] ==>
      && (c.uuid(fs[0].tenant) == tenant ==> Good(c, fs[0], OrderedRows(rows, tenant)))
      && AllGood(c, h, After(c, h, rows, fs[0]), fs[1..], tenant)
  }

  // ----- hashes tell ids -------------------------------------------------------------------------------------

  predicate SameHash(h: Hasher, e: Entry, p: string, f: Entry, q: string) {
    PipeFree(e.id) && PipeFree(f.id) && h(e, p) == h(f, q)
  }

  /** Equal hashes are of entries with the same id, and none is genesis. */
  ghost predicate TellsIds(h: Hasher) {
    && (forall e: Entry, p: string :: h(e, p) != GENESIS)
    && (forall e: Entry, p: string, f: Entry, q: string :: SameHash(h, e, p, f, q) ==> e.id == f.id)
  }

  lemma {:induction false} Regrouped(a: string, x: string, d: string, p: string)
    ensures (a + x) + "|" + d + "|" + p == a + (x + "|" + d + "|" + p)
  {
  }

  lemma {:induction false} IdComesFirst(e: Entry, p: string) returns (rest: string)
    ensures Preimage(e, p) == e.id + "|" + rest
  {
    var x, d := e.tenant + "|" + JoinPipe(Fields(e)[2..]), Decimal(e.createdAt * 1000);
    rest := x + "|" + d + "|" + p;
    AfterIds(e);
    Regrouped(e.id + "|", x, d, p);
  }

  lemma {:induction false} DigestTellsIds(sha: string -> string)
    requires Digest(sha)
    ensures TellsIds(HasherOf(sha))
  {
    var h := HasherOf(sha);
    forall e: Entry, p: string, f: Entry, q: string | SameHash(h, e, p, f, q) ensures e.id == f.id {
      var x := IdComesFirst(e, p);
      var y := IdComesFirst(f, q);
      SplitAtFirstPipe(e.id, x, f.id, y);
    }
  }

  // ----- tables ----------------------------------------------------------------------------------------------

  ghost predicate DistinctIds(rows: seq<Row>) {
    forall i, j :: 0 <= i < j < |rows| ==> rows[i].entry.id != rows[j].entry.id
  }

  function RowIds(rows: seq<Row>): set<string> {
    set r | r in rows :: r.entry.id
  }

  /** The rows have ids of their own, among those used. */
  ghost predicate Table(used: set<string>, rows: seq<Row>) {
    DistinctIds(rows) && forall r :: r in rows ==> PipeFree(r.entry.id) && r.entry.id in used
  }

  /** `all` is the table after further flushes. */
  ghost predicate Grows(rows: seq<Row>, used: set<string>, all: seq<Row>) {
    && rows <= all && DistinctIds(all)
    && forall k :: |rows| <= k < |all| ==> PipeFree(all[k].entry.id) && all[k].entry.id !in used
  }

  /** Rows that verify, with ids of their own. */
  ghost predicate Verified(h: Hasher, rows: seq<Row>) {
    Linked(h, rows) && DistinctIds(rows) && forall r :: r in rows ==> PipeFree(r.entry.id)
  }

  /** The hash that the first row of the tenant follows on is that of no row, now or later. */
  ghost predicate Rooted(h: Hasher, used: set<string>, rows: seq<Row>) {
    rows != [] ==> From(h, used - RowIds(rows), rows[0].prev)
  }

  lemma {:induction false} OrderedDistinct(rows: seq<Row>, tenant: string)
    requires DistinctIds(rows)
    ensures DistinctIds(OrderedRows(rows, tenant))
  {
    var ordered := OrderedRows(rows, tenant);
    if !UniqueIds(Entries(rows)) {
      var i, j := RepeatedId(Entries(rows));
    }
    OfTenantUnique(Entries(rows), tenant);
    SortUnique(OfTenant(Entries(rows), tenant));
    OrderedRowsEntries(rows, tenant);
    forall i, j | 0 <= i < j < |ordered| ensures ordered[i].entry.id != ordered[j].entry.id {
      assert Entries(ordered)[i] == ordered[i].entry && Entries(ordered)[j] == ordered[j].entry;
      if ordered[i].entry.id == ordered[j].entry.id {
        UniqueIndex(Entries(ordered), i, j);
      }
    }
  }

  lemma {:induction false} OrderedVerified(h: Hasher, rows: seq<Row>, tenant: string)
    requires DistinctIds(rows) && (forall r :: r in rows ==> PipeFree(r.entry.id))
    requires Linked(h, OrderedRows(rows, tenant))
    ensures Verified(h, OrderedRows(rows, tenant))
  {
    OrderedDistinct(rows, tenant);
    forall r | r in OrderedRows(rows, tenant) ensures PipeFree(r.entry.id) {
      OrderedRowsElement(rows, tenant, r);
    }
  }

  /** The row of entry i of the batch. */
  function RowAt(c: Columns, h: Hasher, f: Flush, i: nat): Row
    requires i < |Batched(f)|
  {
    var prev := ChainHash(h, f.start, Batched(f)[..i]);
    Row(Stored(c, Batched(f)[i]), prev, h(Batched(f)[i], prev))
  }

  function AllRows(c: Columns, h: Hasher, f: Flush): (r: seq<Row>)
    ensures |r| == |Batched(f)|
  {
    StoredRows(c, ChainRows(h, f.start, Batched(f)))
  }

  lemma {:induction false} ChainedAt(c: Columns, h: Hasher, f: Flush, i: nat)
    requires i < |Batched(f)|
    ensures AllRows(c, h, f)[i] == RowAt(c, h, f, i)
  {
    ChainRowAt(h, f.start, Batched(f), i);
    assert Batched(f)[..i + 1][..i] == Batched(f)[..i];
  }

  lemma {:induction false} KeptElement(rows: seq<Row>, ids: set<string>, r: Row)
    ensures r in Kept(rows, ids) <==> r in rows && r.entry.id in ids
  {
    if rows != [] {
      var rest, last := rows[..|rows| - 1], rows[|rows| - 1];
      KeptElement(rest, ids, r);
      assert r in rows <==> r in rest || r == last;
    }
  }

  lemma {:induction false} KeptDistinct(rows: seq<Row>, ids: set<string>)
    requires DistinctIds(rows)
    ensures DistinctIds(Kept(rows, ids))
  {
    if rows != [] {
      var rest, last := rows[..|rows| - 1], rows[|rows| - 1];
      KeptDistinct(rest, ids);
      forall r | r in Kept(rest, ids) ensures r.entry.id != last.entry.id {
        KeptElement(rest, ids, r);
        var i :| 0 <= i < |rest| && rest[i] == r;
        assert rows[i] == r;
      }
    }
  }

  lemma {:induction false} InsertedAt(c: Columns, h: Hasher, f: Flush, i: nat)
    requires i < |Batched(f)| && KeptAt(f, i)
    ensures RowAt(c, h, f, i) in Inserted(c, h, f)
  {
    ChainedAt(c, h, f, i);
    assert AllRows(c, h, f)[i] in AllRows(c, h, f);
    KeptElement(AllRows(c, h, f), f.inserted, RowAt(c, h, f, i));
  }

  lemma {:induction false} InsertedFrom(c: Columns, h: Hasher, f: Flush, r: Row) returns (i: nat)
    requires r in Inserted(c, h, f)
    ensures i < |Batched(f)| && KeptAt(f, i) && r == RowAt(c, h, f, i)
  {
    KeptElement(AllRows(c, h, f), f.inserted, r);
    i :| 0 <= i < |Batched(f)| && AllRows(c, h, f)[i] == r;
    ChainedAt(c, h, f, i);
  }

  /** Entry i of a flush is one of its tenant's, with an id that is new, and unlike that of the others. */
  lemma {:induction false} BatchedAt(h: Hasher, used: set<string>, f: Flush, i: nat)
    requires IsFlush(h, used, f) && i < |Batched(f)|
    ensures Batched(f)[i] in f.batch && Batched(f)[i].id in IdsOf(f.batch)
    ensures forall j :: 0 <= j < |Batched(f)| && Batched(f)[j].id == Batched(f)[i].id ==> j == i
  {
    assert Batched(f)[i] in multiset(Batched(f));
    SortUnique(f.batch);
    forall j | 0 <= j < |Batched(f)| && Batched(f)[j].id == Batched(f)[i].id ensures j == i {
      UniqueIndex(Batched(f), i, j);
    }
  }

  /** What is inserted is the tenant's, with new ids. */
  lemma {:induction false} InsertedAre(c: Columns, h: Hasher, used: set<string>, f: Flush)
    requires IsFlush(h, used, f)
    ensures forall r :: r in Inserted(c, h, f) ==>
      && r.entry.tenant == c.uuid(f.tenant) && PipeFree(r.entry.id)
      && r.entry.id in IdsOf(f.batch) && r.entry.id in f.inserted && r.entry.id !in used
    ensures DistinctIds(Inserted(c, h, f))
  {
    forall r | r in Inserted(c, h, f)
      ensures && r.entry.tenant == c.uuid(f.tenant) && PipeFree(r.entry.id)
              && r.entry.id in IdsOf(f.batch) && r.entry.id in f.inserted && r.entry.id !in used
    {
      var i := InsertedFrom(c, h, f, r);
      BatchedAt(h, used, f, i);
    }
    var rows := AllRows(c, h, f);
    forall i, j | 0 <= i < j < |rows| ensures rows[i].entry.id != rows[j].entry.id {
      ChainedAt(c, h, f, i);
      ChainedAt(c, h, f, j);
      BatchedAt(h, used, f, i);
    }
    KeptDistinct(rows, f.inserted);
  }

  lemma {:induction false} FlushKeepsTable(c: Columns, h: Hasher, used: set<string>, rows: seq<Row>, f: Flush)
    requires Table(used, rows) && IsFlush(h, used, f)
    ensures Table(used + IdsOf(f.batch), After(c, h, rows, f))
    ensures Grows(rows, used, After(c, h, rows, f))
  {
    InsertedAre(c, h, used, f);
  }

  lemma {:induction false} RunGrows(c: Columns, h: Hasher, used: set<string>, rows: seq<Row>, fs: seq<Flush>)
    requires Table(used, rows) && Possible(h, used, fs)
    ensures Grows(rows, used, Run(c, h, rows, fs))
    decreases |fs|
  {
    if fs != [] {
      FlushKeepsTable(c, h, used, rows, fs[0]);
      RunGrows(c, h, used + IdsOf(fs[0].batch), After(c, h, rows, fs[0]), fs[1..]);
    }
  }

  // ----- a flush that is not good is never made good ---------------------------------------------------------

  lemma {:induction false} HashOwner(h: Hasher, rows: seq<Row>, k: nat, e: Entry, p: string)
    requires TellsIds(h) && Verified(h, rows) && k < |rows| && PipeFree(e.id) && rows[k].hash == h(e, p)
    ensures rows[k].entry.id == e.id
  {
    LinkedAt(h, rows, k);
    assert rows[k] in rows;
    assert SameHash(h, rows[k].entry, rows[k].prev, e, p);
  }

  lemma {:induction false} HashFrom(h: Hasher, rows: seq<Row>, k: nat, ids: set<string>)
    requires TellsIds(h) && Verified(h, rows) && k < |rows| && From(h, ids, rows[k].hash)
    ensures rows[k].entry.id in ids
  {
    LinkedAt(h, rows, k);
    var e: Entry, p: string :| e.id in ids && PipeFree(e.id) && rows[k].hash == h(e, p);
    HashOwner(h, rows, k, e, p);
  }

  lemma {:induction false} VerifiedHashes(h: Hasher, rows: seq<Row>)
    requires TellsIds(h) && Verified(h, rows)
    ensures DistinctHashes(rows)
  {
    forall i, j | 0 <= i < j < |rows| ensures rows[i].hash != rows[j].hash {
      LinkedAt(h, rows, j);
      if rows[i].hash == rows[j].hash {
        assert rows[j] in rows;
        HashOwner(h, rows, i, rows[j].entry, rows[j].prev);
      }
    }
  }

  /** A row that follows on a hash of an entry without a row is the first one. */
  lemma {:induction false} RootIsFirst(h: Hasher, rows: seq<Row>, gone: set<string>, k: nat)
    requires TellsIds(h) && Verified(h, rows) && k < |rows| && From(h, gone, rows[k].prev)
    requires forall r :: r in rows ==> r.entry.id !in gone
    ensures k == 0
  {
    if k > 0 {
      LinkedAt(h, rows, k);
      HashFrom(h, rows, k - 1, gone);
    }
  }

  lemma {:induction false} NextRow(h: Hasher, old': seq<Row>, rows: seq<Row>, i: nat)
    requires DistinctHashes(rows) && Links(rows) && Links(old') && Includes(rows, old')
    requires 0 < i < |old'| && i <= |rows| && rows[i - 1] == old'[i - 1]
    requires old'[i] != rows[0]
    ensures i < |rows| && rows[i] == old'[i]
  {
    assert old'[i] in rows;
    var k :| 0 <= k < |rows| && rows[k] == old'[i];
    assert rows[k].prev == rows[k - 1].hash && old'[i].prev == old'[i - 1].hash;
    assert rows[k - 1].hash == rows[i - 1].hash;
  }

  /** A verified arrangement that includes verified rows, and starts with their first one, starts with all of them. */
  lemma {:induction false} RowsComeFirst(h: Hasher, old': seq<Row>, rows: seq<Row>)
    requires TellsIds(h) && Verified(h, rows) && Verified(h, old') && Includes(rows, old')
    requires old' != [] && rows != [] && rows[0] == old'[0]
    ensures old' <= rows
  {
    VerifiedHashes(h, rows);
    LinkedLinks(h, rows);
    LinkedLinks(h, old');
    for i := 1 to |old'|
      invariant i <= |rows| && forall k :: 0 <= k < i ==> rows[k] == old'[k]
    {
      assert old'[i].entry.id != old'[0].entry.id;
      NextRow(h, old', rows, i);
    }
  }

  lemma {:induction false} Whence(rows: seq<Row>, added: seq<Row>, used: set<string>, all: seq<Row>, r: Row)
    requires Grows(rows + added, used, all) && r in all
    ensures r in rows || r in added || r.entry.id !in used
  {
    var k :| 0 <= k < |all| && all[k] == r;
    if k < |rows + added| {
      assert (rows + added)[k] == r;
    }
  }

  /** Whose rows the tenant has when the table has grown. */
  lemma {:induction false} WhoseRow(c: Columns, h: Hasher, used: set<string>, rows: seq<Row>, f: Flush, all: seq<Row>,
                                    tenant: string, r: Row)
    requires Table(used, rows) && IsFlush(h, used, f)
    requires Grows(After(c, h, rows, f), used + IdsOf(f.batch), all) && r in OrderedRows(all, tenant)
    ensures r.entry.id in used ==> r in OrderedRows(rows, tenant)
    ensures r.entry.id in IdsOf(f.batch) ==> r.entry.id in f.inserted
  {
    OrderedRowsElement(all, tenant, r);
    OrderedRowsElement(rows, tenant, r);
    Whence(rows, Inserted(c, h, f), used + IdsOf(f.batch), all, r);
    InsertedAre(c, h, used, f);
  }

  /** The tenant's rows once the table has grown after a flush: every row the flush inserted, the old ones, and others
      whose ids were neither used before nor in the batch. */
  ghost predicate Holds(c: Columns, h: Hasher, used: set<string>, f: Flush, old': seq<Row>, order: seq<Row>) {
    && Includes(order, old')
    && (forall i :: 0 <= i < |Batched(f)| && KeptAt(f, i) ==> RowAt(c, h, f, i) in order)
    && (forall r :: r in old' ==> r.entry.id in used)
    && (forall r :: r in order && r.entry.id in used ==> r in old')
    && (forall r :: r in order && r.entry.id in IdsOf(f.batch) ==> r.entry.id in f.inserted)
  }

  lemma {:induction false} GrownHolds(c: Columns, h: Hasher, used: set<string>, rows: seq<Row>, f: Flush, all: seq<Row>)
    requires Table(used, rows) && IsFlush(h, used, f)
    requires Grows(After(c, h, rows, f), used + IdsOf(f.batch), all)
    ensures Holds(c, h, used, f, OrderedRows(rows, c.uuid(f.tenant)), OrderedRows(all, c.uuid(f.tenant)))
  {
    var u := c.uuid(f.tenant);
    assert rows <= After(c, h, rows, f) <= all;
    OldRowsStay(rows, all, u);
    forall i | 0 <= i < |Batched(f)| && KeptAt(f, i) ensures RowAt(c, h, f, i) in OrderedRows(all, u) {
      PlaceInAll(c, h, used, rows, f, all, i);
    }
    forall r | r in OrderedRows(rows, u) ensures r.entry.id in used {
      OrderedRowsElement(rows, u, r);
    }
    forall r | r in OrderedRows(all, u)
      ensures r.entry.id in used ==> r in OrderedRows(rows, u)
      ensures r.entry.id in IdsOf(f.batch) ==> r.entry.id in f.inserted
    {
      WhoseRow(c, h, used, rows, f, all, u, r);
    }
  }

  /** The row of an inserted entry is there. */
  lemma {:induction false} PlaceInAll(c: Columns, h: Hasher, used: set<string>, rows: seq<Row>, f: Flush, all: seq<Row>,
                                      i: nat)
    requires IsFlush(h, used, f) && After(c, h, rows, f) <= all && i < |Batched(f)| && KeptAt(f, i)
    ensures RowAt(c, h, f, i) in OrderedRows(all, c.uuid(f.tenant))
  {
    var r, new' := RowAt(c, h, f, i), Inserted(c, h, f);
    InsertedAt(c, h, f, i);
    InsertedAre(c, h, used, f);
    var n :| 0 <= n < |new'| && new'[n] == r;
    assert all[|rows| + n] == After(c, h, rows, f)[|rows| + n] == r;
    OrderedRowsElement(all, c.uuid(f.tenant), r);
  }

  lemma {:induction false} PrevIsHash(c: Columns, h: Hasher, f: Flush, i: nat)
    requires 0 < i < |Batched(f)|
    ensures RowAt(c, h, f, i).prev == h(Batched(f)[i - 1], RowAt(c, h, f, i - 1).prev)
  {
    assert Batched(f)[..i][..i - 1] == Batched(f)[..i - 1];
  }

  /** An inserted entry that is not the chain's very first follows on an inserted one, ... */
  lemma {:induction false} AfterInserted(c: Columns, h: Hasher, used: set<string>, f: Flush, old': seq<Row>,
                                         order: seq<Row>, i: nat, k: nat)
    requires TellsIds(h) && IsFlush(h, used, f) && Holds(c, h, used, f, old', order) && Verified(h, order)
    requires 0 < i < |Batched(f)| && 0 < k < |order| && order[k] == RowAt(c, h, f, i)
    ensures KeptAt(f, i - 1)
  {
    LinkedAt(h, order, k);
    PrevIsHash(c, h, f, i);
    BatchedAt(h, used, f, i - 1);
    HashOwner(h, order, k - 1, Batched(f)[i - 1], RowAt(c, h, f, i - 1).prev);
    assert order[k - 1] in order;
  }

  /** ... or is the first of the batch and follows on an old row that has the start hash. */
  lemma {:induction false} AfterOld(c: Columns, h: Hasher, used: set<string>, f: Flush, old': seq<Row>, order: seq<Row>,
                                    k: nat)
    requires TellsIds(h) && IsFlush(h, used, f) && Holds(c, h, used, f, old', order) && Verified(h, order)
    requires 0 < |Batched(f)| && 0 < k < |order| && order[k] == RowAt(c, h, f, 0)
    ensures order[k - 1].hash == f.start && order[k - 1] in old'
  {
    LinkedAt(h, order, k);
    HashFrom(h, order, k - 1, used);
    assert order[k - 1] in order;
  }

  lemma {:induction false} InsertedReadBack(c: Columns, h: Hasher, used: set<string>, f: Flush, old': seq<Row>,
                                            order: seq<Row>)
    requires Holds(c, h, used, f, old', order) && Linked(h, order) && TellsReadBack(c, h)
    ensures KeptReadBack(c, f)
  {
    forall i | 0 <= i < |Batched(f)| && KeptAt(f, i) ensures ReadsBack(c, Batched(f)[i]) {
      var k :| 0 <= k < |order| && order[k] == RowAt(c, h, f, i);
      LinkedAt(h, order, k);
      var e, prev := Batched(f)[i], RowAt(c, h, f, i).prev;
      assert h(Stored(c, e), prev) == h(e, prev) <==> ReadsBack(c, e);
    }
  }

  /** Going back from an inserted entry, where the inserted ones start. */
  lemma {:induction false} StartOfBlock(f: Flush, i: nat) returns (m: nat)
    requires i < |Batched(f)| && KeptAt(f, i)
    ensures m <= i && KeptAt(f, m) && (m > 0 ==> !KeptAt(f, m - 1))
    ensures forall j :: m <= j <= i ==> KeptAt(f, j)
  {
    m := i;
    while m > 0 && KeptAt(f, m - 1)
      invariant m <= i && forall j :: m <= j <= i ==> KeptAt(f, j)
    {
      m := m - 1;
    }
  }

  /** Without old rows an inserted entry with none inserted right before it is the chain's first, ... */
  lemma {:induction false} BlockIsFirst(c: Columns, h: Hasher, used: set<string>, f: Flush, order: seq<Row>, i: nat)
    requires TellsIds(h) && IsFlush(h, used, f) && Holds(c, h, used, f, [], order) && Verified(h, order)
    requires i < |Batched(f)| && KeptAt(f, i) && (i > 0 ==> !KeptAt(f, i - 1))
    ensures order != [] && order[0].entry.id == Batched(f)[i].id
  {
    var k :| 0 <= k < |order| && order[k] == RowAt(c, h, f, i);
    if k > 0 && i > 0 {
      AfterInserted(c, h, used, f, [], order, i, k);
    } else if k > 0 {
      AfterOld(c, h, used, f, [], order, k);
    }
  }

  lemma {:induction false} BlockIsOnly(c: Columns, h: Hasher, used: set<string>, f: Flush, order: seq<Row>, i: nat,
                                       j: nat)
    requires TellsIds(h) && IsFlush(h, used, f) && Holds(c, h, used, f, [], order) && Verified(h, order)
    requires i < |Batched(f)| && KeptAt(f, i) && (i > 0 ==> !KeptAt(f, i - 1))
    requires j < |Batched(f)| && KeptAt(f, j) && (j > 0 ==> !KeptAt(f, j - 1))
    ensures i == j
  {
    BlockIsFirst(c, h, used, f, order, i);
    BlockIsFirst(c, h, used, f, order, j);
    BatchedAt(h, used, f, i);
  }

  /** ... so two inserted entries have none left out in between. */
  lemma {:induction false} NoGap(c: Columns, h: Hasher, used: set<string>, f: Flush, order: seq<Row>,
                                 i: nat, j: nat, k: nat)
    requires TellsIds(h) && IsFlush(h, used, f) && Holds(c, h, used, f, [], order) && Verified(h, order)
    requires i < j < k < |Batched(f)| && KeptAt(f, i) && KeptAt(f, k)
    ensures KeptAt(f, j)
  {
    var a := StartOfBlock(f, i);
    var b := StartOfBlock(f, k);
    BlockIsOnly(c, h, used, f, order, a, b);
  }

  /** The tenant's old rows come first. */
  lemma {:induction false} OldComeFirst(c: Columns, h: Hasher, used: set<string>, f: Flush, old': seq<Row>,
                                        order: seq<Row>)
    requires TellsIds(h) && Holds(c, h, used, f, old', order) && Verified(h, order)
    requires Verified(h, old') && Rooted(h, used, old') && old' != []
    ensures old' <= order
  {
    var k :| 0 <= k < |order| && order[k] == old'[0];
    RootIsFirst(h, order, used - RowIds(old'), k);
    RowsComeFirst(h, old', order);
  }

  /** So every inserted entry comes after them. */
  lemma {:induction false} PlaceIsAfter(c: Columns, h: Hasher, used: set<string>, f: Flush, old': seq<Row>,
                                        order: seq<Row>, i: nat) returns (k: nat)
    requires IsFlush(h, used, f) && Holds(c, h, used, f, old', order) && old' <= order
    requires i < |Batched(f)| && KeptAt(f, i)
    ensures |old'| <= k < |order| && order[k] == RowAt(c, h, f, i)
  {
    k :| 0 <= k < |order| && order[k] == RowAt(c, h, f, i);
    BatchedAt(h, used, f, i);
  }

  lemma {:induction false} FirstIsInserted(c: Columns, h: Hasher, used: set<string>, f: Flush, old': seq<Row>,
                                           order: seq<Row>, i: nat)
    requires TellsIds(h) && IsFlush(h, used, f) && Holds(c, h, used, f, old', order) && Verified(h, order)
    requires old' != [] && old' <= order && i < |Batched(f)| && KeptAt(f, i)
    ensures forall j :: 0 <= j <= i ==> KeptAt(f, j)
  {
    var m := StartOfBlock(f, i);
    var k := PlaceIsAfter(c, h, used, f, old', order, m);
    if m > 0 {
      AfterInserted(c, h, used, f, old', order, m, k);
    }
  }

  lemma {:induction false} StartsFromLast(c: Columns, h: Hasher, used: set<string>, f: Flush, old': seq<Row>,
                                          order: seq<Row>)
    requires TellsIds(h) && IsFlush(h, used, f) && Holds(c, h, used, f, old', order) && Verified(h, order)
    requires old' != [] && old' <= order && 0 < |Batched(f)| && KeptAt(f, 0)
    ensures f.start == old'[|old'| - 1].hash
  {
    var k := PlaceIsAfter(c, h, used, f, old', order, 0);
    AfterOld(c, h, used, f, old', order, k);
    var j :| 0 <= j < |old'| && old'[j] == order[k - 1];
    assert order[j] == old'[j];
    assert j == k - 1;
  }

  lemma {:induction false} InsertedLater(c: Columns, h: Hasher, used: set<string>, f: Flush, old': seq<Row>,
                                         order: seq<Row>)
    requires IsFlush(h, used, f) && Holds(c, h, used, f, old', order) && old' <= order && Sorted(order, RowLeq)
    ensures KeptLater(f, old')
  {
    forall i, r | 0 <= i < |Batched(f)| && KeptAt(f, i) && r in old' ensures EntryLeq(r.entry, Batched(f)[i]) {
      var k := PlaceIsAfter(c, h, used, f, old', order, i);
      var j :| 0 <= j < |old'| && old'[j] == r;
      assert order[j] == r && RowLeq(order[j], order[k]);
    }
  }

  /** A chain that verifies after a flush, and whatever came later, shows the flush to be good. */
  lemma {:induction false} OnlyGood(c: Columns, h: Hasher, used: set<string>, f: Flush, old': seq<Row>, order: seq<Row>)
    requires TellsIds(h) && TellsReadBack(c, h) && IsFlush(h, used, f) && Holds(c, h, used, f, old', order)
    requires Verified(h, order) && Sorted(order, RowLeq) && Verified(h, old') && Rooted(h, used, old')
    ensures Good(c, f, old')
  {
    if !Nothing(f) {
      InsertedReadBack(c, h, used, f, old', order);
      if old' == [] {
        forall i, j, k | 0 <= i < j < k < |Batched(f)| && KeptAt(f, i) && KeptAt(f, k) ensures KeptAt(f, j) {
          NoGap(c, h, used, f, order, i, j, k);
        }
      } else {
        OldComeFirst(c, h, used, f, old', order);
        forall i | 0 <= i < |Batched(f)| && KeptAt(f, i) ensures forall j :: 0 <= j <= i ==> KeptAt(f, j) {
          FirstIsInserted(c, h, used, f, old', order, i);
        }
        StartsFromLast(c, h, used, f, old', order);
        InsertedLater(c, h, used, f, old', order);
      }
    }
  }

  // ----- a good flush keeps the chain ------------------------------------------------------------------------

  /** Inserted entries that follow one another are a stretch of the batch. */
  lemma {:induction false} Block(f: Flush) returns (lo: nat, hi: nat)
    requires Together(f) && !Nothing(f)
    ensures lo < hi <= |Batched(f)| && forall i :: 0 <= i < |Batched(f)| ==> (KeptAt(f, i) <==> lo <= i < hi)
  {
    var some :| 0 <= some < |Batched(f)| && KeptAt(f, some);
    lo := StartOfBlock(f, some);
    hi := some + 1;
    while hi < |Batched(f)| && KeptAt(f, hi)
      invariant some < hi <= |Batched(f)| && forall j :: lo <= j < hi ==> KeptAt(f, j)
    {
      hi := hi + 1;
    }
  }

  lemma {:induction false} KeptStretch(rows: seq<Row>, ids: set<string>, lo: nat, hi: nat)
    requires lo <= hi <= |rows|
    requires forall i :: 0 <= i < |rows| ==> (rows[i].entry.id in ids <==> lo <= i < hi)
    ensures Kept(rows, ids) == rows[lo..hi]
  {
    if rows != [] {
      var rest := rows[..|rows| - 1];
      if lo == |rows| {
        KeptStretch(rest, ids, |rest|, |rest|);
      } else if hi == |rows| {
        KeptStretch(rest, ids, lo, |rest|);
        assert rows[lo..hi] == rest[lo..] + [rows[|rows| - 1]];
      } else {
        KeptStretch(rest, ids, lo, hi);
      }
    }
  }

  lemma {:induction false} InsertedIs(c: Columns, h: Hasher, f: Flush, lo: nat, hi: nat)
    requires lo <= hi <= |Batched(f)| && forall i :: 0 <= i < |Batched(f)| ==> (KeptAt(f, i) <==> lo <= i < hi)
    ensures |Inserted(c, h, f)| == hi - lo
    ensures forall k :: 0 <= k < hi - lo ==> Inserted(c, h, f)[k] == RowAt(c, h, f, lo + k)
  {
    forall i | 0 <= i < |Batched(f)|
      ensures AllRows(c, h, f)[i] == RowAt(c, h, f, i) && (KeptAt(f, i) <==> lo <= i < hi)
    {
      ChainedAt(c, h, f, i);
    }
    KeptStretch(AllRows(c, h, f), f.inserted, lo, hi);
  }

  lemma {:induction false} LinkedFrom(h: Hasher, rows: seq<Row>)
    requires Links(rows) && forall i :: 0 <= i < |rows| ==> rows[i].hash == h(rows[i].entry, rows[i].prev)
    ensures Linked(h, rows)
  {
    if rows != [] {
      LinkedFrom(h, rows[..|rows| - 1]);
    }
  }

  lemma {:induction false} StretchLinked(c: Columns, h: Hasher, f: Flush, lo: nat, hi: nat)
    requires TellsReadBack(c, h) && KeptReadBack(c, f)
    requires lo <= hi <= |Batched(f)| && forall i :: 0 <= i < |Batched(f)| ==> (KeptAt(f, i) <==> lo <= i < hi)
    ensures Linked(h, Inserted(c, h, f))
  {
    var rows := Inserted(c, h, f);
    InsertedIs(c, h, f, lo, hi);
    forall i | 0 <= i < |rows| ensures rows[i].hash == h(rows[i].entry, rows[i].prev) {
      var e, prev := Batched(f)[lo + i], RowAt(c, h, f, lo + i).prev;
      assert KeptAt(f, lo + i);
      assert h(Stored(c, e), prev) == h(e, prev) <==> ReadsBack(c, e);
    }
    forall i | 0 < i < |rows| ensures rows[i].prev == rows[i - 1].hash {
      PrevIsHash(c, h, f, lo + i);
    }
    LinkedFrom(h, rows);
  }

  lemma {:induction false} StretchSorted(c: Columns, h: Hasher, f: Flush, lo: nat, hi: nat)
    requires lo <= hi <= |Batched(f)| && forall i :: 0 <= i < |Batched(f)| ==> (KeptAt(f, i) <==> lo <= i < hi)
    ensures Sorted(Inserted(c, h, f), RowLeq)
  {
    EntryOrder();
    SortSorted(f.batch, EntryLeq);
    InsertedIs(c, h, f, lo, hi);
    SortedLike(Inserted(c, h, f), Batched(f)[lo..hi]);
  }

  /** Later rows come last. */
  lemma {:induction false} LaterComeLast(rows: seq<Row>, added: seq<Row>, tenant: string)
    requires DistinctIds(rows + added) && Sorted(added, RowLeq) && forall r :: r in added ==> r.entry.tenant == tenant
    requires forall x, y :: x in OrderedRows(rows, tenant) && y in added ==> RowLeq(x, y)
    ensures OrderedRows(rows + added, tenant) == OrderedRows(rows, tenant) + added
  {
    var all := rows + added;
    EntryOrder();
    SortSorted(RowsOf(rows, tenant), RowLeq);
    SortedConcat(OrderedRows(rows, tenant), added, RowLeq);
    SameRowsRearranged(rows, added, tenant);
    assert PrimaryKey(Entries(all));
    RowsNoTies(all, tenant);
    SortSorted(RowsOf(all, tenant), RowLeq);
    NoTiesRearranged(RowsOf(all, tenant), OrderedRows(rows, tenant) + added, RowLeq);
    SortedUnique(OrderedRows(rows, tenant) + added, OrderedRows(all, tenant), RowLeq);
  }

  lemma {:induction false} NothingInserted(c: Columns, h: Hasher, f: Flush)
    requires Nothing(f)
    ensures Inserted(c, h, f) == []
  {
    InsertedIs(c, h, f, 0, 0);
  }

  /** What a good flush does to the tenant's rows. */
  lemma {:induction false} GoodComesLast(c: Columns, h: Hasher, used: set<string>, rows: seq<Row>, f: Flush)
    requires Table(used, rows) && IsFlush(h, used, f) && Good(c, f, OrderedRows(rows, c.uuid(f.tenant)))
    ensures OrderedRows(After(c, h, rows, f), c.uuid(f.tenant))
         == OrderedRows(rows, c.uuid(f.tenant)) + Inserted(c, h, f)
  {
    var u, added := c.uuid(f.tenant), Inserted(c, h, f);
    if Nothing(f) {
      NothingInserted(c, h, f);
      assert rows + added == rows;
    } else {
      var lo, hi := Block(f);
      StretchSorted(c, h, f, lo, hi);
      InsertedAre(c, h, used, f);
      FlushKeepsTable(c, h, used, rows, f);
      forall x, y | x in OrderedRows(rows, u) && y in added ensures RowLeq(x, y) {
        var i := InsertedFrom(c, h, f, y);
      }
      LaterComeLast(rows, added, u);
    }
  }

  lemma {:induction false} GoodLinked(c: Columns, h: Hasher, f: Flush, old': seq<Row>)
    requires TellsReadBack(c, h) && Linked(h, old') && Good(c, f, old')
    ensures Linked(h, old' + Inserted(c, h, f))
  {
    var added := Inserted(c, h, f);
    if Nothing(f) {
      NothingInserted(c, h, f);
      assert old' + added == old';
    } else {
      var lo, hi := Block(f);
      StretchLinked(c, h, f, lo, hi);
      InsertedIs(c, h, f, lo, hi);
      if old' == [] {
        assert old' + added == added;
      } else {
        assert added[0].prev == f.start;
        LinkedConcat(h, old', added);
      }
    }
  }

  lemma {:induction false} GoodRooted(c: Columns, h: Hasher, used: set<string>, f: Flush, old': seq<Row>)
    requires IsFlush(h, used, f) && Good(c, f, old') && Rooted(h, used, old')
    ensures Rooted(h, used + IdsOf(f.batch), old' + Inserted(c, h, f))
  {
    var added := Inserted(c, h, f);
    if old' != [] {
      InsertedAre(c, h, used, f);
      assert (old' + added)[0] == old'[0];
      FromMore(h, used - RowIds(old'), used + IdsOf(f.batch) - RowIds(old' + added), old'[0].prev);
    } else if !Nothing(f) {
      StretchRooted(c, h, used, f);
      assert old' + added == added;
    } else {
      NothingInserted(c, h, f);
    }
  }

  lemma {:induction false} StretchRooted(c: Columns, h: Hasher, used: set<string>, f: Flush)
    requires IsFlush(h, used, f) && Together(f) && !Nothing(f)
    ensures Rooted(h, used + IdsOf(f.batch), Inserted(c, h, f))
  {
    var lo, hi := Block(f);
    InsertedIs(c, h, f, lo, hi);
    InsertedAre(c, h, used, f);
    if lo == 0 {
      FromMore(h, used, used + IdsOf(f.batch) - RowIds(Inserted(c, h, f)), f.start);
    } else {
      PrevIsHash(c, h, f, lo);
      BatchedAt(h, used, f, lo - 1);
      assert !KeptAt(f, lo - 1);
    }
  }

  lemma {:induction false} FromMore(h: Hasher, ids: set<string>, more: set<string>, s: string)
    requires From(h, ids, s) && ids <= more
    ensures From(h, more, s)
  {
  }

  lemma {:induction false} OtherFlush(c: Columns, h: Hasher, used: set<string>, rows: seq<Row>, f: Flush,
                                      tenant: string)
    requires IsFlush(h, used, f) && c.uuid(f.tenant) != tenant
    ensures OrderedRows(After(c, h, rows, f), tenant) == OrderedRows(rows, tenant)
  {
    var added := Inserted(c, h, f);
    InsertedAre(c, h, used, f);
    RowsOfConcat(rows, added, tenant);
    RowsOfUniform(added, c.uuid(f.tenant), tenant);
    assert RowsOf(rows, tenant) + [] == RowsOf(rows, tenant);
  }

  // ----- any run ---------------------------------------------------------------------------------------------

  lemma {:induction false} RunVerifiesIff(c: Columns, h: Hasher, used: set<string>, rows: seq<Row>, fs: seq<Flush>,
                                          tenant: string)
    requires TellsIds(h) && TellsReadBack(c, h) && Table(used, rows) && Possible(h, used, fs)
    requires Linked(h, OrderedRows(rows, tenant)) && Rooted(h, used, OrderedRows(rows, tenant))
    ensures Linked(h, OrderedRows(Run(c, h, rows, fs), tenant)) <==> AllGood(c, h, rows, fs, tenant)
    decreases |fs|
  {
    if fs != [] {
      var f, old' := fs[0], OrderedRows(rows, tenant);
      var used', next := used + IdsOf(f.batch), After(c, h, rows, f);
      FlushKeepsTable(c, h, used, rows, f);
      if c.uuid(f.tenant) != tenant {
        OtherFlush(c, h, used, rows, f, tenant);
        RootedMore(h, used, used', old');
        RunVerifiesIff(c, h, used', next, fs[1..], tenant);
      } else if Good(c, f, old') {
        GoodComesLast(c, h, used, rows, f);
        GoodLinked(c, h, f, old');
        GoodRooted(c, h, used, f, old');
        RunVerifiesIff(c, h, used', next, fs[1..], tenant);
      } else {
        NeverMadeGood(c, h, used, rows, fs, tenant);
      }
    }
  }

  lemma {:induction false} RootedMore(h: Hasher, used: set<string>, more: set<string>, rows: seq<Row>)
    requires Rooted(h, used, rows) && used <= more
    ensures Rooted(h, more, rows)
  {
    if rows != [] {
      FromMore(h, used - RowIds(rows), more - RowIds(rows), rows[0].prev);
    }
  }

  /** After a flush that is not good the tenant's chain never verifies again, whatever is flushed later. */
  lemma {:induction false} NeverMadeGood(c: Columns, h: Hasher, used: set<string>, rows: seq<Row>, fs: seq<Flush>,
                                         tenant: string)
    requires TellsIds(h) && TellsReadBack(c, h) && Table(used, rows) && Possible(h, used, fs) && fs != []
    requires Linked(h, OrderedRows(rows, tenant)) && Rooted(h, used, OrderedRows(rows, tenant))
    requires c.uuid(fs[0].tenant) == tenant && !Good(c, fs[0], OrderedRows(rows, tenant))
    ensures !Linked(h, OrderedRows(Run(c, h, rows, fs), tenant))
  {
    var f, all := fs[0], Run(c, h, rows, fs);
    FlushKeepsTable(c, h, used, rows, f);
    RunGrows(c, h, used + IdsOf(f.batch), After(c, h, rows, f), fs[1..]);
    GrownHolds(c, h, used, rows, f, all);
    OrderedVerified(h, rows, tenant);
    EntryOrder();
    SortSorted(RowsOf(all, tenant), RowLeq);
    if Linked(h, OrderedRows(all, tenant)) {
      RunGrows(c, h, used, rows, fs);
      AllPipeFreeIds(c, h, used, rows, fs);
      OrderedVerified(h, all, tenant);
      OnlyGood(c, h, used, f, OrderedRows(rows, tenant), OrderedRows(all, tenant));
    }
  }

  lemma {:induction false} AllPipeFreeIds(c: Columns, h: Hasher, used: set<string>, rows: seq<Row>, fs: seq<Flush>)
    requires Table(used, rows) && Grows(rows, used, Run(c, h, rows, fs))
    ensures forall r :: r in Run(c, h, rows, fs) ==> PipeFree(r.entry.id)
  {
    var all := Run(c, h, rows, fs);
    forall r | r in all ensures PipeFree(r.entry.id) {
      var k :| 0 <= k < |all| && all[k] == r;
      if k < |rows| {
        assert rows[k] == r;
      }
    }
  }

  lemma {:induction false} RowsOfCount(rows: seq<Row>, tenant: string, r: Row)
    ensures multiset(RowsOf(rows, tenant))[r] == if r.entry.tenant == tenant then multiset(rows)[r] else 0
  {
    if rows != [] {
      RowsOfCount(rows[1..], tenant, r);
      assert rows == [rows[0]] + rows[1..];
    }
  }

  /** The order in which rows were inserted does not matter to verification. */
  lemma {:induction false} InsertOrderIrrelevant(rows: seq<Row>, others: seq<Row>, tenant: string)
    requires DistinctIds(rows) && multiset(rows) == multiset(others)
    ensures OrderedRows(rows, tenant) == OrderedRows(others, tenant)
  {
    var a, b := RowsOf(rows, tenant), RowsOf(others, tenant);
    forall r ensures multiset(a)[r] == multiset(b)[r] {
      RowsOfCount(rows, tenant, r);
      RowsOfCount(others, tenant, r);
    }
    assert multiset(a) == multiset(b);
    assert PrimaryKey(Entries(rows));
    RowsNoTies(rows, tenant);
    EntryOrder();
    SortCanonical(a, b, RowLeq);
  }

  /** A tenant whose rows form the chain from genesis, or who has none, has a chain that verifies after any run of
      flushes, of any tenants, whatever they chained from and whichever entries were dropped, exactly when every flush
      of the tenant is good when its turn comes.  The flushes are in the order in which they chained, and their rows may
      have been inserted in any other. */
  lemma {:induction false} AppendsVerifyIff(sha: string -> string, c: Columns, used: set<string>, rows: seq<Row>,
                                            fs: seq<Flush>, table: seq<Row>, tenant: string)
    requires Digest(sha) && Table(used, rows) && Possible(HasherOf(sha), used, fs)
    requires OrderedRows(rows, tenant) == TenantChain(HasherOf(sha), Entries(rows), tenant)
    requires multiset(table) == multiset(Run(c, HasherOf(sha), rows, fs))
    ensures Linked(HasherOf(sha), OrderedRows(table, tenant)) <==> AllGood(c, HasherOf(sha), rows, fs, tenant)
  {
    var h := HasherOf(sha);
    DigestTellsIds(sha);
    DigestTells(sha, c);
    ChainRowsLinked(h, GENESIS, Ordered(Entries(rows), tenant));
    RunVerifiesIff(c, h, used, rows, fs, tenant);
    RunGrows(c, h, used, rows, fs);
    InsertOrderIrrelevant(Run(c, h, rows, fs), table, tenant);
  }

  /** What the service appends is a flush that chains from the tail it reads. */
  lemma {:induction false} FlushedIs(c: Columns, h: Hasher, db: Db, tenant: string, batch: seq<Entry>,
                                     inserted: set<string>)
    requires batch != []
    ensures Flushed(c, h, db, tenant, batch, inserted).rows
         == After(c, h, db.rows, Flush(tenant, batch, LastHash(c, db, tenant), inserted))
  {
  }

  /** When nothing is dropped it is an append. */
  lemma {:induction false} FlushedWhole(c: Columns, h: Hasher, db: Db, tenant: string, batch: seq<Entry>,
                                        inserted: set<string>)
    requires batch != [] && IdsOf(batch) <= inserted
    ensures Flushed(c, h, db, tenant, batch, inserted) == Appended(c, h, db, tenant, batch)
  {
    var rows := NewRows(c, h, db, tenant, batch);
    forall i | 0 <= i < |rows| ensures rows[i].entry.id in inserted {
      var e := NewRowFrom(c, h, db, tenant, batch, rows[i]);
      assert e.id in IdsOf(batch);
    }
    KeptStretch(rows, inserted, 0, |rows|);
  }
}
