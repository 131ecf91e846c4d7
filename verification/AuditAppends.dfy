/** What appends do to a rebuilt chain: exactly when a batch, or a run of batches of any tenants, leaves a tenant's
    chain verifying (backend/internal/audit/service/audit_service.go:131-248). */
module AuditAppends {
  import opened Ordering
  import opened EntryHashing
  import opened AuditChain
  import opened Rebaselining
  import opened AuditStore

  function StoredHash(db: Db, tenant: string): string {
    if tenant in db.state then db.state[tenant].hash else GENESIS
  }

  /** The tenant's rows form the chain from genesis, and both the stored and any cached hash are its last one. */
  ghost predicate Whole(h: Hasher, db: Db, tenant: string) {
    && OrderedRows(db.rows, tenant) == TenantChain(h, Entries(db.rows), tenant)
    && StoredHash(db, tenant) == TenantHash(h, Entries(db.rows), tenant)
    && (tenant in db.cache ==> db.cache[tenant] == TenantHash(h, Entries(db.rows), tenant))
  }

  /** The text that was hashed for an entry is the text that will be hashed to verify it. */
  predicate ReadsBack(c: Columns, e: Entry) {
    JoinPipe(Fields(Stored(c, e))) == JoinPipe(Fields(e))
  }

  ghost predicate AllReadBack(c: Columns, batch: seq<Entry>) {
    forall e :: e in batch ==> ReadsBack(c, e)
  }

  /** Every entry of the batch sorts after the tenant's rows. */
  ghost predicate AllLater(rows: seq<Row>, tenant: string, batch: seq<Entry>) {
    forall r, e :: r in OrderedRows(rows, tenant) && e in batch ==> EntryLeq(r.entry, e)
  }

  /** A batch the service can chain and the table can hold: of one tenant, with ids and tenant spelled without pipes and
      respecting the primary key. */
  ghost predicate IsBatch(c: Columns, h: Hasher, db: Db, tenant: string, batch: seq<Entry>) {
    && batch != [] && PipeFree(tenant) && PipeFree(c.uuid(tenant))
    && (forall e :: e in batch ==> e.tenant == tenant && PipeFree(e.id))
    && PrimaryKey(Entries(Appended(c, h, db, tenant, batch).rows))
  }

  // ----- reading back ----------------------------------------------------------------------------------------

  /** Entries already in the columns' form read back: whatever was stored and read can be stored again. */
  lemma {:induction false} StoredReadsBack(c: Columns, e: Entry)
    requires NormalForm(c)
    ensures ReadsBack(c, Stored(c, e))
  {
    assert Stored(c, Stored(c, e)) == Stored(c, e);
  }

  /** An entry the tables can hold reads back exactly when it is in that form: its tenant and user spelled as the UUID
      columns spell them, and its two values as the JSON columns write them. */
  lemma {:induction false} ReadsBackIff(c: Columns, e: Entry)
    requires Storable(e) && Storable(Stored(c, e))
    ensures ReadsBack(c, e) <==> Stored(c, e) == e
    ensures ReadsBack(c, e) <==>
      c.uuid(e.tenant) == e.tenant && c.uuid(e.user) == e.user && c.json(e.oldValue) == e.oldValue &&
      c.json(e.newValue) == e.newValue
  {
    if ReadsBack(c, e) {
      StorableParts(e, Stored(c, e));
    }
  }

  const GIVEN := "{\"status\":\"open\",\"id\":7}"
  const HELD := "{\"id\":7,\"status\":\"open\"}"

  /** Columns that put the shorter key first in this value, as JSONB does, and hold every other text as it comes. */
  const KEY_ORDER := Columns(x => x, x => if x == GIVEN then HELD else x)

  /** An entry with that value does not read back, and in the form the column gives it, it does. */
  lemma {:induction false} ReorderedValue(e: Entry)
    requires e.newValue == GIVEN
    ensures NormalForm(KEY_ORDER)
    ensures !ReadsBack(KEY_ORDER, e) && ReadsBack(KEY_ORDER, Stored(KEY_ORDER, e))
  {
    var s := Stored(KEY_ORDER, e);
    assert GIVEN[2] == 's' && HELD[2] == 'i' && |GIVEN| == |HELD|;
    StoredReadsBack(KEY_ORDER, e);
    FieldsJoin(e);
    FieldsJoin(s);
    var x, y := JoinPipe(Fields(e)), JoinPipe(Fields(s));
    assert x[|x| - |GIVEN|..] == GIVEN && y[|y| - |HELD|..] == HELD;
  }

  /** One that reads back spells its tenant as the column does. */
  lemma {:induction false} ReadsBackTenant(c: Columns, e: Entry)
    requires ReadsBack(c, e) && PipeFree(e.id) && PipeFree(e.tenant) && PipeFree(c.uuid(e.tenant))
    ensures c.uuid(e.tenant) == e.tenant
  {
    var s := Stored(c, e);
    AfterIds(e);
    AfterIds(s);
    var x, y := JoinPipe(Fields(e)[2..]), JoinPipe(Fields(s)[2..]);
    SplitAtFirstPipe(e.id, e.tenant + "|" + x, s.id, s.tenant + "|" + y);
    SplitAtFirstPipe(e.tenant, x, s.tenant, y);
  }

  lemma {:induction false} AfterIds(e: Entry)
    ensures JoinPipe(Fields(e)) == e.id + "|" + (e.tenant + "|" + JoinPipe(Fields(e)[2..]))
  {
    assert Fields(e)[1..][0] == e.tenant && Fields(e)[1..][1..] == Fields(e)[2..];
  }

  /** Hashing what is read back gives the hash that was stored exactly when the entry reads back. */
  lemma {:induction false} HashAgreesIff(sha: string -> string, c: Columns, e: Entry, prev: string)
    requires Digest(sha)
    ensures EntryHash(sha, Stored(c, e), prev) == EntryHash(sha, e, prev) <==> ReadsBack(c, e)
  {
    if EntryHash(sha, Stored(c, e), prev) == EntryHash(sha, e, prev) {
      SamePrev(Stored(c, e), e, prev);
    }
  }

  lemma {:induction false} StoredSnoc(c: Columns, rows: seq<Row>, r: Row)
    ensures StoredRows(c, rows + [r]) == StoredRows(c, rows) + [StoredRow(c, r)]
  {
  }

  lemma {:induction false} LinkedSnoc(h: Hasher, rows: seq<Row>, r: Row)
    ensures Linked(h, rows + [r])
      <==> Linked(h, rows) && r.hash == h(r.entry, r.prev) && (rows != [] ==> r.prev == rows[|rows| - 1].hash)
  {
    assert (rows + [r])[..|rows|] == rows;
  }

  /** A hasher under which exactly the entries that read back verify. */
  ghost predicate TellsReadBack(c: Columns, h: Hasher) {
    forall e, p :: h(Stored(c, e), p) == h(e, p) <==> ReadsBack(c, e)
  }

  lemma {:induction false} StoredLinkedSnoc(c: Columns, h: Hasher, chain: seq<Row>, e: Entry, prev: string)
    requires TellsReadBack(c, h) && (chain != [] ==> prev == chain[|chain| - 1].hash)
    ensures Linked(h, StoredRows(c, chain + [Row(e, prev, h(e, prev))]))
      <==> Linked(h, StoredRows(c, chain)) && ReadsBack(c, e)
  {
    var r := Row(e, prev, h(e, prev));
    StoredSnoc(c, chain, r);
    LinkedSnoc(h, StoredRows(c, chain), StoredRow(c, r));
    assert h(Stored(c, e), prev) == h(e, prev) <==> ReadsBack(c, e);
  }

  lemma {:induction false} AllReadBackSnoc(c: Columns, es: seq<Entry>, e: Entry)
    ensures AllReadBack(c, es + [e]) <==> AllReadBack(c, es) && ReadsBack(c, e)
  {
    assert e in es + [e] && forall x :: x in es ==> x in es + [e];
  }

  lemma {:induction false} ChainRowsSnoc(h: Hasher, start: string, es: seq<Entry>, e: Entry)
    ensures var prev := ChainHash(h, start, es);
      ChainRows(h, start, es + [e]) == ChainRows(h, start, es) + [Row(e, prev, h(e, prev))]
  {
    assert (es + [e])[..|es|] == es;
  }

  lemma {:induction false} StoredLinkedStep(c: Columns, h: Hasher, start: string, es: seq<Entry>, e: Entry)
    requires TellsReadBack(c, h)
    ensures Linked(h, StoredRows(c, ChainRows(h, start, es + [e])))
      <==> Linked(h, StoredRows(c, ChainRows(h, start, es))) && ReadsBack(c, e)
  {
    ChainRowsLinked(h, start, es);
    ChainRowsSnoc(h, start, es, e);
    StoredLinkedSnoc(c, h, ChainRows(h, start, es), e, ChainHash(h, start, es));
  }

  lemma {:induction false} StoredLinkedIff(c: Columns, h: Hasher, start: string, es: seq<Entry>)
    requires TellsReadBack(c, h)
    ensures Linked(h, StoredRows(c, ChainRows(h, start, es))) <==> AllReadBack(c, es)
  {
    if es != [] {
      var rest, e := es[..|es| - 1], es[|es| - 1];
      StoredLinkedIff(c, h, start, rest);
      StoredLinkedStep(c, h, start, rest, e);
      AllReadBackSnoc(c, rest, e);
      assert es == rest + [e];
    }
  }

  // ----- where appended rows go ------------------------------------------------------------------------------

  lemma {:induction false} RowsOfConcat(a: seq<Row>, b: seq<Row>, tenant: string)
    ensures RowsOf(a + b, tenant) == RowsOf(a, tenant) + RowsOf(b, tenant)
  {
    if a == [] {
      assert a + b == b;
    } else {
      assert (a + b)[1..] == a[1..] + b;
      RowsOfConcat(a[1..], b, tenant);
    }
  }

  lemma {:induction false} RowsOfUniform(rows: seq<Row>, tenant: string, t: string)
    requires forall r :: r in rows ==> r.entry.tenant == tenant
    ensures RowsOf(rows, t) == if t == tenant then rows else []
  {
    if rows != [] {
      assert rows[0] in rows;
      RowsOfUniform(rows[1..], tenant, t);
      assert rows == [rows[0]] + rows[1..];
    }
  }

  lemma {:induction false} RowsNoTies(rows: seq<Row>, tenant: string)
    requires PrimaryKey(Entries(rows))
    ensures NoTies(RowsOf(rows, tenant), RowLeq)
  {
    forall x, y | x in RowsOf(rows, tenant) && y in RowsOf(rows, tenant) && RowLeq(x, y) && RowLeq(y, x)
      ensures x == y
    {
      RowsOfElement(rows, tenant, x);
      RowsOfElement(rows, tenant, y);
      var i :| 0 <= i < |rows| && rows[i] == x;
      var j :| 0 <= j < |rows| && rows[j] == y;
      StringLeqTotal(x.entry.id, y.entry.id);
      assert Entries(rows)[i] == x.entry && Entries(rows)[j] == y.entry;
      assert i == j;
    }
  }

  /** The row a batch entry leaves, and where it is. */
  lemma {:induction false} NewRowOf(c: Columns, h: Hasher, db: Db, tenant: string, batch: seq<Entry>, e: Entry)
    returns (k: nat, prev: string)
    requires batch != [] && e in batch
    ensures k < |NewRows(c, h, db, tenant, batch)|
    ensures NewRows(c, h, db, tenant, batch)[k] == Row(Stored(c, e), prev, h(e, prev))
  {
    var es, start := Sort(batch, EntryLeq), LastHash(c, db, tenant);
    assert e in multiset(es);
    k :| 0 <= k < |es| && es[k] == e;
    ChainRowAt(h, start, es, k);
    prev := ChainHash(h, start, es[..k]);
    assert es[..k + 1][..k] == es[..k];
  }

  /** Rows are sorted when entries with the same times and ids are. */
  lemma {:induction false} SortedLike(rows: seq<Row>, es: seq<Entry>)
    requires |rows| == |es| && Sorted(es, EntryLeq)
    requires forall i :: 0 <= i < |rows| ==> rows[i].entry.createdAt == es[i].createdAt && rows[i].entry.id == es[i].id
    ensures Sorted(rows, RowLeq)
  {
    forall i, j | 0 <= i < j < |rows| ensures RowLeq(rows[i], rows[j]) {
      assert EntryLeq(es[i], es[j]);
    }
  }

  lemma {:induction false} NewRowsSorted(c: Columns, h: Hasher, db: Db, tenant: string, batch: seq<Entry>)
    ensures Sorted(NewRows(c, h, db, tenant, batch), RowLeq)
  {
    var es, chained := Sort(batch, EntryLeq), Chained(c, h, db, tenant, batch);
    EntryOrder();
    SortSorted(batch, EntryLeq);
    ChainRowsEntries(h, LastHash(c, db, tenant), es);
    forall i | 0 <= i < |chained| ensures chained[i].entry == es[i] {
      assert Entries(chained)[i] == chained[i].entry;
    }
    SortedLike(StoredRows(c, chained), es);
  }

  /** The batch entry a new row is for. */
  lemma {:induction false} NewRowFrom(c: Columns, h: Hasher, db: Db, tenant: string, batch: seq<Entry>, r: Row)
    returns (e: Entry)
    requires r in NewRows(c, h, db, tenant, batch)
    ensures e in batch && r.entry == Stored(c, e)
  {
    var es, chained, rows := Sort(batch, EntryLeq), Chained(c, h, db, tenant, batch), NewRows(c, h, db, tenant, batch);
    ChainRowsEntries(h, LastHash(c, db, tenant), es);
    var i :| 0 <= i < |rows| && rows[i] == r;
    assert Entries(chained)[i] == chained[i].entry;
    e := es[i];
    assert e in multiset(es);
  }

  lemma {:induction false} NewRowsAre(c: Columns, h: Hasher, db: Db, tenant: string, batch: seq<Entry>)
    requires IsBatch(c, h, db, tenant, batch)
    ensures var rows := NewRows(c, h, db, tenant, batch);
      && |rows| == |batch| && rows[0].prev == LastHash(c, db, tenant)
      && forall r :: r in rows ==> r.entry.tenant == c.uuid(tenant)
  {
    ChainRowsLinked(h, LastHash(c, db, tenant), Sort(batch, EntryLeq));
    forall r | r in NewRows(c, h, db, tenant, batch) ensures r.entry.tenant == c.uuid(tenant) {
      var e := NewRowFrom(c, h, db, tenant, batch, r);
    }
  }

  lemma {:induction false} OldThenNewSorted(c: Columns, h: Hasher, db: Db, tenant: string, batch: seq<Entry>)
    requires IsBatch(c, h, db, tenant, batch) && AllLater(db.rows, c.uuid(tenant), batch)
    ensures Sorted(OrderedRows(db.rows, c.uuid(tenant)) + NewRows(c, h, db, tenant, batch), RowLeq)
  {
    var old', new' := OrderedRows(db.rows, c.uuid(tenant)), NewRows(c, h, db, tenant, batch);
    NewRowsSorted(c, h, db, tenant, batch);
    EntryOrder();
    SortSorted(RowsOf(db.rows, c.uuid(tenant)), RowLeq);
    forall x, y | x in old' && y in new' ensures RowLeq(x, y) {
      var e := NewRowFrom(c, h, db, tenant, batch, y);
      assert EntryLeq(x.entry, e);
    }
    SortedConcat(old', new', RowLeq);
  }

  lemma {:induction false} SameRowsRearranged(rows: seq<Row>, added: seq<Row>, tenant: string)
    requires forall r :: r in added ==> r.entry.tenant == tenant
    ensures multiset(RowsOf(rows + added, tenant)) == multiset(OrderedRows(rows, tenant) + added)
  {
    RowsOfConcat(rows, added, tenant);
    RowsOfUniform(added, tenant, tenant);
  }

  /** In chain order later entries come after the tenant's old rows. */
  lemma {:induction false} NewRowsComeLast(c: Columns, h: Hasher, db: Db, tenant: string, batch: seq<Entry>)
    requires IsBatch(c, h, db, tenant, batch) && AllLater(db.rows, c.uuid(tenant), batch)
    ensures OrderedRows(Appended(c, h, db, tenant, batch).rows, c.uuid(tenant))
         == OrderedRows(db.rows, c.uuid(tenant)) + NewRows(c, h, db, tenant, batch)
  {
    var u, added, all := c.uuid(tenant), NewRows(c, h, db, tenant, batch), Appended(c, h, db, tenant, batch).rows;
    NewRowsAre(c, h, db, tenant, batch);
    OldThenNewSorted(c, h, db, tenant, batch);
    SameRowsRearranged(db.rows, added, u);
    RowsNoTies(all, u);
    EntryOrder();
    SortSorted(RowsOf(all, u), RowLeq);
    NoTiesRearranged(RowsOf(all, u), OrderedRows(db.rows, u) + added, RowLeq);
    SortedUnique(OrderedRows(db.rows, u) + added, OrderedRows(all, u), RowLeq);
  }

  lemma {:induction false} LinkedConcat(h: Hasher, a: seq<Row>, b: seq<Row>)
    requires a != [] && b != [] && Linked(h, a) && Linked(h, b)
    ensures Linked(h, a + b) <==> b[0].prev == a[|a| - 1].hash
  {
    var rest, all := b[..|b| - 1], a + b;
    assert all[..|all| - 1] == a + rest;
    if rest == [] {
      assert a + rest == a;
    } else {
      LinkedConcat(h, a, rest);
    }
  }

  // ----- what a verifying chain must look like ---------------------------------------------------------------

  /** Each row follows on the hash before it. */
  ghost predicate Links(rows: seq<Row>) {
    forall i :: 0 < i < |rows| ==> rows[i].prev == rows[i - 1].hash
  }

  ghost predicate NoGenesisHash(rows: seq<Row>) {
    forall i :: 0 <= i < |rows| ==> rows[i].hash != GENESIS
  }

  ghost predicate DistinctHashes(rows: seq<Row>) {
    forall i, j :: 0 <= i < j < |rows| ==> rows[i].hash != rows[j].hash
  }

  ghost predicate Includes(rows: seq<Row>, chain: seq<Row>) {
    forall i :: 0 <= i < |chain| ==> chain[i] in rows
  }

  lemma {:induction false} BeforeLater(rows: seq<Row>, k: nat)
    requires Links(rows) && NoGenesisHash(rows) && 0 < k < |rows|
    ensures rows[k].prev == rows[k - 1].hash != GENESIS
  {
  }

  /** If linked rows include a linked chain from genesis, its first row is theirs, ... */
  lemma {:induction false} FirstComesFirst(rows: seq<Row>, chain: seq<Row>)
    requires Links(rows) && NoGenesisHash(rows) && chain != [] && chain[0].prev == GENESIS && Includes(rows, chain)
    ensures rows != [] && rows[0] == chain[0]
  {
    assert chain[0] in rows;
    var k :| 0 <= k < |rows| && rows[k] == chain[0];
    if 0 < k {
      BeforeLater(rows, k);
    }
  }

  /** ... and so is, where no hash recurs, all of it. */
  lemma {:induction false} ChainComesFirst(rows: seq<Row>, chain: seq<Row>)
    requires Links(rows) && NoGenesisHash(rows) && DistinctHashes(rows)
    requires chain != [] && chain[0].prev == GENESIS && Links(chain) && NoGenesisHash(chain) && Includes(rows, chain)
    ensures |chain| <= |rows| && forall i :: 0 <= i < |chain| ==> rows[i] == chain[i]
  {
    FirstComesFirst(rows, chain);
    for i := 1 to |chain|
      invariant i <= |rows| && forall k :: 0 <= k < i ==> rows[k] == chain[k]
    {
      NextComesNext(rows, chain, i - 1);
    }
  }

  lemma {:induction false} NextComesNext(rows: seq<Row>, chain: seq<Row>, i: nat)
    requires Links(rows) && NoGenesisHash(rows) && DistinctHashes(rows) && rows != [] && rows[0].prev == GENESIS
    requires Links(chain) && NoGenesisHash(chain) && Includes(rows, chain)
    requires i + 1 < |chain| && i < |rows| && rows[i] == chain[i]
    ensures i + 1 < |rows| && rows[i + 1] == chain[i + 1]
  {
    assert chain[i + 1] in rows;
    var k :| 0 <= k < |rows| && rows[k] == chain[i + 1];
    BeforeLater(chain, i + 1);
    if 0 < k {
      BeforeLater(rows, k);
    }
  }

  lemma {:induction false} LinkedLinks(h: Hasher, rows: seq<Row>)
    requires Linked(h, rows)
    ensures Links(rows)
  {
    forall i | 0 < i < |rows| ensures rows[i].prev == rows[i - 1].hash {
      LinkedAt(h, rows, i);
    }
  }

  lemma {:induction false} NeverGenesis(sha: string -> string, rows: seq<Row>)
    requires Digest(sha) && Linked(HasherOf(sha), rows)
    ensures NoGenesisHash(rows)
  {
    forall i | 0 <= i < |rows| ensures rows[i].hash != GENESIS {
      LinkedAt(HasherOf(sha), rows, i);
    }
  }

  lemma {:induction false} HashesDiffer(sha: string -> string, rows: seq<Row>)
    requires Digest(sha) && Linked(HasherOf(sha), rows) && rows != [] && rows[0].prev == GENESIS
    ensures DistinctHashes(rows)
  {
    var h, es := HasherOf(sha), Entries(rows);
    LinkedIsChain(h, GENESIS, rows);
    forall i, j | 0 <= i < j < |rows| ensures rows[i].hash != rows[j].hash {
      ChainRowAt(h, GENESIS, es, i);
      ChainRowAt(h, GENESIS, es, j);
      if ChainHash(h, GENESIS, es[..i + 1]) == ChainHash(h, GENESIS, es[..j + 1]) {
        ChainBinding(sha, es[..i + 1], es[..j + 1]);
      }
    }
  }

  /** Rows that verify and include the chain over some entries begin with it. */
  lemma {:induction false} VerifyingBegins(sha: string -> string, es: seq<Entry>, chain: seq<Row>, rows: seq<Row>)
    requires Digest(sha) && Linked(HasherOf(sha), rows) && es != [] && chain == ChainRows(HasherOf(sha), GENESIS, es)
    requires Includes(rows, chain)
    ensures |chain| <= |rows| && forall i :: 0 <= i < |chain| ==> rows[i] == chain[i]
  {
    var h := HasherOf(sha);
    ChainRowsLinked(h, GENESIS, es);
    LinkedLinks(h, chain);
    LinkedLinks(h, rows);
    NeverGenesis(sha, chain);
    NeverGenesis(sha, rows);
    FirstComesFirst(rows, chain);
    HashesDiffer(sha, rows);
    ChainComesFirst(rows, chain);
  }

  lemma {:induction false} DigestTells(sha: string -> string, c: Columns)
    requires Digest(sha)
    ensures TellsReadBack(c, HasherOf(sha))
  {
    forall e, p ensures HasherOf(sha)(Stored(c, e), p) == HasherOf(sha)(e, p) <==> ReadsBack(c, e) {
      HashAgreesIff(sha, c, e, p);
    }
  }

  /** Once a batch is in the table, a chain that verifies, then or after any further rows, has it read back and later
      than the tenant's chain before it. */
  lemma {:induction false} VerifyingNeeds(sha: string -> string, c: Columns, db: Db, tenant: string, batch: seq<Entry>,
                                          all: seq<Row>)
    requires Digest(sha) && IsBatch(c, HasherOf(sha), db, tenant, batch)
    requires OrderedRows(db.rows, c.uuid(tenant)) == TenantChain(HasherOf(sha), Entries(db.rows), c.uuid(tenant))
    requires Appended(c, HasherOf(sha), db, tenant, batch).rows <= all && PrimaryKey(Entries(all))
    requires Linked(HasherOf(sha), OrderedRows(all, c.uuid(tenant)))
    ensures AllReadBack(c, batch) && AllLater(db.rows, c.uuid(tenant), batch)
  {
    var h, u := HasherOf(sha), c.uuid(tenant);
    DigestTells(sha, c);
    forall e | e in batch ensures ReadsBack(c, e) {
      var k, prev := NewRowOf(c, h, db, tenant, batch, e);
      var i := PlaceOf(c, h, db, tenant, batch, all, e, k, prev);
      LinkedAt(h, OrderedRows(all, u), i);
      assert h(Stored(c, e), prev) == h(e, prev) <==> ReadsBack(c, e);
    }
    if OrderedRows(db.rows, u) != [] {
      OldRowsStay(db.rows, all, u);
      VerifyingBegins(sha, Ordered(Entries(db.rows), u), OrderedRows(db.rows, u), OrderedRows(all, u));
      LaterThanOld(c, h, db, tenant, batch, all);
    }
  }

  lemma {:induction false} PlaceOf(c: Columns, h: Hasher, db: Db, tenant: string, batch: seq<Entry>, all: seq<Row>,
                                   e: Entry, k: nat, prev: string) returns (i: nat)
    requires IsBatch(c, h, db, tenant, batch) && Appended(c, h, db, tenant, batch).rows <= all
    requires k < |NewRows(c, h, db, tenant, batch)|
    requires NewRows(c, h, db, tenant, batch)[k] == Row(Stored(c, e), prev, h(e, prev))
    ensures i < |OrderedRows(all, c.uuid(tenant))|
    ensures OrderedRows(all, c.uuid(tenant))[i] == Row(Stored(c, e), prev, h(e, prev))
    ensures |db.rows| + k < |all| && all[|db.rows| + k] == Row(Stored(c, e), prev, h(e, prev))
  {
    var row := Row(Stored(c, e), prev, h(e, prev));
    NewRowsAre(c, h, db, tenant, batch);
    assert all[|db.rows| + k] == Appended(c, h, db, tenant, batch).rows[|db.rows| + k] == row;
    assert row in NewRows(c, h, db, tenant, batch);
    OrderedRowsElement(all, c.uuid(tenant), row);
    i :| 0 <= i < |OrderedRows(all, c.uuid(tenant))| && OrderedRows(all, c.uuid(tenant))[i] == row;
  }

  /** Where the row of a batch entry is when the tenant's old rows come first. */
  lemma {:induction false} PlaceIsLater(c: Columns, h: Hasher, db: Db, tenant: string, batch: seq<Entry>,
                                        all: seq<Row>, e: Entry) returns (i: nat)
    requires IsBatch(c, h, db, tenant, batch) && e in batch
    requires Appended(c, h, db, tenant, batch).rows <= all && PrimaryKey(Entries(all))
    requires |OrderedRows(db.rows, c.uuid(tenant))| <= |OrderedRows(all, c.uuid(tenant))|
    requires forall i :: 0 <= i < |OrderedRows(db.rows, c.uuid(tenant))| ==>
      OrderedRows(all, c.uuid(tenant))[i] == OrderedRows(db.rows, c.uuid(tenant))[i]
    ensures |OrderedRows(db.rows, c.uuid(tenant))| <= i < |OrderedRows(all, c.uuid(tenant))|
    ensures OrderedRows(all, c.uuid(tenant))[i].entry == Stored(c, e)
  {
    var k, prev := NewRowOf(c, h, db, tenant, batch, e);
    i := PlaceOf(c, h, db, tenant, batch, all, e, k, prev);
    var chain := OrderedRows(db.rows, c.uuid(tenant));
    if i < |chain| {
      OldIsNotNew(db, c.uuid(tenant), all, chain[i], k);
    }
  }

  lemma {:induction false} LaterThanOld(c: Columns, h: Hasher, db: Db, tenant: string, batch: seq<Entry>, all: seq<Row>)
    requires IsBatch(c, h, db, tenant, batch)
    requires Appended(c, h, db, tenant, batch).rows <= all && PrimaryKey(Entries(all))
    requires |OrderedRows(db.rows, c.uuid(tenant))| <= |OrderedRows(all, c.uuid(tenant))|
    requires forall i :: 0 <= i < |OrderedRows(db.rows, c.uuid(tenant))| ==>
      OrderedRows(all, c.uuid(tenant))[i] == OrderedRows(db.rows, c.uuid(tenant))[i]
    ensures AllLater(db.rows, c.uuid(tenant), batch)
  {
    var chain, order := OrderedRows(db.rows, c.uuid(tenant)), OrderedRows(all, c.uuid(tenant));
    EntryOrder();
    SortSorted(RowsOf(all, c.uuid(tenant)), RowLeq);
    forall r, e | r in chain && e in batch ensures EntryLeq(r.entry, e) {
      var j :| 0 <= j < |chain| && chain[j] == r;
      var i := PlaceIsLater(c, h, db, tenant, batch, all, e);
      assert RowLeq(order[j], order[i]);
    }
  }

  lemma {:induction false} OldRowsStay(rows: seq<Row>, all: seq<Row>, tenant: string)
    requires rows <= all
    ensures Includes(OrderedRows(all, tenant), OrderedRows(rows, tenant))
  {
    forall r | r in OrderedRows(rows, tenant) ensures r in OrderedRows(all, tenant) {
      OrderedRowsElement(rows, tenant, r);
      OrderedRowsElement(all, tenant, r);
      var i :| 0 <= i < |rows| && rows[i] == r;
      assert all[i] == r;
    }
  }

  /** By the primary key no old row is a new one. */
  lemma {:induction false} OldIsNotNew(db: Db, tenant: string, all: seq<Row>, r: Row, k: nat)
    requires r in OrderedRows(db.rows, tenant) && db.rows <= all && PrimaryKey(Entries(all))
    requires |db.rows| + k < |all|
    ensures all[|db.rows| + k] != r
  {
    OrderedRowsElement(db.rows, tenant, r);
    var x :| 0 <= x < |db.rows| && db.rows[x] == r;
    assert all[x] == r;
    assert Entries(all)[x] == r.entry && Entries(all)[|db.rows| + k] == all[|db.rows| + k].entry;
  }

  // ----- one append ------------------------------------------------------------------------------------------

  /** A tenant's chain verifies after an append exactly when every entry of the batch reads back as the text that was
      hashed and, if the tenant had rows, the batch starts from the chain's last hash and sorts after them. */
  lemma {:induction false} AppendVerifiesIff(sha: string -> string, c: Columns, db: Db, tenant: string,
                                             batch: seq<Entry>)
    requires Digest(sha) && IsBatch(c, HasherOf(sha), db, tenant, batch)
    requires OrderedRows(db.rows, c.uuid(tenant)) == TenantChain(HasherOf(sha), Entries(db.rows), c.uuid(tenant))
    ensures Linked(HasherOf(sha), OrderedRows(Appended(c, HasherOf(sha), db, tenant, batch).rows, c.uuid(tenant)))
      <==> && AllReadBack(c, batch) && AllLater(db.rows, c.uuid(tenant), batch)
           && (OrderedRows(db.rows, c.uuid(tenant)) != [] ==>
                 LastHash(c, db, tenant) == TenantHash(HasherOf(sha), Entries(db.rows), c.uuid(tenant)))
  {
    var h, u := HasherOf(sha), c.uuid(tenant);
    var all := Appended(c, h, db, tenant, batch).rows;
    if Linked(h, OrderedRows(all, u)) {
      VerifyingNeeds(sha, c, db, tenant, batch, all);
    }
    if AllReadBack(c, batch) && AllLater(db.rows, u, batch) {
      LaterBatchVerifiesIff(sha, c, db, tenant, batch);
    }
  }

  lemma {:induction false} LaterBatchVerifiesIff(sha: string -> string, c: Columns, db: Db, tenant: string,
                                                 batch: seq<Entry>)
    requires Digest(sha) && IsBatch(c, HasherOf(sha), db, tenant, batch)
    requires OrderedRows(db.rows, c.uuid(tenant)) == TenantChain(HasherOf(sha), Entries(db.rows), c.uuid(tenant))
    requires AllReadBack(c, batch) && AllLater(db.rows, c.uuid(tenant), batch)
    ensures Linked(HasherOf(sha), OrderedRows(Appended(c, HasherOf(sha), db, tenant, batch).rows, c.uuid(tenant)))
      <==> (OrderedRows(db.rows, c.uuid(tenant)) != [] ==>
              LastHash(c, db, tenant) == TenantHash(HasherOf(sha), Entries(db.rows), c.uuid(tenant)))
  {
    var h, u := HasherOf(sha), c.uuid(tenant);
    var old', new' := OrderedRows(db.rows, u), NewRows(c, h, db, tenant, batch);
    NewRowsComeLast(c, h, db, tenant, batch);
    NewRowsAre(c, h, db, tenant, batch);
    SortedReadBack(c, batch);
    DigestTells(sha, c);
    StoredLinkedIff(c, h, LastHash(c, db, tenant), Sort(batch, EntryLeq));
    ChainRowsLinked(h, GENESIS, Ordered(Entries(db.rows), u));
    if old' == [] {
      assert old' + new' == new';
    } else {
      LinkedConcat(h, old', new');
    }
  }

  lemma {:induction false} SortedReadBack(c: Columns, batch: seq<Entry>)
    requires AllReadBack(c, batch)
    ensures AllReadBack(c, Sort(batch, EntryLeq))
  {
    forall e | e in Sort(batch, EntryLeq) ensures e in batch {
      assert e in multiset(Sort(batch, EntryLeq));
    }
  }

  // ----- after a rebaseline ----------------------------------------------------------------------------------

  /** `after` is the store when the tool has committed. */
  ghost predicate Rebaselined(h: Hasher, before: Db, after: Db) {
    && JoinUpdate(h, before.rows, after.rows)
    && StateRefreshed(h, Entries(before.rows), before.state, after.state)
    && after.cache == before.cache
  }

  /** The tool leaves a tenant's chain whole exactly when no cached hash of the tenant differs from the recomputed
      one: it refreshes the chain state but not the cache, which is asked first. */
  lemma {:induction false} RebaselineWholeIff(h: Hasher, before: Db, after: Db, tenant: string)
    requires UniqueIds(Entries(before.rows)) && Rebaselined(h, before, after) && tenant in Tenants(Entries(before.rows))
    ensures Whole(h, after, tenant)
      <==> (tenant in before.cache ==> before.cache[tenant] == TenantHash(h, Entries(before.rows), tenant))
  {
    RebaselineRebuildsChains(h, before.rows, after.rows, tenant);
    UpdateKeepsEntries(h, before.rows, after.rows);
    ChainRowsLinked(h, GENESIS, Ordered(Entries(before.rows), tenant));
  }

  /** The next batch after a rebaseline verifies with the rest exactly when no stale hash is cached under the batch's
      spelling of the tenant, every entry reads back, and every entry sorts after the tenant's rows. */
  lemma {:induction false} AppendAfterRebaselineIff(sha: string -> string, c: Columns, before: Db, after: Db,
                                                    tenant: string, batch: seq<Entry>)
    requires Digest(sha) && UniqueIds(Entries(before.rows)) && Rebaselined(HasherOf(sha), before, after)
    requires c.uuid(tenant) in Tenants(Entries(before.rows)) && IsBatch(c, HasherOf(sha), after, tenant, batch)
    ensures Linked(HasherOf(sha), OrderedRows(Appended(c, HasherOf(sha), after, tenant, batch).rows, c.uuid(tenant)))
      <==> && AllReadBack(c, batch) && AllLater(after.rows, c.uuid(tenant), batch)
           && (tenant in before.cache ==>
                 before.cache[tenant] == TenantHash(HasherOf(sha), Entries(before.rows), c.uuid(tenant)))
  {
    var h, u := HasherOf(sha), c.uuid(tenant);
    RebaselineRebuildsChains(h, before.rows, after.rows, u);
    UpdateKeepsEntries(h, before.rows, after.rows);
    ChainRowsLinked(h, GENESIS, Ordered(Entries(before.rows), u));
    AppendVerifiesIff(sha, c, after, tenant, batch);
  }

  // ----- any number of appends -------------------------------------------------------------------------------

  datatype Event = AppendBatch(tenant: string, batch: seq<Entry>) | CacheExpires(tenant: string)

  function Step(c: Columns, h: Hasher, db: Db, ev: Event): Db
    requires ev.AppendBatch? ==> ev.batch != []
  {
    match ev
    case AppendBatch(t, batch) => Appended(c, h, db, t, batch)
    case CacheExpires(t) => db.(cache := db.cache - {t})
  }

  /** Every batch, when its turn comes, is one the service can chain and the table can hold. */
  ghost predicate Possible(c: Columns, h: Hasher, db: Db, evs: seq<Event>)
    decreases |evs|
  {
    evs != [] ==>
      && (evs[0].AppendBatch? ==> IsBatch(c, h, db, evs[0].tenant, evs[0].batch))
      && Possible(c, h, Step(c, h, db, evs[0]), evs[1..])
  }

  function Run(c: Columns, h: Hasher, db: Db, evs: seq<Event>): Db
    requires Possible(c, h, db, evs)
    decreases |evs|
  {
    if evs == [] then db else Run(c, h, Step(c, h, db, evs[0]), evs[1..])
  }

  /** Every batch of the tenant, when its turn comes, reads back and sorts after the tenant's rows. */
  ghost predicate AllGood(c: Columns, h: Hasher, db: Db, evs: seq<Event>, tenant: string)
    requires Possible(c, h, db, evs)
    decreases |evs|
  {
    evs != [] ==>
      && (evs[0].AppendBatch? && c.uuid(evs[0].tenant) == tenant ==>
            AllReadBack(c, evs[0].batch) && AllLater(db.rows, tenant, evs[0].batch))
      && AllGood(c, h, Step(c, h, db, evs[0]), evs[1..], tenant)
  }

  /** An append of later entries that read back keeps its tenant's chain, stored hash and cached hash whole. */
  lemma {:induction false} AppendKeepsWhole(sha: string -> string, c: Columns, db: Db, tenant: string,
                                            batch: seq<Entry>)
    requires Digest(sha) && IsBatch(c, HasherOf(sha), db, tenant, batch) && Whole(HasherOf(sha), db, c.uuid(tenant))
    requires AllReadBack(c, batch) && AllLater(db.rows, c.uuid(tenant), batch)
    ensures Whole(HasherOf(sha), Appended(c, HasherOf(sha), db, tenant, batch), c.uuid(tenant))
  {
    var h, after := HasherOf(sha), Appended(c, HasherOf(sha), db, tenant, batch);
    ReadsBackTenant(c, batch[0]);
    LaterBatchVerifiesIff(sha, c, db, tenant, batch);
    ChainRowsLinked(h, GENESIS, Ordered(Entries(db.rows), tenant));
    LaterRowsFollow(c, h, db, tenant, batch);
    LinkedIsChain(h, GENESIS, OrderedRows(after.rows, tenant));
    OrderedRowsEntries(after.rows, tenant);
  }

  /** The chain after such an append starts where it did, or from genesis, and ends with the batch. */
  lemma {:induction false} LaterRowsFollow(c: Columns, h: Hasher, db: Db, tenant: string, batch: seq<Entry>)
    requires IsBatch(c, h, db, tenant, batch) && Whole(h, db, tenant) && c.uuid(tenant) == tenant
    requires AllLater(db.rows, tenant, batch)
    ensures var after := Appended(c, h, db, tenant, batch);
      var rows := OrderedRows(after.rows, tenant);
      && rows != [] && rows[0].prev == GENESIS
      && rows[|rows| - 1].hash == StoredHash(after, tenant) == after.cache[tenant]
  {
    var old', new' := OrderedRows(db.rows, tenant), NewRows(c, h, db, tenant, batch);
    NewRowsComeLast(c, h, db, tenant, batch);
    NewRowsAre(c, h, db, tenant, batch);
    ChainRowsLinked(h, GENESIS, Ordered(Entries(db.rows), tenant));
    assert (old' + new')[|old' + new'| - 1] == new'[|new'| - 1];
    assert old' == [] ==> (old' + new')[0] == new'[0];
  }

  lemma {:induction false} OtherTenantsUntouched(c: Columns, h: Hasher, db: Db, tenant: string, batch: seq<Entry>,
                                                 other: string)
    requires Whole(h, db, other) && IsBatch(c, h, db, tenant, batch)
    requires other != c.uuid(tenant) && other != tenant
    ensures Whole(h, Appended(c, h, db, tenant, batch), other)
  {
    OtherRowsKept(c, h, db, tenant, batch, other);
    EntriesOfTenant(db.rows, other);
    EntriesOfTenant(Appended(c, h, db, tenant, batch).rows, other);
  }

  lemma {:induction false} OtherRowsKept(c: Columns, h: Hasher, db: Db, tenant: string, batch: seq<Entry>,
                                         other: string)
    requires IsBatch(c, h, db, tenant, batch) && other != c.uuid(tenant)
    ensures RowsOf(Appended(c, h, db, tenant, batch).rows, other) == RowsOf(db.rows, other)
  {
    var new' := NewRows(c, h, db, tenant, batch);
    NewRowsAre(c, h, db, tenant, batch);
    RowsOfConcat(db.rows, new', other);
    RowsOfUniform(new', c.uuid(tenant), other);
    assert RowsOf(db.rows, other) + [] == RowsOf(db.rows, other);
  }

  lemma {:induction false} RunGrows(c: Columns, h: Hasher, db: Db, evs: seq<Event>)
    requires Possible(c, h, db, evs) && PrimaryKey(Entries(db.rows))
    ensures db.rows <= Run(c, h, db, evs).rows && PrimaryKey(Entries(Run(c, h, db, evs).rows))
    decreases |evs|
  {
    if evs != [] {
      RunGrows(c, h, Step(c, h, db, evs[0]), evs[1..]);
    }
  }

  /** When appends are complete and made one at a time, of any tenants and with cached hashes expiring in between, they
      start from the last hash of themselves: a chain that was whole verifies exactly when every batch of it reads back
      and sorts after the rows of its time, and then it is whole again. */
  lemma {:induction false} CompleteAppendsIff(sha: string -> string, c: Columns, db: Db, evs: seq<Event>,
                                              tenant: string)
    requires Digest(sha) && c.uuid(tenant) == tenant && Whole(HasherOf(sha), db, tenant)
    requires PrimaryKey(Entries(db.rows)) && Possible(c, HasherOf(sha), db, evs)
    ensures Linked(HasherOf(sha), OrderedRows(Run(c, HasherOf(sha), db, evs).rows, tenant))
      <==> AllGood(c, HasherOf(sha), db, evs, tenant)
    ensures AllGood(c, HasherOf(sha), db, evs, tenant) ==> Whole(HasherOf(sha), Run(c, HasherOf(sha), db, evs), tenant)
    decreases |evs|
  {
    var h := HasherOf(sha);
    if evs == [] {
      ChainRowsLinked(h, GENESIS, Ordered(Entries(db.rows), tenant));
    } else {
      var next := Step(c, h, db, evs[0]);
      match evs[0] {
        case CacheExpires(t) =>
          CompleteAppendsIff(sha, c, next, evs[1..], tenant);
        case AppendBatch(t, batch) =>
          if c.uuid(t) != tenant {
            OtherTenantsUntouched(c, h, db, t, batch, tenant);
            CompleteAppendsIff(sha, c, next, evs[1..], tenant);
          } else if AllReadBack(c, batch) && AllLater(db.rows, tenant, batch) {
            AppendKeepsWhole(sha, c, db, t, batch);
            CompleteAppendsIff(sha, c, next, evs[1..], tenant);
          } else {
            RunGrows(c, h, next, evs[1..]);
            if Linked(h, OrderedRows(Run(c, h, next, evs[1..]).rows, tenant)) {
              VerifyingNeeds(sha, c, db, t, batch, Run(c, h, next, evs[1..]).rows);
            }
          }
      }
    }
  }

  // ----- a redelivered event ---------------------------------------------------------------------------------

  lemma {:induction false} ChainHashConcat(h: Hasher, start: string, a: seq<Entry>, b: seq<Entry>)
    ensures ChainHash(h, start, a + b) == ChainHash(h, ChainHash(h, start, a), b)
  {
    if b == [] {
      assert a + b == a;
    } else {
      assert (a + b)[..|a + b| - 1] == a + b[..|b| - 1];
      ChainHashConcat(h, start, a, b[..|b| - 1]);
    }
  }

  lemma {:induction false} KeptNone(rows: seq<Row>)
    ensures Kept(rows, {}) == []
  {
    if rows != [] {
      KeptNone(rows[..|rows| - 1]);
    }
  }

  /** After a batch of events that are in the table already no batch of the tenant verifies any more. */
  lemma {:induction false} RedeliveryBreaksChain(sha: string -> string, c: Columns, db: Db, tenant: string,
                                                 dropped: seq<Entry>, batch: seq<Entry>)
    requires Digest(sha) && c.uuid(tenant) == tenant && Whole(HasherOf(sha), db, tenant)
    requires OrderedRows(db.rows, tenant) != [] && dropped != []
    requires IsBatch(c, HasherOf(sha), Flushed(c, HasherOf(sha), db, tenant, dropped, {}), tenant, batch)
    ensures var next := Flushed(c, HasherOf(sha), db, tenant, dropped, {});
      !Linked(HasherOf(sha), OrderedRows(Appended(c, HasherOf(sha), next, tenant, batch).rows, tenant))
  {
    var h, next := HasherOf(sha), Flushed(c, HasherOf(sha), db, tenant, dropped, {});
    var old', extra := Ordered(Entries(db.rows), tenant), Sort(dropped, EntryLeq);
    KeptNone(NewRows(c, h, db, tenant, dropped));
    assert next.rows == db.rows;
    AppendVerifiesIff(sha, c, next, tenant, batch);
    ChainRowsLinked(h, LastHash(c, db, tenant), extra);
    ChainHashConcat(h, GENESIS, old', extra);
    if LastHash(c, next, tenant) == TenantHash(h, Entries(db.rows), tenant) {
      ChainBinding(sha, old' + extra, old');
    }
  }

  // ----- overlapping appends ---------------------------------------------------------------------------------

  /** Two batches of a tenant chained from the same last hash, by flushes that overlap, never verify together: here the
      second is appended when the first is in, with the tails as they were before both. */
  lemma {:induction false} OverlapBreaksChain(sha: string -> string, c: Columns, db: Db, tenant: string,
                                              first: seq<Entry>, second: seq<Entry>)
    requires Digest(sha) && Whole(HasherOf(sha), db, c.uuid(tenant))
    requires IsBatch(c, HasherOf(sha), db, tenant, first)
    requires AllReadBack(c, first) && AllLater(db.rows, c.uuid(tenant), first)
    requires IsBatch(c, HasherOf(sha), db.(rows := Appended(c, HasherOf(sha), db, tenant, first).rows), tenant, second)
    ensures var forked := db.(rows := Appended(c, HasherOf(sha), db, tenant, first).rows);
      !Linked(HasherOf(sha), OrderedRows(Appended(c, HasherOf(sha), forked, tenant, second).rows, tenant))
  {
    var h := HasherOf(sha);
    var forked := db.(rows := Appended(c, h, db, tenant, first).rows);
    ReadsBackTenant(c, first[0]);
    AppendKeepsWhole(sha, c, db, tenant, first);
    AppendVerifiesIff(sha, c, forked, tenant, second);
    NewRowsComeLast(c, h, db, tenant, first);
    OrderedRowsEntries(db.rows, tenant);
    OrderedRowsEntries(forked.rows, tenant);
    if LastHash(c, forked, tenant) == TenantHash(h, Entries(forked.rows), tenant) {
      ChainBinding(sha, Ordered(Entries(db.rows), tenant), Ordered(Entries(forked.rows), tenant));
    }
  }
}
