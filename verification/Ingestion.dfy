/** Incremental ingestion (ai/second-brain/app/ingest.py) over the vector store's document and chunk tables
    (ai/second-brain/app/rag/vectorstore.py), with text extraction and its classification
    (ai/second-brain/app/rag/extraction.py) as a function of a document's bytes. */
module Ingestion {
  import opened Common

  type Id = string
  type Bytes = string
  type Hash = string

  /** A row of library_documents. */
  datatype DocRow = DocRow(hash: Option<Hash>, status: string)

  /** The document rows and, per document, its rows of library_chunks. */
  datatype Store = Store(docs: map<Id, DocRow>, chunks: map<Id, seq<string>>)

  /** What extraction and chunking make of a document: its chunks, whether some page stayed below the text floor,
      and whether some page needed OCR and could not be read. */
  datatype Extraction = Extraction(chunks: seq<string>, failedPages: bool, ocrFailed: bool)

  /** Extraction of a document's bytes, None when it raises.  Settings and document metadata are fixed. */
  type Extractor = (Id, Bytes) -> Option<Extraction>

  /** How reading a stored hash can end: an answer, a failing query, or no connection at all, which raises. */
  datatype Read = Answered | QueryFails | Unreachable

  /** One document of a run and what the outside does while it is handled: the fetched bytes, if the fetch
      succeeds, how reading its hash ends, and whether recording a status and replacing its rows succeed. */
  datatype Doc = Doc(id: Id, fetched: Option<Bytes>, read: Read, markRecorded: bool, replaceWorks: bool)

  datatype Outcome = Failed | Unchanged | Empty | OcrFailed | Ingested(chunks: nat) | Raised

  // ----- the vector store ------------------------------------------------------------------------------------

  function StoredHash(s: Store, id: Id): Option<Hash> {
    if id in s.docs then s.docs[id].hash else None
  }

  /** Inserting sets the hash; a row that is already there keeps its own. */
  function Marked(s: Store, id: Id, status: string, hash: Option<Hash>): Store {
    s.(docs := s.docs[id := DocRow(if id in s.docs then s.docs[id].hash else hash, status)])
  }

  function Replaced(s: Store, id: Id, chunks: seq<string>, hash: Hash, status: string): Store {
    Store(s.docs[id := DocRow(Some(hash), status)], s.chunks[id := chunks])
  }

  class VectorStore {
    var docs: map<Id, DocRow>
    var chunks: map<Id, seq<string>>

    ghost function Abs(): Store
      reads this
    {
      Store(docs, chunks)
    }

    constructor ()
      ensures Abs() == Store(map[], map[])
    {
      docs, chunks := map[], map[];
    }

    /** A query that fails looks like a document without a hash; without a connection there is no answer. */
    method DocumentHash(id: Id, read: Read) returns (hash: Option<Option<Hash>>)
      ensures hash.None? <==> read.Unreachable?
      ensures hash.Some? ==> hash.value == if read.Answered? then StoredHash(Abs(), id) else None
    {
      if read.Unreachable? {
        return None;
      }
      hash := Some(if read.Answered? && id in docs then docs[id].hash else None);
    }

    method MarkDocument(id: Id, status: string, hash: Option<Hash>)
      modifies this`docs
      ensures Abs() == Marked(old(Abs()), id, status, hash)
    {
      if id in docs {
        docs := docs[id := docs[id].(status := status)];
      } else {
        docs := docs[id := DocRow(hash, status)];
      }
    }

    method ReplaceDocument(id: Id, newChunks: seq<string>, hash: Hash, status: string)
      modifies this
      ensures Abs() == Replaced(old(Abs()), id, newChunks, hash, status)
    {
      chunks := chunks - {id};
      chunks := chunks[id := newChunks];
      docs := docs[id := DocRow(Some(hash), status)];
    }
  }

  // ----- specification of a run ------------------------------------------------------------------------------

  function EmptyStatus(e: Extraction): string {
    if e.ocrFailed then "ocr_failed" else "empty"
  }

  function IngestedStatus(e: Extraction): string {
    if e.failedPages then "ocr_partial" else "ingested"
  }

  predicate Skips(h: Bytes -> Hash, force: bool, s: Store, d: Doc) {
    !force && d.read.Answered? && d.fetched.Some? && StoredHash(s, d.id) == Some(h(d.fetched.value))
  }

  function Visit(h: Bytes -> Hash, x: Extractor, force: bool, s: Store, d: Doc): (Store, Outcome) {
    if d.fetched.None? then (if d.markRecorded then Marked(s, d.id, "failed", None) else s, Failed)
    else if !force && d.read.Unreachable? then (s, Raised)
    else if Skips(h, force, s, d) then (s, Unchanged)
    else
      var b := d.fetched.value;
      match x(d.id, b)
      case None => (s, Raised)
      case Some(e) =>
        if e.chunks == [] then
          (if d.markRecorded then Marked(s, d.id, EmptyStatus(e), if e.ocrFailed then None else Some(h(b))) else s,
           if e.ocrFailed then OcrFailed else Empty)
        else if d.replaceWorks then (Replaced(s, d.id, e.chunks, h(b), IngestedStatus(e)), Ingested(|e.chunks|))
        else (s, Raised)
  }

  /** A run visits the documents in order and stops where something raises. */
  function Run(h: Bytes -> Hash, x: Extractor, force: bool, s: Store, docs: seq<Doc>): (Store, seq<Outcome>)
    decreases |docs|
  {
    if docs == [] then (s, [])
    else
      var (next, o) := Visit(h, x, force, s, docs[0]);
      if o.Raised? then (next, [o])
      else
        var (last, os) := Run(h, x, force, next, docs[1..]);
        (last, [o] + os)
  }

  predicate Completed(outcomes: seq<Outcome>) {
    Raised !in outcomes
  }

  // ----- the program -----------------------------------------------------------------------------------------

  datatype Report = Report(ingested: nat, chunks: nat, skipped: nat, failed: nat, empty: nat, ocrFailed: nat)

  /** One more outcome in the counters. */
  function Tally(r: Report, o: Outcome): Report {
    match o
    case Failed => r.(failed := r.failed + 1, skipped := r.skipped + 1)
    case Unchanged => r.(skipped := r.skipped + 1)
    case Empty => r.(empty := r.empty + 1, skipped := r.skipped + 1)
    case OcrFailed => r.(ocrFailed := r.ocrFailed + 1, skipped := r.skipped + 1)
    case Ingested(n) => r.(ingested := r.ingested + 1, chunks := r.chunks + n)
    case Raised => r
  }

  function Count(outcomes: seq<Outcome>): Report {
    if outcomes == [] then Report(0, 0, 0, 0, 0, 0)
    else Tally(Count(outcomes[..|outcomes| - 1]), outcomes[|outcomes| - 1])
  }

  /** `ingest(force)`: None when an exception ends it early. */
  method Ingest(store: VectorStore, h: Bytes -> Hash, x: Extractor, force: bool, docs: seq<Doc>)
    returns (report: Option<Report>, ghost outcomes: seq<Outcome>)
    modifies store
    ensures store.Abs() == Run(h, x, force, old(store.Abs()), docs).0
    ensures outcomes == Run(h, x, force, old(store.Abs()), docs).1
    ensures report.Some? <==> Completed(outcomes)
    ensures report.Some? ==> report.value == Count(outcomes)
  {
    var r := Report(0, 0, 0, 0, 0, 0);
    outcomes := [];
    ghost var start := store.Abs();
    assert docs[0..] == docs;
    for i := 0 to |docs|
      invariant |outcomes| == i && Completed(outcomes) && r == Count(outcomes)
      invariant Run(h, x, force, start, docs).0 == Run(h, x, force, store.Abs(), docs[i..]).0
      invariant Run(h, x, force, start, docs).1 == outcomes + Run(h, x, force, store.Abs(), docs[i..]).1
    {
      RunUnfolds(h, x, force, store.Abs(), docs, i);
      var o := HandleDocument(store, h, x, force, docs[i]);
      CountSnoc(outcomes, o);
      if o.Raised? {
        outcomes := outcomes + [o];
        return None, outcomes;
      }
      AppendAssociates(outcomes, o, Run(h, x, force, store.Abs(), docs[i + 1..]).1);
      outcomes := outcomes + [o];
      r := Tally(r, o);
    }
    assert docs[|docs|..] == [] && outcomes + [] == outcomes;
    report := Some(r);
  }

  lemma {:induction false} AppendAssociates<T>(a: seq<T>, x: T, b: seq<T>)
    ensures a + ([x] + b) == (a + [x]) + b
  {
  }

  lemma {:induction false} CountSnoc(outcomes: seq<Outcome>, o: Outcome)
    ensures Count(outcomes + [o]) == Tally(Count(outcomes), o)
  {
    assert (outcomes + [o])[..|outcomes|] == outcomes;
  }

  lemma {:induction false} RunUnfolds(h: Bytes -> Hash, x: Extractor, force: bool, s: Store, docs: seq<Doc>, i: nat)
    requires i < |docs|
    ensures var (next, o) := Visit(h, x, force, s, docs[i]);
      var (end, os) := Run(h, x, force, s, docs[i..]);
      if o.Raised? then end == next && os == [o]
      else end == Run(h, x, force, next, docs[i + 1..]).0 && os == [o] + Run(h, x, force, next, docs[i + 1..]).1
  {
    assert docs[i..][0] == docs[i] && docs[i..][1..] == docs[i + 1..];
  }

  /** The body of the per-document loop. */
  method HandleDocument(store: VectorStore, h: Bytes -> Hash, x: Extractor, force: bool, d: Doc) returns (o: Outcome)
    modifies store
    ensures (store.Abs(), o) == Visit(h, x, force, old(store.Abs()), d)
  {
    if d.fetched.None? {
      if d.markRecorded {
        store.MarkDocument(d.id, "failed", None);
      }
      return Failed;
    }
    var contentHash := h(d.fetched.value);
    if !force {
      var stored := store.DocumentHash(d.id, d.read);
      if stored.None? {
        return Raised;
      }
      if stored.value == Some(contentHash) {
        return Unchanged;
      }
    }
    var extracted := x(d.id, d.fetched.value);
    if extracted.None? {
      return Raised;
    }
    var e := extracted.value;
    if e.chunks == [] {
      if d.markRecorded {
        store.MarkDocument(d.id, EmptyStatus(e), if e.ocrFailed then None else Some(contentHash));
      }
      return if e.ocrFailed then OcrFailed else Empty;
    }
    if !d.replaceWorks {
      return Raised;
    }
    store.ReplaceDocument(d.id, e.chunks, contentHash, IngestedStatus(e));
    o := Ingested(|e.chunks|);
  }

  /** A completed run accounts for every document: each was ingested or skipped, and every skipped one that was
      not unchanged is counted under exactly one reason. */
  lemma {:induction false} RunAccountsForAll(h: Bytes -> Hash, x: Extractor, force: bool, s: Store, docs: seq<Doc>)
    requires Completed(Run(h, x, force, s, docs).1)
    ensures var r := Count(Run(h, x, force, s, docs).1);
      && r.ingested + r.skipped == |docs|
      && r.skipped == r.failed + r.empty + r.ocrFailed + |Only(Unchanged, Run(h, x, force, s, docs).1)|
      && r.ingested <= r.chunks
  {
    OneOutcomeEach(h, x, force, s, docs);
    CountAll(Run(h, x, force, s, docs).1);
    IngestedYieldChunks(h, x, force, s, docs);
  }

  function Only(o: Outcome, outcomes: seq<Outcome>): seq<Outcome> {
    if outcomes == [] then []
    else
      var rest, last := outcomes[..|outcomes| - 1], outcomes[|outcomes| - 1];
      if last == o then Only(o, rest) + [last] else Only(o, rest)
  }

  /** The chunks that a run stored. */
  function ChunksStored(outcomes: seq<Outcome>): nat {
    if outcomes == [] then 0
    else
      var last := outcomes[|outcomes| - 1];
      ChunksStored(outcomes[..|outcomes| - 1]) + if last.Ingested? then last.chunks else 0
  }

  function IngestedOnly(outcomes: seq<Outcome>): seq<Outcome> {
    if outcomes == [] then []
    else
      var rest, last := outcomes[..|outcomes| - 1], outcomes[|outcomes| - 1];
      if last.Ingested? then IngestedOnly(rest) + [last] else IngestedOnly(rest)
  }

  /** What each counter counts. */
  lemma {:induction false} CountersMean(outcomes: seq<Outcome>)
    ensures var r := Count(outcomes);
      && r.failed == |Only(Failed, outcomes)| && r.empty == |Only(Empty, outcomes)|
      && r.ocrFailed == |Only(OcrFailed, outcomes)|
      && r.ingested == |IngestedOnly(outcomes)| && r.chunks == ChunksStored(outcomes)
      && r.skipped == |Only(Unchanged, outcomes)| + |Only(Failed, outcomes)| + |Only(Empty, outcomes)|
                      + |Only(OcrFailed, outcomes)|
  {
    if outcomes != [] {
      CountersMean(outcomes[..|outcomes| - 1]);
    }
  }

  lemma {:induction false} CompletedTail(h: Bytes -> Hash, x: Extractor, force: bool, s: Store, docs: seq<Doc>)
    requires docs != [] && Completed(Run(h, x, force, s, docs).1)
    ensures var (next, o) := Visit(h, x, force, s, docs[0]);
      && !o.Raised? && Completed(Run(h, x, force, next, docs[1..]).1)
      && Run(h, x, force, s, docs) == (Run(h, x, force, next, docs[1..]).0, [o] + Run(h, x, force, next, docs[1..]).1)
  {
    var (next, o) := Visit(h, x, force, s, docs[0]);
    assert Run(h, x, force, s, docs).1[0] == o;
    assert forall y :: y in Run(h, x, force, next, docs[1..]).1 ==> y in [o] + Run(h, x, force, next, docs[1..]).1;
  }

  lemma {:induction false} OneOutcomeEach(h: Bytes -> Hash, x: Extractor, force: bool, s: Store, docs: seq<Doc>)
    requires Completed(Run(h, x, force, s, docs).1)
    ensures |Run(h, x, force, s, docs).1| == |docs|
    decreases |docs|
  {
    if docs != [] {
      CompletedTail(h, x, force, s, docs);
      OneOutcomeEach(h, x, force, Visit(h, x, force, s, docs[0]).0, docs[1..]);
    }
  }

  /** An exception ends the run: what it leaves is what visiting the documents before did, and no other is visited. */
  lemma {:induction false} ExceptionEndsRun(h: Bytes -> Hash, x: Extractor, force: bool, s: Store, docs: seq<Doc>,
                                            i: nat)
    requires i < |Run(h, x, force, s, docs).1| && Run(h, x, force, s, docs).1[i] == Raised
    ensures i < |docs| && |Run(h, x, force, s, docs).1| == i + 1
    ensures Run(h, x, force, s, docs).0 == Run(h, x, force, s, docs[..i]).0
    ensures Completed(Run(h, x, force, s, docs[..i]).1)
    decreases |docs|
  {
    var (next, o) := Visit(h, x, force, s, docs[0]);
    if !o.Raised? {
      ExceptionEndsRun(h, x, force, next, docs[1..], i - 1);
      assert docs[..i][0] == docs[0] && docs[..i][1..] == docs[1..][..i - 1];
    }
  }

  lemma {:induction false} IngestedYieldChunks(h: Bytes -> Hash, x: Extractor, force: bool, s: Store, docs: seq<Doc>)
    ensures forall o :: o in Run(h, x, force, s, docs).1 && o.Ingested? ==> o.chunks > 0
    ensures Count(Run(h, x, force, s, docs).1).ingested <= Count(Run(h, x, force, s, docs).1).chunks
    decreases |docs|
  {
    var os := Run(h, x, force, s, docs).1;
    if docs != [] {
      var (next, o) := Visit(h, x, force, s, docs[0]);
      if !o.Raised? {
        IngestedYieldChunks(h, x, force, next, docs[1..]);
      }
    }
    PositiveCounts(os);
  }

  lemma {:induction false} PositiveCounts(outcomes: seq<Outcome>)
    requires forall o :: o in outcomes && o.Ingested? ==> o.chunks > 0
    ensures Count(outcomes).ingested <= Count(outcomes).chunks
  {
    if outcomes != [] {
      PositiveCounts(outcomes[..|outcomes| - 1]);
    }
  }

  lemma {:induction false} CountAll(outcomes: seq<Outcome>)
    requires Completed(outcomes)
    ensures var r := Count(outcomes);
      && r.ingested + r.skipped == |outcomes|
      && r.skipped == r.failed + r.empty + r.ocrFailed + |Only(Unchanged, outcomes)|
  {
    if outcomes != [] {
      CountAll(outcomes[..|outcomes| - 1]);
    }
  }

  // ----- every history keeps stored hashes honest ------------------------------------------------------------

  ghost predicate CollisionFree(h: Bytes -> Hash) {
    forall a, b :: h(a) == h(b) ==> a == b
  }

  /** The chunks a document's bytes yield, if they yield any. */
  function Yield(x: Extractor, id: Id, b: Bytes): seq<string> {
    match x(id, b)
    case None => []
    case Some(e) => e.chunks
  }

  /** Chunks belong to recorded documents, and a stored hash of chunk-yielding bytes means their chunks are stored. */
  ghost predicate Honest(h: Bytes -> Hash, x: Extractor, s: Store) {
    && (forall id :: id in s.chunks ==> id in s.docs)
    && forall id, b :: StoredHash(s, id) == Some(h(b)) && Yield(x, id, b) != [] ==>
         id in s.chunks && s.chunks[id] == Yield(x, id, b)
  }

  lemma {:induction false} VisitKeepsHonest(h: Bytes -> Hash, x: Extractor, force: bool, s: Store, d: Doc)
    requires CollisionFree(h) && Honest(h, x, s)
    ensures Honest(h, x, Visit(h, x, force, s, d).0)
  {
    var next := Visit(h, x, force, s, d).0;
    forall id, b | StoredHash(next, id) == Some(h(b)) && Yield(x, id, b) != []
      ensures id in next.chunks && next.chunks[id] == Yield(x, id, b)
    {
      if id != d.id {
        assert StoredHash(s, id) == Some(h(b));
      }
    }
  }

  lemma {:induction false} RunKeepsHonest(h: Bytes -> Hash, x: Extractor, force: bool, s: Store, docs: seq<Doc>)
    requires CollisionFree(h) && Honest(h, x, s)
    ensures Honest(h, x, Run(h, x, force, s, docs).0)
    decreases |docs|
  {
    if docs != [] {
      VisitKeepsHonest(h, x, force, s, docs[0]);
      var (next, o) := Visit(h, x, force, s, docs[0]);
      if !o.Raised? {
        RunKeepsHonest(h, x, force, next, docs[1..]);
      }
    }
  }

  datatype RunInput = RunInput(force: bool, docs: seq<Doc>)

  /** Any number of runs, each with its own flag, documents, bytes and failures. */
  function History(h: Bytes -> Hash, x: Extractor, runs: seq<RunInput>): Store {
    if runs == [] then Store(map[], map[])
    else
      var last := runs[|runs| - 1];
      Run(h, x, last.force, History(h, x, runs[..|runs| - 1]), last.docs).0
  }

  lemma {:induction false} HistoryHonest(h: Bytes -> Hash, x: Extractor, runs: seq<RunInput>)
    requires CollisionFree(h)
    ensures Honest(h, x, History(h, x, runs))
  {
    if runs != [] {
      HistoryHonest(h, x, runs[..|runs| - 1]);
      var last := runs[|runs| - 1];
      RunKeepsHonest(h, x, last.force, History(h, x, runs[..|runs| - 1]), last.docs);
    }
  }

  // ----- incremental equals full -----------------------------------------------------------------------------

  predicate DistinctDocs(docs: seq<Doc>) {
    forall i, j :: 0 <= i < j < |docs| ==> docs[i].id != docs[j].id
  }

  /** The document holds what ingesting these bytes from scratch stores. */
  predicate Holds(h: Bytes -> Hash, x: Extractor, s: Store, id: Id, b: Bytes) {
    StoredHash(s, id) == Some(h(b)) && id in s.chunks && s.chunks[id] == Yield(x, id, b)
  }

  /** Two stores hold the same of a document. */
  predicate SameAt(a: Store, b: Store, id: Id) {
    && (id in a.docs <==> id in b.docs) && (id in a.docs ==> a.docs[id] == b.docs[id])
    && (id in a.chunks <==> id in b.chunks) && (id in a.chunks ==> a.chunks[id] == b.chunks[id])
  }

  /** A visit depends on the store, and changes it, only at its own document. */
  lemma {:induction false} VisitIsLocal(h: Bytes -> Hash, x: Extractor, force: bool, a: Store, b: Store, d: Doc)
    requires SameAt(a, b, d.id)
    ensures Visit(h, x, force, a, d).1 == Visit(h, x, force, b, d).1
    ensures SameAt(Visit(h, x, force, a, d).0, Visit(h, x, force, b, d).0, d.id)
  {
  }

  lemma {:induction false} VisitOthers(h: Bytes -> Hash, x: Extractor, force: bool, s: Store, d: Doc, id: Id)
    requires id != d.id
    ensures SameAt(s, Visit(h, x, force, s, d).0, id)
  {
  }

  lemma {:induction false} RunOthers(h: Bytes -> Hash, x: Extractor, force: bool, s: Store, docs: seq<Doc>, id: Id)
    requires forall i :: 0 <= i < |docs| ==> docs[i].id != id
    ensures SameAt(s, Run(h, x, force, s, docs).0, id)
    decreases |docs|
  {
    if docs != [] {
      VisitOthers(h, x, force, s, docs[0], id);
      var (next, o) := Visit(h, x, force, s, docs[0]);
      if !o.Raised? {
        RunOthers(h, x, force, next, docs[1..], id);
      }
    }
  }

  /** After a completed run, forced or not, every document that was fetched and yields chunks holds exactly what
      ingesting it from scratch would store. */
  lemma {:induction false} IncrementalEqualsFull(h: Bytes -> Hash, x: Extractor, force: bool, s: Store, docs: seq<Doc>,
                                                 i: nat)
    requires CollisionFree(h) && Honest(h, x, s) && DistinctDocs(docs) && Completed(Run(h, x, force, s, docs).1)
    requires i < |docs| && docs[i].fetched.Some? && Yield(x, docs[i].id, docs[i].fetched.value) != []
    ensures Holds(h, x, Run(h, x, force, s, docs).0, docs[i].id, docs[i].fetched.value)
    decreases |docs|
  {
    var next := Visit(h, x, force, s, docs[0]).0;
    CompletedTail(h, x, force, s, docs);
    VisitKeepsHonest(h, x, force, s, docs[0]);
    if i == 0 {
      RunOthers(h, x, force, next, docs[1..], docs[0].id);
    } else {
      IncrementalEqualsFull(h, x, force, next, docs[1..], i - 1);
    }
  }

  // ----- skipping and retrying -------------------------------------------------------------------------------

  /** The outcome of document i is that of its own visit, and what it leaves is what the run leaves. */
  lemma {:induction false} OwnVisitDecides(h: Bytes -> Hash, x: Extractor, force: bool, s: Store, docs: seq<Doc>,
                                           i: nat)
    requires DistinctDocs(docs) && Completed(Run(h, x, force, s, docs).1) && i < |docs|
    ensures var (end, os) := Run(h, x, force, s, docs); var (next, o) := Visit(h, x, force, s, docs[i]);
      |os| == |docs| && os[i] == o && SameAt(next, end, docs[i].id)
    decreases |docs|
  {
    OneOutcomeEach(h, x, force, s, docs);
    CompletedTail(h, x, force, s, docs);
    var next := Visit(h, x, force, s, docs[0]).0;
    if i == 0 {
      RunOthers(h, x, force, next, docs[1..], docs[0].id);
    } else {
      VisitOthers(h, x, force, s, docs[0], docs[i].id);
      VisitIsLocal(h, x, force, s, next, docs[i]);
      OwnVisitDecides(h, x, force, next, docs[1..], i - 1);
    }
  }

  /** How a completed run deals with a document. */
  lemma {:induction false} OutcomeIs(h: Bytes -> Hash, x: Extractor, force: bool, s: Store, docs: seq<Doc>, i: nat)
    requires DistinctDocs(docs) && Completed(Run(h, x, force, s, docs).1) && i < |docs|
    ensures |Run(h, x, force, s, docs).1| == |docs|
    ensures var (d, o) := (docs[i], Run(h, x, force, s, docs).1[i]);
      && (o == Failed <==> d.fetched.None?)
      && (o == Unchanged <==>
            && d.fetched.Some? && !force && d.read == Answered && d.id in s.docs
            && s.docs[d.id].hash == Some(h(d.fetched.value)))
      && (o == Empty || o == OcrFailed || o.Ingested? ==>
            var e := x(d.id, d.fetched.value);
            && e.Some? && (o.Ingested? <==> e.value.chunks != []) && (o.Ingested? ==> o.chunks == |e.value.chunks|)
            && (o == OcrFailed <==> e.value.chunks == [] && e.value.ocrFailed))
  {
    OwnVisitDecides(h, x, force, s, docs, i);
    assert Run(h, x, force, s, docs).1[i] in Run(h, x, force, s, docs).1;
  }

  /** One that was ingested leaves its chunks, its hash, and the status "ocr_partial" if some page stayed below the text
      floor, else "ingested". */
  lemma {:induction false} IngestedRow(h: Bytes -> Hash, x: Extractor, force: bool, s: Store, docs: seq<Doc>, i: nat,
                                       b: Bytes, e: Extraction)
    requires DistinctDocs(docs) && Completed(Run(h, x, force, s, docs).1) && i < |docs|
    requires docs[i].fetched == Some(b) && x(docs[i].id, b) == Some(e)
    ensures |Run(h, x, force, s, docs).1| == |docs|
    ensures Run(h, x, force, s, docs).1[i].Ingested? ==>
      var (end, id) := (Run(h, x, force, s, docs).0, docs[i].id);
      && id in end.docs && end.docs[id].hash == Some(h(b))
      && end.docs[id].status == (if e.failedPages then "ocr_partial" else "ingested")
      && id in end.chunks && end.chunks[id] == e.chunks
  {
    OwnVisitDecides(h, x, force, s, docs, i);
    assert Run(h, x, force, s, docs).1[i] in Run(h, x, force, s, docs).1;
  }

  /** One that was not leaves its chunks alone, and of its row at most the status changes: "failed", "ocr_failed" or
      "empty", if that could be recorded.  Only an empty document that had no row gets a hash by it. */
  lemma {:induction false} SkippedRow(h: Bytes -> Hash, x: Extractor, force: bool, s: Store, docs: seq<Doc>, i: nat)
    requires DistinctDocs(docs) && Completed(Run(h, x, force, s, docs).1) && i < |docs|
    ensures |Run(h, x, force, s, docs).1| == |docs|
    ensures !Run(h, x, force, s, docs).1[i].Ingested? ==>
      var (end, o) := (Run(h, x, force, s, docs).0, Run(h, x, force, s, docs).1[i]);
      var (id, former) := (docs[i].id, StoredHash(s, docs[i].id));
      && (id in end.chunks <==> id in s.chunks) && (id in s.chunks ==> end.chunks[id] == s.chunks[id])
      && (if o == Unchanged || !docs[i].markRecorded
          then (id in end.docs <==> id in s.docs) && (id in s.docs ==> end.docs[id] == s.docs[id])
          else
            && id in end.docs
            && (o == Failed ==> end.docs[id] == DocRow(former, "failed"))
            && (o == OcrFailed ==> end.docs[id] == DocRow(former, "ocr_failed"))
            && (o == Empty ==>
                  docs[i].fetched.Some? &&
                  end.docs[id] == DocRow(if id in s.docs then former else Some(h(docs[i].fetched.value)), "empty")))
  {
    OwnVisitDecides(h, x, force, s, docs, i);
    assert Run(h, x, force, s, docs).1[i] in Run(h, x, force, s, docs).1;
  }

  /** The rows of library_chunks of a document. */
  function ChunksOf(s: Store, id: Id): seq<string> {
    if id in s.chunks then s.chunks[id] else []
  }

  lemma {:induction false} NoYieldKeepsChunks(h: Bytes -> Hash, x: Extractor, force: bool, s: Store, d: Doc)
    requires d.fetched.None? || Yield(x, d.id, d.fetched.value) == []
    ensures Visit(h, x, force, s, d).0.chunks == s.chunks
  {
  }

  /** After a completed run a fetched document has the chunks that ingesting everything from scratch would give it
      exactly when its bytes yield chunks or it had none: one that has become empty keeps its former chunks. */
  lemma {:induction false} ChunksAsFromScratchIff(h: Bytes -> Hash, x: Extractor, force: bool, s: Store,
                                                  docs: seq<Doc>, i: nat)
    requires CollisionFree(h) && Honest(h, x, s) && DistinctDocs(docs)
    requires Completed(Run(h, x, force, s, docs).1) && Completed(Run(h, x, true, Store(map[], map[]), docs).1)
    requires i < |docs| && docs[i].fetched.Some?
    ensures ChunksOf(Run(h, x, force, s, docs).0, docs[i].id)
         == ChunksOf(Run(h, x, true, Store(map[], map[]), docs).0, docs[i].id)
      <==> Yield(x, docs[i].id, docs[i].fetched.value) != [] || ChunksOf(s, docs[i].id) == []
  {
    var none := Store(map[], map[]);
    if Yield(x, docs[i].id, docs[i].fetched.value) != [] {
      IncrementalEqualsFull(h, x, force, s, docs, i);
      IncrementalEqualsFull(h, x, true, none, docs, i);
    } else {
      OwnVisitDecides(h, x, force, s, docs, i);
      OwnVisitDecides(h, x, true, none, docs, i);
      NoYieldKeepsChunks(h, x, force, s, docs[i]);
      NoYieldKeepsChunks(h, x, true, none, docs[i]);
    }
  }

  /** After a completed incremental run a fetched document that yields chunks has the status a forced run would
      give it exactly when it was not skipped or had that status before. */
  lemma {:induction false} StatusAgreesIff(h: Bytes -> Hash, x: Extractor, s: Store, docs: seq<Doc>, i: nat)
    requires DistinctDocs(docs) && Completed(Run(h, x, false, s, docs).1) && i < |docs|
    requires docs[i].fetched.Some? && Yield(x, docs[i].id, docs[i].fetched.value) != []
    ensures var id, end := docs[i].id, Run(h, x, false, s, docs).0;
      id in end.docs
      && (end.docs[id].status == IngestedStatus(x(id, docs[i].fetched.value).value)
          <==> !Skips(h, false, s, docs[i]) || s.docs[id].status == IngestedStatus(x(id, docs[i].fetched.value).value))
  {
    OwnVisitDecides(h, x, false, s, docs, i);
    assert Run(h, x, false, s, docs).1[i] in Run(h, x, false, s, docs).1;
  }

  /** So a document that was ingested and then failed to be fetched once stays "failed", although it is complete
      and reported unchanged ever after. */
  lemma {:induction false} FailedStatusSticks(h: Bytes -> Hash, x: Extractor, s: Store, id: Id, b: Bytes)
    requires Yield(x, id, b) != []
    ensures var good := Doc(id, Some(b), Answered, true, true); var unreachable := Doc(id, None, Answered, true, true);
      var (s1, o1) := Visit(h, x, true, s, good);
      var (s2, o2) := Visit(h, x, false, s1, unreachable);
      var (s3, o3) := Visit(h, x, false, s2, good);
      && o1.Ingested? && o2.Failed? && o3.Unchanged?
      && Holds(h, x, s3, id, b) && s3.docs[id].status == "failed"
  {
  }

  /** A document a run could not read is tried again on the next incremental run exactly when its stored hash was
      not already the hash of these bytes: recording the failure leaves an existing hash in place. */
  lemma {:induction false} UnreadableIsRetriedIff(h: Bytes -> Hash, x: Extractor, force: bool, s: Store,
                                                  docs: seq<Doc>, i: nat)
    requires DistinctDocs(docs) && Completed(Run(h, x, force, s, docs).1) && i < |docs|
    requires docs[i].fetched.Some? && docs[i].read.Answered? && Visit(h, x, force, s, docs[i]).1.OcrFailed?
    ensures |Run(h, x, force, s, docs).1| == |docs| && Run(h, x, force, s, docs).1[i].OcrFailed?
    ensures !Skips(h, false, Run(h, x, force, s, docs).0, docs[i])
      <==> StoredHash(s, docs[i].id) != Some(h(docs[i].fetched.value))
    ensures !force ==> !Skips(h, false, Run(h, x, force, s, docs).0, docs[i])
  {
    OwnVisitDecides(h, x, force, s, docs, i);
  }

  /** An empty document is left alone on the next incremental run exactly when its hash was recorded: it had no row
      and the record was written, or the hash was there already. */
  lemma {:induction false} EmptyIsLeftAloneIff(h: Bytes -> Hash, x: Extractor, force: bool, s: Store, docs: seq<Doc>,
                                               i: nat)
    requires DistinctDocs(docs) && Completed(Run(h, x, force, s, docs).1) && i < |docs|
    requires docs[i].fetched.Some? && docs[i].read.Answered? && Visit(h, x, force, s, docs[i]).1.Empty?
    ensures |Run(h, x, force, s, docs).1| == |docs| && Run(h, x, force, s, docs).1[i].Empty?
    ensures Skips(h, false, Run(h, x, force, s, docs).0, docs[i])
      <==> (docs[i].id !in s.docs && docs[i].markRecorded)
           || StoredHash(s, docs[i].id) == Some(h(docs[i].fetched.value))
  {
    OwnVisitDecides(h, x, force, s, docs, i);
  }

  /** No stored hash is that of bytes that cannot be read. */
  ghost predicate NothingUnreadableStored(h: Bytes -> Hash, x: Extractor, s: Store) {
    forall id, b :: StoredHash(s, id) == Some(h(b)) && x(id, b).Some? && x(id, b).value.ocrFailed ==>
      x(id, b).value.chunks != []
  }

  lemma {:induction false} RunStoresNothingUnreadable(h: Bytes -> Hash, x: Extractor, force: bool, s: Store,
                                                      docs: seq<Doc>)
    requires CollisionFree(h) && NothingUnreadableStored(h, x, s)
    ensures NothingUnreadableStored(h, x, Run(h, x, force, s, docs).0)
    decreases |docs|
  {
    if docs != [] {
      var (next, o) := Visit(h, x, force, s, docs[0]);
      forall id, b | StoredHash(next, id) == Some(h(b)) && x(id, b).Some? && x(id, b).value.ocrFailed
        ensures x(id, b).value.chunks != []
      {
        if id != docs[0].id {
          assert StoredHash(s, id) == Some(h(b));
        }
      }
      if !o.Raised? {
        RunStoresNothingUnreadable(h, x, force, next, docs[1..]);
      }
    }
  }

  /** As long as extraction itself does not change, an unreadable document is retried in every incremental run,
      whatever forced and incremental runs, failures and byte changes came before. */
  lemma {:induction false} UnreadableIsAlwaysRetried(h: Bytes -> Hash, x: Extractor, runs: seq<RunInput>, d: Doc)
    requires CollisionFree(h) && d.fetched.Some?
    requires x(d.id, d.fetched.value).Some?
    requires x(d.id, d.fetched.value).value.ocrFailed && x(d.id, d.fetched.value).value.chunks == []
    ensures NothingUnreadableStored(h, x, History(h, x, runs))
    ensures !Skips(h, false, History(h, x, runs), d)
  {
    if runs != [] {
      var before, last := runs[..|runs| - 1], runs[|runs| - 1];
      UnreadableIsAlwaysRetried(h, x, before, d);
      RunStoresNothingUnreadable(h, x, last.force, History(h, x, before), last.docs);
    }
  }

  /** When extraction changes it may not be: bytes ingested while OCR worked, forced again while it does not, are
      marked unreadable but keep their hash, and are then skipped. */
  lemma {:induction false} BrokenOcrIsNotRetried(h: Bytes -> Hash, working: Extractor, broken: Extractor, s: Store,
                                                 id: Id, b: Bytes)
    requires Yield(working, id, b) != [] && broken(id, b) == Some(Extraction([], true, true))
    ensures var d := Doc(id, Some(b), Answered, true, true);
      var (s1, o1) := Visit(h, working, false, Store(s.docs - {id}, s.chunks), d);
      var (s2, o2) := Visit(h, broken, true, s1, d);
      && o1.Ingested? && o2.OcrFailed? && s2.docs[id].status == "ocr_failed"
      && Visit(h, working, false, s2, d).1.Unchanged?
  {
  }
}
