/** The document store: the dense index, the sparse index and the entity table, and the
    operations that write, delete, list and fetch context documents. Which backend an
    operation uses is decided by `use_vectordb`; every call to a remote service or to
    the database is an outcome given as a parameter. */
module Store {
  import opened Wrappers
  import opened Seqs
  import opened Config
  import opened Text
  import opened SparseEmbedding
  import opened Records
  import opened Listing

  /** `if (!$embedding)` fails for a missing and for an empty embedding. */
  predicate Usable(embedding: Option<seq<real>>) {
    embedding.Some? && embedding.value != []
  }

  /** `$dateCreated ?? time()`, with the clock reading given. */
  function Timestamp(dateCreated: Option<string>, clock: nat): string {
    dateCreated.GetOr(Decimal(clock))
  }

  /** The row the entity branch of `storeDocument` saves. */
  function NewRow(id: nat, project: string, title: string, content: string, hash: string, embedding: seq<real>, now: string): Row {
    Row(id, project, content, "text", None, 0, 0, title, Some(embedding), None, None, Some(now), hash)
  }

  /** The whole state of the store. */
  datatype Snapshot = Snapshot(dense: Index<DenseRecord>, sparse: Index<SparseRecord>, rows: seq<Row>, nextId: nat)

  /** What the outside world answers during one `storeDocument`: the embedding service,
      the sparse embedding service, the two upserts, the two readings of `time()`, the
      `date()` of the entity row, and whether the entity save succeeds. */
  datatype StoreCalls = StoreCalls(
    embedding: Option<seq<real>>,
    sparseResponse: SparseResponse,
    denseUpsertOk: bool,
    sparseUpsertOk: bool,
    clock1: nat,
    clock2: nat,
    now: string,
    saveOk: bool)

  /** The effect of one `storeDocument`. In vector mode: nothing without an embedding;
      an exception and no write when the sparse vector cannot be built or the dense
      upsert fails; otherwise the dense record, and then, unless the sparse upsert
      throws, the sparse record, both under the content hash. In entity mode: a new
      row unless the project already has one with that hash or the save fails. */
  ghost predicate Stores(cfg: Settings, p: Primitives, s0: Snapshot, s1: Snapshot, threw: bool,
                         ns: string, title: string, content: string, dateCreated: Option<string>, calls: StoreCalls)
  {
    var h := ContentHash(p, content);
    if !Usable(calls.embedding) then !threw && s1 == s0
    else if IsVectorDbEnabled(cfg) then
      && s1.rows == s0.rows && s1.nextId == s0.nextId
      && if SparseThrows(calls.sparseResponse) || !calls.denseUpsertOk then
           threw && s1.dense == s0.dense && s1.sparse == s0.sparse
         else
           && s1.dense == Upsert(s0.dense, ns, h, DenseRecord(calls.embedding.value, ChunkMetadata(title, content, h, Timestamp(dateCreated, calls.clock1))))
           && if !calls.sparseUpsertOk then threw && s1.sparse == s0.sparse
              else !threw && (exists v :: SparseVectorOf(v, content, calls.sparseResponse, p)
                                  && s1.sparse == Upsert(s0.sparse, ns, h, SparseRecord(v, ChunkMetadata(title, content, h, Timestamp(dateCreated, calls.clock2)))))
    else
      && !threw && s1.dense == s0.dense && s1.sparse == s0.sparse
      && if HasDocument(s0.rows, ns, h) || !calls.saveOk then s1.rows == s0.rows && s1.nextId == s0.nextId
         else s1.rows == s0.rows + [NewRow(s0.nextId, ns, title, content, h, calls.embedding.value, calls.now)] && s1.nextId == s0.nextId + 1
  }

  /** The effect of `checkAndStoreDocument`: nothing when the document is already
      there (in vector mode: when the `/vectors/fetch` of the content hash succeeds and
      finds it), otherwise the effect of `storeDocument`. */
  ghost predicate ChecksAndStores(cfg: Settings, p: Primitives, s0: Snapshot, s1: Snapshot, threw: bool,
                                  ns: string, title: string, content: string, dateCreated: Option<string>,
                                  fetchOk: bool, calls: StoreCalls)
  {
    var h := ContentHash(p, content);
    var present := if IsVectorDbEnabled(cfg) then fetchOk && h in Namespace(s0.dense, ns) else HasDocument(s0.rows, ns, h);
    if present then !threw && s1 == s0
    else Stores(cfg, p, s0, s1, threw, ns, title, content, dateCreated, calls)
  }

  /** A delete in one index: of one id, or of the whole namespace when `id` is `None`. */
  function Erase<R>(idx: Index<R>, ns: string, id: Option<string>): Index<R> {
    if id.None? then RemoveNamespace(idx, ns) else RemoveId(idx, ns, id.value)
  }

  /** The effect of `deleteContextDocument` (`id` given) and of `purgeContextNamespace`
      (`id` is `None`). In vector mode each index whose host setting is truthy gets a
      delete request, the dense one first; a failed request ends the call with `false`
      and leaves that index and the ones after it as they are. In entity mode the
      `DELETE` statement either removes the matching rows or fails. */
  ghost predicate Removes(cfg: Settings, s0: Snapshot, s1: Snapshot, ok: bool, ns: string, id: Option<string>,
                          denseOk: bool, sparseOk: bool, dbOk: bool)
  {
    if IsVectorDbEnabled(cfg) then
      var toDense := Truthy(cfg.denseHost);
      var toSparse := Truthy(cfg.sparseHost);
      && s1.rows == s0.rows && s1.nextId == s0.nextId
      && if toDense && !denseOk then !ok && s1.dense == s0.dense && s1.sparse == s0.sparse
         else
           && s1.dense == (if toDense then Erase(s0.dense, ns, id) else s0.dense)
           && if toSparse && !sparseOk then !ok && s1.sparse == s0.sparse
              else ok && s1.sparse == (if toSparse then Erase(s0.sparse, ns, id) else s0.sparse)
    else
      && s1.dense == s0.dense && s1.sparse == s0.sparse && s1.nextId == s0.nextId
      && if dbOk then ok && s1.rows == Retain(s0.rows, ns, id) else !ok && s1.rows == s0.rows
  }

  /** What `listContextDocuments` returns. In vector mode: nothing unless both requests
      succeed and the index statistics list the namespace with a non-zero count, else
      `min($limit, $count)` distinct records of the namespace (none for a `limit` below
      1, which the index refuses), each in its document view. In entity mode: the
      project's newest `limit` rows, or nothing when the query fails. */
  ghost predicate Lists(cfg: Settings, s: Snapshot, docs: seq<Doc>, ns: string, limit: int, statsOk: bool, queryOk: bool) {
    if IsVectorDbEnabled(cfg) then
      if !RequestConfigured(cfg) || !statsOk || ns !in s.dense || |s.dense[ns]| == 0 || !queryOk then docs == []
      else
        && |docs| == Max(0, Min(limit, |s.dense[ns]|))
        && (forall i, j :: 0 <= i < j < |docs| ==> docs[i].id != docs[j].id)
        && (forall k :: 0 <= k < |docs| ==> docs[k].id in s.dense[ns] && docs[k] == DocOfMetadata(docs[k].id, s.dense[ns][docs[k].id].metadata))
    else
      docs == (if queryOk then Newest(s.rows, ns, limit) else [])
  }

  /** The metadata of the records of a namespace, or `None` when the index does not
      have the namespace. */
  function DenseMetadata(idx: Index<DenseRecord>, ns: string): Option<map<string, Metadata>> {
    if ns in idx then Some(map id | id in idx[ns] :: idx[ns][id].metadata) else None
  }

  function SparseMetadata(idx: Index<SparseRecord>, ns: string): Option<map<string, Metadata>> {
    if ns in idx then Some(map id | id in idx[ns] :: idx[ns][id].metadata) else None
  }

  /** `SELECT ... WHERE project_identifier = ? ORDER BY id DESC LIMIT ?` on a table kept
      in id order: the project's rows from the newest, at most `limit` of them. */
  function Newest(rows: seq<Row>, project: string, limit: int): seq<Doc> {
    if rows == [] || limit <= 0 then []
    else
      var last := rows[|rows| - 1];
      if last.project == project then [DocOfRow(last)] + Newest(rows[..|rows| - 1], project, limit - 1)
      else Newest(rows[..|rows| - 1], project, limit)
  }

  /** The row `WHERE project_identifier = ? AND id = ? LIMIT 1` returns. */
  function FindRow(rows: seq<Row>, project: string, id: string): (r: Option<Row>)
    ensures r.None? <==> forall k :: 0 <= k < |rows| ==> !Dropped(rows[k], project, Some(id))
    ensures r.Some? ==> r.value in rows && Dropped(r.value, project, Some(id))
  {
    if rows == [] then None
    else
      var p := rows[..|rows| - 1];
      var f := FindRow(p, project, id);
      assert forall k :: 0 <= k < |p| ==> p[k] == rows[k];
      if f.Some? then f
      else if Dropped(rows[|rows| - 1], project, Some(id)) then Some(rows[|rows| - 1])
      else None
  }

  /** The rows of a project, in table order. */
  function ProjectRows(rows: seq<Row>, project: string): (r: seq<Row>)
    ensures |r| <= |rows|
    ensures forall k :: 0 <= k < |r| ==> r[k] in rows && r[k].project == project
    ensures forall x :: x in r <==> x in rows && x.project == project
  {
    if rows == [] then []
    else
      var p := ProjectRows(rows[..|rows| - 1], project);
      var x := rows[|rows| - 1];
      if x.project == project then p + [x] else p
  }

  // ---------------------------------------------------------------- properties

  /** Storing keeps the table's guarantees, in particular one row per project and hash. */
  lemma StoreKeepsTable(cfg: Settings, p: Primitives, s0: Snapshot, s1: Snapshot, threw: bool,
                        ns: string, title: string, content: string, dateCreated: Option<string>, calls: StoreCalls)
    requires TableValid(s0.rows, s0.nextId, p.sha256)
    requires Stores(cfg, p, s0, s1, threw, ns, title, content, dateCreated, calls)
    ensures TableValid(s1.rows, s1.nextId, p.sha256)
  {
    var h := ContentHash(p, content);
    if Usable(calls.embedding) && !IsVectorDbEnabled(cfg) && !HasDocument(s0.rows, ns, h) && calls.saveOk {
      var r := s1.rows;
      var n := |s0.rows|;
      assert r[n].project == ns && r[n].hash == h;
      forall i | 0 <= i < n ensures r[i].project != ns || r[i].hash != h {
        assert r[i] == s0.rows[i];
      }
    }
  }

  lemma TablePrefix(rows: seq<Row>, nextId: nat, sha256: string -> string)
    requires rows != [] && TableValid(rows, nextId, sha256)
    ensures TableValid(rows[..|rows| - 1], nextId, sha256)
  {
  }

  /** Appending a row that comes after every row and does not repeat a project and hash
      keeps the table's guarantees. */
  lemma TableSnoc(q: seq<Row>, x: Row, nextId: nat, sha256: string -> string)
    requires TableValid(q, nextId, sha256)
    requires x.id < nextId && x.hash == sha256(x.content)
    requires forall y | y in q :: y.id < x.id && (y.project != x.project || y.hash != x.hash)
    ensures TableValid(q + [x], nextId, sha256)
  {
    var r := q + [x];
    forall i, j | 0 <= i < j < |r| ensures r[i].id < r[j].id && (r[i].project != r[j].project || r[i].hash != r[j].hash) {
      if j == |q| {
        assert r[i] in q;
      } else {
        assert r[i] == q[i] && r[j] == q[j];
      }
    }
  }

  /** A delete keeps the table's guarantees. */
  lemma {:induction false} RetainKeepsTable(rows: seq<Row>, nextId: nat, sha256: string -> string, project: string, id: Option<string>)
    requires TableValid(rows, nextId, sha256)
    ensures TableValid(Retain(rows, project, id), nextId, sha256)
  {
    if rows != [] {
      var p := rows[..|rows| - 1];
      var x := rows[|rows| - 1];
      TablePrefix(rows, nextId, sha256);
      RetainKeepsTable(p, nextId, sha256, project, id);
      var q := Retain(p, project, id);
      if !Dropped(x, project, id) {
        forall y | y in q ensures y.id < x.id && (y.project != x.project || y.hash != x.hash) {
          var i :| 0 <= i < |p| && p[i] == y;
          assert rows[i] == y;
        }
        assert x == rows[|rows| - 1];
        TableSnoc(q, x, nextId, sha256);
      }
    }
  }

  /** `n` lists the last `limit` rows of `pr` from the last one back. */
  ghost predicate IsLatest(n: seq<Doc>, pr: seq<Row>, limit: int) {
    && |n| == Min(limit, |pr|)
    && forall k :: 0 <= k < |n| ==> n[k] == DocOfRow(pr[|pr| - 1 - k])
  }

  /** The listing of the entity table returns the project's rows from the last one
      back, as many as the limit allows. */
  lemma {:induction false} NewestIsLatest(rows: seq<Row>, project: string, limit: int)
    requires limit >= 0
    ensures IsLatest(Newest(rows, project, limit), ProjectRows(rows, project), limit)
  {
    if rows != [] && limit > 0 {
      var p := rows[..|rows| - 1];
      var x := rows[|rows| - 1];
      if x.project == project {
        NewestIsLatest(p, project, limit - 1);
        NewestStep(Newest(p, project, limit - 1), ProjectRows(p, project), x, limit);
      } else {
        NewestIsLatest(p, project, limit);
      }
    }
  }

  /** The step of the lemma above for a last row of the project. */
  lemma NewestStep(n: seq<Doc>, pr: seq<Row>, x: Row, limit: int)
    requires limit > 0
    requires IsLatest(n, pr, limit - 1)
    ensures IsLatest([DocOfRow(x)] + n, pr + [x], limit)
  {
    var n', pr' := [DocOfRow(x)] + n, pr + [x];
    forall k | 0 <= k < |n'| ensures n'[k] == DocOfRow(pr'[|pr'| - 1 - k]) {
      if k > 0 {
        assert n'[k] == n[k - 1];
        assert pr'[|pr'| - 1 - k] == pr[|pr| - 1 - (k - 1)];
      }
    }
  }

  ghost predicate AscendingIds(rs: seq<Row>) {
    forall i, j :: 0 <= i < j < |rs| ==> rs[i].id < rs[j].id
  }

  /** The rows of a project come in increasing id order, so the listing above is newest
      first. */
  lemma {:induction false} ProjectRowsAscending(rows: seq<Row>, nextId: nat, sha256: string -> string, project: string)
    requires TableValid(rows, nextId, sha256)
    ensures AscendingIds(ProjectRows(rows, project))
  {
    if rows != [] {
      var p := rows[..|rows| - 1];
      var x := rows[|rows| - 1];
      TablePrefix(rows, nextId, sha256);
      ProjectRowsAscending(p, nextId, sha256, project);
      if x.project == project {
        var q := ProjectRows(p, project);
        forall y | y in q ensures y.id < x.id {
          var a :| 0 <= a < |p| && p[a] == y;
          assert rows[a] == y;
        }
        AscendingSnoc(q, x);
      }
    }
  }

  lemma AscendingSnoc(q: seq<Row>, x: Row)
    requires AscendingIds(q)
    requires forall y | y in q :: y.id < x.id
    ensures AscendingIds(q + [x])
  {
    var r := q + [x];
    forall i, j | 0 <= i < j < |r| ensures r[i].id < r[j].id {
      assert r[i] == q[i];
      if j < |q| {
        assert r[j] == q[j];
      }
    }
  }

  /** Distinct ids have distinct decimal renderings, so an id string names at most one
      row of the table. */
  lemma OneRowPerId(rows: seq<Row>, nextId: nat, sha256: string -> string, project: string, id: string, i: int, j: int)
    requires TableValid(rows, nextId, sha256)
    requires 0 <= i < |rows| && 0 <= j < |rows|
    requires Dropped(rows[i], project, Some(id)) && Dropped(rows[j], project, Some(id))
    ensures i == j
  {
    DecimalInjective(rows[i].id, rows[j].id);
  }

  /** After a successful store the document is there: under its content hash in both
      indexes, with the stored content, or as a row of the project. */
  lemma StoredIsPresent(cfg: Settings, p: Primitives, s0: Snapshot, s1: Snapshot, threw: bool,
                        ns: string, title: string, content: string, dateCreated: Option<string>, calls: StoreCalls)
    requires Stores(cfg, p, s0, s1, threw, ns, title, content, dateCreated, calls)
    requires Usable(calls.embedding) && !threw
    ensures var h := ContentHash(p, content);
            IsVectorDbEnabled(cfg) ==>
              && h in Namespace(s1.dense, ns) && h in Namespace(s1.sparse, ns)
              && DocOfMetadata(h, Namespace(s1.dense, ns)[h].metadata).content == content
              && DocOfMetadata(h, Namespace(s1.sparse, ns)[h].metadata).content == content
    ensures !IsVectorDbEnabled(cfg) && calls.saveOk ==> HasDocument(s1.rows, ns, ContentHash(p, content))
  {
    var h := ContentHash(p, content);
    if !IsVectorDbEnabled(cfg) && calls.saveOk && !HasDocument(s0.rows, ns, h) {
      assert s1.rows[|s0.rows|].hash == h;
    }
  }

  /** In vector mode both records of a stored chunk carry the same title, content,
      source and hash; their timestamps agree when a creation date is given, and can
      differ otherwise, because `time()` is read once for each record. */
  lemma StoredMetadataAgree(cfg: Settings, p: Primitives, s0: Snapshot, s1: Snapshot, threw: bool,
                            ns: string, title: string, content: string, dateCreated: Option<string>, calls: StoreCalls)
    requires Stores(cfg, p, s0, s1, threw, ns, title, content, dateCreated, calls)
    requires Usable(calls.embedding) && !threw && IsVectorDbEnabled(cfg)
    ensures var h := ContentHash(p, content);
      var d, s := Namespace(s1.dense, ns)[h].metadata, Namespace(s1.sparse, ns)[h].metadata;
      && d - {"timestamp"} == s - {"timestamp"}
      && Lookup(d, "timestamp") == Some(Timestamp(dateCreated, calls.clock1))
      && Lookup(s, "timestamp") == Some(Timestamp(dateCreated, calls.clock2))
      && (dateCreated.Some? || calls.clock1 == calls.clock2 ==> d == s)
  {
    var h := ContentHash(p, content);
    var v :| SparseVectorOf(v, content, calls.sparseResponse, p)
      && s1.sparse == Upsert(s0.sparse, ns, h, SparseRecord(v, ChunkMetadata(title, content, h, Timestamp(dateCreated, calls.clock2))));
    var d := ChunkMetadata(title, content, h, Timestamp(dateCreated, calls.clock1));
    var s := ChunkMetadata(title, content, h, Timestamp(dateCreated, calls.clock2));
    assert d - {"timestamp"} == s - {"timestamp"};
  }

  /** In vector mode `storeDocument` is idempotent: storing a chunk again, with the same
      creation date and the same answers from the embedding services, leaves the indexes
      as the first store left them (an upsert replaces the record of the same id). */
  lemma StoreAgainSame(cfg: Settings, p: Primitives, s0: Snapshot, s1: Snapshot, s2: Snapshot, threw1: bool, threw2: bool,
                       ns: string, title: string, content: string, date: string, calls1: StoreCalls, calls2: StoreCalls)
    requires IsVectorDbEnabled(cfg)
    requires Stores(cfg, p, s0, s1, threw1, ns, title, content, Some(date), calls1) && !threw1
    requires calls2.embedding == calls1.embedding && calls2.sparseResponse == calls1.sparseResponse
    requires calls2.denseUpsertOk && calls2.sparseUpsertOk
    requires Stores(cfg, p, s1, s2, threw2, ns, title, content, Some(date), calls2)
    ensures s2 == s1 && !threw2
  {
    if Usable(calls1.embedding) {
      var h := ContentHash(p, content);
      var meta := ChunkMetadata(title, content, h, date);
      var v1 :| SparseVectorOf(v1, content, calls1.sparseResponse, p)
        && s1.sparse == Upsert(s0.sparse, ns, h, SparseRecord(v1, meta));
      var v2 :| SparseVectorOf(v2, content, calls2.sparseResponse, p)
        && s2.sparse == Upsert(s1.sparse, ns, h, SparseRecord(v2, meta));
      SparseVectorOfUnique(v1, v2, content, calls1.sparseResponse, p);
      UpsertTwice(s0.dense, ns, h, DenseRecord(calls1.embedding.value, meta));
      UpsertTwice(s0.sparse, ns, h, SparseRecord(v1, meta));
    }
  }

  lemma UpsertTwice<R>(idx: Index<R>, ns: string, id: string, rec: R)
    ensures Upsert(Upsert(idx, ns, id, rec), ns, id, rec) == Upsert(idx, ns, id, rec)
  {
    var once := Upsert(idx, ns, id, rec);
    assert Namespace(once, ns)[id := rec] == Namespace(once, ns);
  }

  /** `checkAndStoreDocument` deduplicates: once a document went in, checking and
      storing it again (with a working existence check) changes nothing. */
  lemma StoreOnce(cfg: Settings, p: Primitives, s0: Snapshot, s1: Snapshot, s2: Snapshot, threw1: bool, threw2: bool,
                  ns: string, title: string, content: string, dateCreated: Option<string>,
                  fetchOk1: bool, calls1: StoreCalls, title2: string, dateCreated2: Option<string>, calls2: StoreCalls)
    requires ChecksAndStores(cfg, p, s0, s1, threw1, ns, title, content, dateCreated, fetchOk1, calls1)
    requires Usable(calls1.embedding) && !threw1 && (!IsVectorDbEnabled(cfg) ==> calls1.saveOk)
    requires ChecksAndStores(cfg, p, s1, s2, threw2, ns, title2, content, dateCreated2, true, calls2)
    ensures s2 == s1 && !threw2
  {
    var h := ContentHash(p, content);
    if IsVectorDbEnabled(cfg) {
      if !(fetchOk1 && h in Namespace(s0.dense, ns)) {
        StoredIsPresent(cfg, p, s0, s1, threw1, ns, title, content, dateCreated, calls1);
      }
    } else if !HasDocument(s0.rows, ns, h) {
      StoredIsPresent(cfg, p, s0, s1, threw1, ns, title, content, dateCreated, calls1);
    }
  }

  /** A store touches only its own namespace and project. */
  lemma StoreOnlyNamespace(cfg: Settings, p: Primitives, s0: Snapshot, s1: Snapshot, threw: bool,
                           ns: string, title: string, content: string, dateCreated: Option<string>, calls: StoreCalls, other: string)
    requires Stores(cfg, p, s0, s1, threw, ns, title, content, dateCreated, calls)
    requires other != ns
    ensures Namespace(s1.dense, other) == Namespace(s0.dense, other)
    ensures Namespace(s1.sparse, other) == Namespace(s0.sparse, other)
    ensures ProjectRows(s1.rows, other) == ProjectRows(s0.rows, other)
  {
    var h := ContentHash(p, content);
    if Usable(calls.embedding) && !IsVectorDbEnabled(cfg) && !HasDocument(s0.rows, ns, h) && calls.saveOk {
      assert s1.rows[..|s1.rows| - 1] == s0.rows;
    }
  }

  /** After a successful delete the document is gone from every index the call
      reached, and from the table; after a purge the namespace is. Nothing of another
      namespace or project changes. */
  lemma RemovedIsGone(cfg: Settings, s0: Snapshot, s1: Snapshot, ok: bool, ns: string, id: Option<string>,
                      denseOk: bool, sparseOk: bool, dbOk: bool)
    requires Removes(cfg, s0, s1, ok, ns, id, denseOk, sparseOk, dbOk)
    requires ok
    ensures IsVectorDbEnabled(cfg) && Truthy(cfg.denseHost) ==>
              if id.Some? then id.value !in Namespace(s1.dense, ns) else ns !in s1.dense
    ensures IsVectorDbEnabled(cfg) && Truthy(cfg.sparseHost) ==>
              if id.Some? then id.value !in Namespace(s1.sparse, ns) else ns !in s1.sparse
    ensures !IsVectorDbEnabled(cfg) ==> forall r :: r in s1.rows ==> !Dropped(r, ns, id)
    ensures !IsVectorDbEnabled(cfg) && id.Some? ==> FindRow(s1.rows, ns, id.value).None?
  {
  }

  lemma RemovesOnlyNamespace(cfg: Settings, s0: Snapshot, s1: Snapshot, ok: bool, ns: string, id: Option<string>,
                             denseOk: bool, sparseOk: bool, dbOk: bool, other: string)
    requires Removes(cfg, s0, s1, ok, ns, id, denseOk, sparseOk, dbOk)
    requires other != ns
    ensures Namespace(s1.dense, other) == Namespace(s0.dense, other)
    ensures Namespace(s1.sparse, other) == Namespace(s0.sparse, other)
    ensures ProjectRows(s1.rows, other) == ProjectRows(s0.rows, other)
  {
    if !IsVectorDbEnabled(cfg) && dbOk {
      RetainOtherProject(s0.rows, ns, id, other);
    }
  }

  lemma {:induction false} RetainOtherProject(rows: seq<Row>, project: string, id: Option<string>, other: string)
    requires other != project
    ensures ProjectRows(Retain(rows, project, id), other) == ProjectRows(rows, other)
  {
    if rows != [] {
      var p := rows[..|rows| - 1];
      var x := rows[|rows| - 1];
      RetainOtherProject(p, project, id, other);
      var q := Retain(p, project, id);
      if !Dropped(x, project, id) {
        assert (q + [x])[..|q + [x]| - 1] == q;
      }
    }
  }

  // ---------------------------------------------------------------- the store

  class ContextStore {
    const settings: Settings
    const prims: Primitives
    /** The dense index (`pinecone_host`). */
    var dense: Index<DenseRecord>
    /** The sparse index (`pinecone_host_sparse`). */
    var sparse: Index<SparseRecord>
    /** The entity table, in id order, and its next auto-increment id. */
    var rows: seq<Row>
    var nextId: nat

    ghost predicate Valid()
      reads this
    {
      TableValid(rows, nextId, prims.sha256)
    }

    function Current(): Snapshot
      reads this
    {
      Snapshot(dense, sparse, rows, nextId)
    }

    constructor (settings: Settings, prims: Primitives)
      ensures Valid()
      ensures this.settings == settings && this.prims == prims
      ensures dense == map[] && sparse == map[] && rows == [] && nextId == 1
    {
      this.settings := settings;
      this.prims := prims;
      dense, sparse, rows, nextId := map[], map[], [], 1;
    }

    /** `storeDocument($projectIdentifier, $title, $content, $dateCreated)`; `threw`
        says whether an exception leaves it. */
    method StoreDocument(ns: string, title: string, content: string, dateCreated: Option<string>, calls: StoreCalls)
      returns (threw: bool)
      requires Valid()
      modifies this
      ensures Valid()
      ensures Stores(settings, prims, old(Current()), Current(), threw, ns, title, content, dateCreated, calls)
    {
      ghost var s0 := Current();
      if !Usable(calls.embedding) {
        return false;
      }
      var embedding := calls.embedding.value;
      var h := ContentHash(prims, content);
      if IsVectorDbEnabled(settings) {
        var sv := GenerateSparseVector(content, calls.sparseResponse, prims);
        if sv.Raised? {
          return true;
        }
        if !calls.denseUpsertOk {
          return true;
        }
        dense := Upsert(dense, ns, h, DenseRecord(embedding, ChunkMetadata(title, content, h, Timestamp(dateCreated, calls.clock1))));
        if !calls.sparseUpsertOk {
          return true;
        }
        sparse := Upsert(sparse, ns, h, SparseRecord(sv.v, ChunkMetadata(title, content, h, Timestamp(dateCreated, calls.clock2))));
        return false;
      }
      if HasDocument(rows, ns, h) || !calls.saveOk {
        return false;
      }
      rows := rows + [NewRow(nextId, ns, title, content, h, embedding, calls.now)];
      nextId := nextId + 1;
      threw := false;
      StoreKeepsTable(settings, prims, s0, Current(), threw, ns, title, content, dateCreated, calls);
    }
    /** `checkAndStoreDocument`: `fetchOk` says whether the existence check against the
        dense index succeeds (a failed check is logged and the document stored anyway). */
    method CheckAndStoreDocument(ns: string, title: string, content: string, dateCreated: Option<string>,
                                 fetchOk: bool, calls: StoreCalls)
      returns (threw: bool)
      requires Valid()
      modifies this
      ensures Valid()
      ensures ChecksAndStores(settings, prims, old(Current()), Current(), threw, ns, title, content, dateCreated, fetchOk, calls)
    {
      var h := ContentHash(prims, content);
      if IsVectorDbEnabled(settings) {
        if fetchOk && h in Namespace(dense, ns) {
          return false;
        }
      } else if HasDocument(rows, ns, h) {
        return false;
      }
      threw := StoreDocument(ns, title, content, dateCreated, calls);
    }

    /** `deleteContextDocument($projectIdentifier, $id)`. */
    method DeleteContextDocument(ns: string, id: string, denseOk: bool, sparseOk: bool, dbOk: bool)
      returns (ok: bool)
      requires Valid()
      modifies this
      ensures Valid()
      ensures Removes(settings, old(Current()), Current(), ok, ns, Some(id), denseOk, sparseOk, dbOk)
    {
      ok := Remove(ns, Some(id), denseOk, sparseOk, dbOk);
    }

    /** `purgeContextNamespace($projectIdentifier)`. */
    method PurgeContextNamespace(ns: string, denseOk: bool, sparseOk: bool, dbOk: bool)
      returns (ok: bool)
      requires Valid()
      modifies this
      ensures Valid()
      ensures Removes(settings, old(Current()), Current(), ok, ns, None, denseOk, sparseOk, dbOk)
    {
      ok := Remove(ns, None, denseOk, sparseOk, dbOk);
    }

    /** The shared shape of the two deletes. */
    method Remove(ns: string, id: Option<string>, denseOk: bool, sparseOk: bool, dbOk: bool)
      returns (ok: bool)
      requires Valid()
      modifies this
      ensures Valid()
      ensures Removes(settings, old(Current()), Current(), ok, ns, id, denseOk, sparseOk, dbOk)
    {
      if IsVectorDbEnabled(settings) {
        if Truthy(settings.denseHost) {
          if !denseOk {
            return false;
          }
          dense := Erase(dense, ns, id);
        }
        if Truthy(settings.sparseHost) {
          if !sparseOk {
            return false;
          }
          sparse := Erase(sparse, ns, id);
        }
        return true;
      }
      if !dbOk {
        return false;
      }
      RetainKeepsTable(rows, nextId, prims.sha256, ns, id);
      rows := Retain(rows, ns, id);
      ok := true;
    }

    /** `listContextDocuments($projectIdentifier, $limit)`: `statsOk` and `queryOk` say
        whether the statistics request and the query (in entity mode: the `SELECT`)
        succeed. */
    method ListContextDocuments(ns: string, limit: int, statsOk: bool, queryOk: bool) returns (docs: seq<Doc>)
      ensures Lists(settings, Current(), docs, ns, limit, statsOk, queryOk)
    {
      if IsVectorDbEnabled(settings) {
        if !RequestConfigured(settings) || !statsOk || ns !in dense {
          return [];
        }
        var records := dense[ns];
        var count := |records|;
        if count == 0 || !queryOk {
          return [];
        }
        var ids := PickIds(records.Keys, Min(limit, count));
        assert |records.Keys| == count;
        docs := [];
        for k := 0 to |ids|
          invariant |docs| == k
          invariant forall j :: 0 <= j < k ==> docs[j] == DocOfMetadata(ids[j], records[ids[j]].metadata)
        {
          docs := docs + [DocOfMetadata(ids[k], records[ids[k]].metadata)];
        }
        return docs;
      }
      if !queryOk {
        return [];
      }
      docs := [];
      var i := |rows|;
      assert rows[..i] == rows;
      while i > 0 && |docs| < limit
        invariant 0 <= i <= |rows|
        invariant docs + Newest(rows[..i], ns, limit - |docs|) == Newest(rows, ns, limit)
      {
        assert rows[..i][..i - 1] == rows[..i - 1];
        i := i - 1;
        if rows[i].project == ns {
          docs := docs + [DocOfRow(rows[i])];
        }
      }
    }

    /** `fetchContextDocument($projectIdentifier, $id)`: `requestOk` says whether the
        request (in entity mode: the `SELECT`) succeeds. Whatever the backend, a
        document found carries the id asked for. */
    function FetchContextDocument(ns: string, id: string, requestOk: bool): (r: Option<Doc>)
      reads this
      ensures r.Some? ==> r.value.id == id
      ensures IsVectorDbEnabled(settings) ==>
                (r.Some? <==> RequestConfigured(settings) && requestOk && id in Namespace(dense, ns))
                && (r.Some? ==> r.value == DocOfMetadata(id, Namespace(dense, ns)[id].metadata))
      ensures !IsVectorDbEnabled(settings) ==>
                (r.Some? <==> requestOk && exists k :: 0 <= k < |rows| && Dropped(rows[k], ns, Some(id)))
                && (r.Some? ==> exists k :: 0 <= k < |rows| && rows[k].project == ns && r.value == DocOfRow(rows[k]))
    {
      if IsVectorDbEnabled(settings) then
        if RequestConfigured(settings) && requestOk && id in Namespace(dense, ns)
        then Some(DocOfMetadata(id, Namespace(dense, ns)[id].metadata))
        else None
      else if !requestOk then None
      else
        var row := FindRow(rows, ns, id);
        if row.Some? then Some(DocOfRow(row.value)) else None
    }

    /** `listUnifiedContextDocs($namespace)`: the dense and then the sparse namespace
        listing, merged; a listing that throws ends the call. */
    method ListUnifiedContextDocs(ns: string, denseReachable: bool, sparseReachable: bool)
      returns (r: Outcome<seq<UnifiedRow>>)
      ensures r == Threw <==> ListingThrows(settings.denseHost, denseReachable) || ListingThrows(settings.sparseHost, sparseReachable)
      ensures r.Returned? ==>
                exists dl, sl :: && ListingOf(dl, settings.denseHost.value, DenseMetadata(dense, ns))
                                 && ListingOf(sl, settings.sparseHost.value, SparseMetadata(sparse, ns))
                                 && r.value == Unified(dl, sl)
    {
      var d := ListNamespace(settings.denseHost, DenseMetadata(dense, ns), denseReachable);
      if d.Threw? {
        return Threw;
      }
      var s := ListNamespace(settings.sparseHost, SparseMetadata(sparse, ns), sparseReachable);
      if s.Threw? {
        return Threw;
      }
      var u := Unify(d.value, s.value);
      return Returned(u);
    }
  }
}
