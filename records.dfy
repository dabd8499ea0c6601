/** The stored shapes: the records of the two remote indexes, the rows of the entity
    table `generic_contextdb`, and the document views the listing calls return. */
module Records {
  import opened Wrappers
  import opened Text
  import opened SparseEmbedding

  /** A record's metadata object. */
  type Metadata = map<string, string>

  /** `$meta[$key] ?? null`. */
  function Lookup(meta: Metadata, key: string): Option<string> {
    if key in meta then Some(meta[key]) else None
  }

  /** The metadata `storeDocument` writes with both records of a chunk. */
  function ChunkMetadata(title: string, content: string, hash: string, timestamp: string): Metadata {
    map["title" := title, "content" := content, "source" := title, "hash" := hash, "timestamp" := timestamp]
  }

  /** A record of the dense (serverless) index. */
  datatype DenseRecord = DenseRecord(values: seq<real>, metadata: Metadata)

  /** A record of the sparse (pod) index. */
  datatype SparseRecord = SparseRecord(sparseValues: SparseVector, metadata: Metadata)

  /** An index: namespace to id to record. */
  type Index<R> = map<string, map<string, R>>

  /** The records of one namespace; a namespace never written holds none. */
  function Namespace<R>(idx: Index<R>, ns: string): map<string, R> {
    if ns in idx then idx[ns] else map[]
  }

  /** An upsert of one record: it replaces any record with the same id. */
  function Upsert<R>(idx: Index<R>, ns: string, id: string, rec: R): Index<R> {
    idx[ns := Namespace(idx, ns)[id := rec]]
  }

  /** A delete by id (`/vectors/delete` with `ids`). */
  function RemoveId<R>(idx: Index<R>, ns: string, id: string): Index<R> {
    if ns in idx then idx[ns := idx[ns] - {id}] else idx
  }

  /** A delete of the whole namespace (`/vectors/delete` with `deleteAll`). */
  function RemoveNamespace<R>(idx: Index<R>, ns: string): Index<R> {
    idx - {ns}
  }

  /** A row of the entity table. `embedding` is the decoded `vector_embedding` column:
      `None` when it does not decode to an array. */
  datatype Row = Row(
    id: nat,
    project: string,
    content: string,
    contentType: string,
    fileUrl: Option<string>,
    upvotes: int,
    downvotes: int,
    source: string,
    embedding: Option<seq<real>>,
    metaSummary: Option<string>,
    metaTags: Option<string>,
    metaTimestamp: Option<string>,
    hash: string)

  /** The table's guarantees: auto-increment ids below the next one, each row's hash is
      the hash of its content, and no project holds two rows with the same hash. */
  ghost predicate TableValid(rows: seq<Row>, nextId: nat, sha256: string -> string) {
    && (forall i, j :: 0 <= i < j < |rows| ==> rows[i].id < rows[j].id)
    && (forall k :: 0 <= k < |rows| ==> rows[k].id < nextId && rows[k].hash == sha256(rows[k].content))
    && (forall i, j :: 0 <= i < j < |rows| ==> rows[i].project != rows[j].project || rows[i].hash != rows[j].hash)
  }

  /** `SELECT id ... WHERE project_identifier = ? AND hash = ?` finds a row. */
  predicate HasDocument(rows: seq<Row>, project: string, hash: string) {
    exists k :: 0 <= k < |rows| && rows[k].project == project && rows[k].hash == hash
  }

  /** The rows a `DELETE ... WHERE project_identifier = ?` removes, narrowed by
      `AND id = ?` when an id is given (an id column compared with its decimal text). */
  predicate Dropped(r: Row, project: string, id: Option<string>) {
    r.project == project && (id.None? || Decimal(r.id) == id.value)
  }

  /** The table after such a `DELETE`. */
  function Retain(rows: seq<Row>, project: string, id: Option<string>): (r: seq<Row>)
    ensures |r| <= |rows|
    ensures forall x :: x in r <==> x in rows && !Dropped(x, project, id)
  {
    if rows == [] then []
    else
      var p := Retain(rows[..|rows| - 1], project, id);
      var x := rows[|rows| - 1];
      assert rows == rows[..|rows| - 1] + [x];
      if Dropped(x, project, id) then p else p + [x]
  }

  /** A document as the listing and fetch calls return it. */
  datatype Doc = Doc(
    id: string,
    content: string,
    source: string,
    metaSummary: Option<string>,
    metaTags: Option<string>,
    metaTimestamp: Option<string>)

  /** The document view of a remote record, with `''` and `null` for missing keys. */
  function DocOfMetadata(id: string, meta: Metadata): Doc {
    Doc(id, Lookup(meta, "content").GetOr(""), Lookup(meta, "source").GetOr(""),
        Lookup(meta, "meta_summary"), Lookup(meta, "meta_tags"), Lookup(meta, "timestamp"))
  }

  /** The document view of a table row. */
  function DocOfRow(r: Row): Doc {
    Doc(Decimal(r.id), r.content, r.source, r.metaSummary, r.metaTags, r.metaTimestamp)
  }
}
