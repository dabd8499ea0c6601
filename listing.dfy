/** `listPineconeNamespace` and the merge of `listUnifiedContextDocs`: the records of
    one namespace of one index, and the union of the dense and the sparse listing in
    which every id appears once, tagged with the index it was taken from. */
module Listing {
  import opened Wrappers
  import opened Seqs
  import opened Records
  import opened Hosts

  /** A row of a namespace listing: `id`, `content` and `source`. */
  datatype ListedRow = ListedRow(id: string, content: string, source: string)

  /** The tag `dense_only` or `sparse_only` of a unified row. */
  datatype Origin = DenseOnly | SparseOnly

  datatype UnifiedRow = UnifiedRow(id: string, content: string, source: string, origin: Origin)

  /** The `topK` of the zero-vector listing query. */
  const ListTopK := 5000

  /** The listing row of a record, with `''` for a missing `content` or `source`. */
  function RowOf(id: string, meta: Metadata): ListedRow {
    ListedRow(id, Lookup(meta, "content").GetOr(""), Lookup(meta, "source").GetOr(""))
  }

  /** A successful listing of a namespace whose records have the given metadata: as
      many rows as the query's `topK` lets through, distinct ids of the namespace, each
      row built from its record. The order the index returns them in is not known. */
  ghost predicate IsListing(rows: seq<ListedRow>, records: map<string, Metadata>) {
    && |rows| == Min(ListTopK, |records|)
    && (forall i, j :: 0 <= i < j < |rows| ==> rows[i].id != rows[j].id)
    && (forall k :: 0 <= k < |rows| ==> rows[k].id in records && rows[k] == RowOf(rows[k].id, records[rows[k].id]))
  }

  /** What `listPineconeNamespace` can return without throwing, for a host given as a
      string: nothing for a serverless host or an absent namespace, else a listing. */
  ghost predicate ListingOf(rows: seq<ListedRow>, host: string, records: Option<map<string, Metadata>>) {
    if Serverless(host) || records.None? then rows == [] else IsListing(rows, records.value)
  }

  /** When `listPineconeNamespace` throws: on a missing host setting (a `TypeError` for
      the `string` parameter) and on a failed request to a host it does not skip. */
  predicate ListingThrows(host: Option<string>, reachable: bool) {
    host.None? || (!Serverless(host.value) && !reachable)
  }

  /** An unspecified choice of `n` distinct keys (all of them when there are fewer):
      the records a zero-vector query returns, in the order it returns them. */
  method PickIds(keys: set<string>, n: int) returns (ids: seq<string>)
    ensures |ids| == Max(0, Min(n, |keys|))
    ensures Distinct(ids)
    ensures forall k :: 0 <= k < |ids| ==> ids[k] in keys
  {
    ids := [];
    var rest := keys;
    while |ids| < n && rest != {}
      invariant rest <= keys
      invariant |rest| + |ids| == |keys|
      invariant |ids| <= Max(0, n)
      invariant Distinct(ids)
      invariant forall k :: 0 <= k < |ids| ==> ids[k] in keys && ids[k] !in rest
      decreases rest
    {
      var x :| x in rest;
      ids := ids + [x];
      rest := rest - {x};
    }
  }

  /** `listPineconeNamespace($namespace, $host)` over a namespace whose records have the
      given metadata (`None`: the index statistics do not list the namespace);
      `reachable` says whether the two requests to the host succeed. */
  method ListNamespace(host: Option<string>, records: Option<map<string, Metadata>>, reachable: bool)
    returns (r: Outcome<seq<ListedRow>>)
    ensures r == Threw <==> ListingThrows(host, reachable)
    ensures r.Returned? ==> ListingOf(r.value, host.value, records)
  {
    if host.None? {
      return Threw;
    }
    if Serverless(host.value) {
      return Returned([]);
    }
    if !reachable {
      return Threw;
    }
    if records.None? {
      return Returned([]);
    }
    var recs := records.value;
    var ids := PickIds(recs.Keys, ListTopK);
    var rows := [];
    for k := 0 to |ids|
      invariant |rows| == k
      invariant forall j :: 0 <= j < k ==> rows[j] == RowOf(ids[j], recs[ids[j]])
    {
      rows := rows + [RowOf(ids[k], recs[ids[k]])];
    }
    assert |recs.Keys| == |recs|;
    return Returned(rows);
  }

  // ---------------------------------------------------------------- the union

  function RowIds(rows: seq<ListedRow>): (r: seq<string>)
    ensures |r| == |rows|
    ensures forall k :: 0 <= k < |rows| ==> r[k] == rows[k].id
  {
    seq(|rows|, k requires 0 <= k < |rows| => rows[k].id)
  }

  /** The row `$map[$row['id']] = ...` leaves in place when every row overwrites. */
  function LastRow(rows: seq<ListedRow>, id: string): (r: Option<ListedRow>)
    ensures r.None? <==> id !in RowIds(rows)
    ensures r.Some? ==> r.value.id == id && r.value in rows
  {
    if rows == [] then None
    else
      var p := rows[..|rows| - 1];
      assert RowIds(rows) == RowIds(p) + [rows[|rows| - 1].id];
      if rows[|rows| - 1].id == id then Some(rows[|rows| - 1]) else LastRow(p, id)
  }

  /** The row an `if (!isset($map[$id]))` guard keeps: the first one. */
  function FirstRow(rows: seq<ListedRow>, id: string): (r: Option<ListedRow>)
    ensures r.None? <==> id !in RowIds(rows)
    ensures r.Some? ==> r.value.id == id && r.value in rows
  {
    if rows == [] then None
    else
      var p := rows[..|rows| - 1];
      assert RowIds(rows) == RowIds(p) + [rows[|rows| - 1].id];
      var f := FirstRow(p, id);
      if f.Some? then f else if rows[|rows| - 1].id == id then Some(rows[|rows| - 1]) else None
  }

  /** `LastRow` is the last occurrence: no later row has the id. */
  lemma {:induction false} LastRowIsLast(rows: seq<ListedRow>, id: string)
    requires id in RowIds(rows)
    ensures exists k :: 0 <= k < |rows| && rows[k] == LastRow(rows, id).value && forall j :: k < j < |rows| ==> rows[j].id != id
  {
    var n := |rows| - 1;
    var p := rows[..n];
    if rows[n].id != id {
      assert RowIds(rows) == RowIds(p) + [rows[n].id];
      LastRowIsLast(p, id);
      var k :| 0 <= k < |p| && p[k] == LastRow(p, id).value && forall j :: k < j < |p| ==> p[j].id != id;
      assert rows[k] == p[k] == LastRow(rows, id).value;
      assert forall j :: k < j < |rows| ==> rows[j].id != id by {
        forall j | k < j < |rows| ensures rows[j].id != id {
          if j < n { assert rows[j] == p[j]; }
        }
      }
    } else {
      assert rows[n] == LastRow(rows, id).value;
    }
  }

  /** `FirstRow` is the first occurrence: no earlier row has the id. */
  lemma {:induction false} FirstRowIsFirst(rows: seq<ListedRow>, id: string)
    requires id in RowIds(rows)
    ensures exists k :: 0 <= k < |rows| && rows[k] == FirstRow(rows, id).value && forall j :: 0 <= j < k ==> rows[j].id != id
  {
    var n := |rows| - 1;
    var p := rows[..n];
    assert RowIds(rows) == RowIds(p) + [rows[n].id];
    if id in RowIds(p) {
      FirstRowIsFirst(p, id);
      var k :| 0 <= k < |p| && p[k] == FirstRow(p, id).value && forall j :: 0 <= j < k ==> p[j].id != id;
      assert rows[k] == FirstRow(rows, id).value;
    } else {
      assert forall j :: 0 <= j < n ==> rows[j].id != id by {
        forall j | 0 <= j < n ensures rows[j].id != id {
          assert RowIds(p)[j] == rows[j].id;
        }
      }
      assert rows[n] == FirstRow(rows, id).value;
    }
  }

  function Tag(r: ListedRow, origin: Origin): UnifiedRow {
    UnifiedRow(r.id, r.content, r.source, origin)
  }

  /** The unified row of an id: the last dense row with it if there is one, tagged
      dense-only, else the first sparse row with it, tagged sparse-only. */
  function UnifiedOf(dense: seq<ListedRow>, sparse: seq<ListedRow>, id: string): (u: UnifiedRow)
    requires id in RowIds(dense) || id in RowIds(sparse)
    ensures u.id == id
  {
    match LastRow(dense, id)
    case Some(r) => Tag(r, DenseOnly)
    case None => Tag(FirstRow(sparse, id).value, SparseOnly)
  }

  /** `array_values($map)`: one row per id, in the order the ids were first seen. */
  function Unified(dense: seq<ListedRow>, sparse: seq<ListedRow>): seq<UnifiedRow> {
    var ids := Dedup(RowIds(dense) + RowIds(sparse));
    seq(|ids|, k requires 0 <= k < |ids| => assert ids[k] in ids; UnifiedOf(dense, sparse, ids[k]))
  }

  lemma LastRowSnoc(rows: seq<ListedRow>, x: ListedRow, id: string)
    ensures LastRow(rows + [x], id) == if x.id == id then Some(x) else LastRow(rows, id)
  {
    assert (rows + [x])[..|rows|] == rows;
  }

  lemma FirstRowSnoc(rows: seq<ListedRow>, x: ListedRow, id: string)
    ensures FirstRow(rows + [x], id) ==
      if FirstRow(rows, id).Some? then FirstRow(rows, id) else if x.id == id then Some(x) else None
  {
    assert (rows + [x])[..|rows|] == rows;
  }

  /** The state of the dense loop after the rows `seen`: the map holds, for every id
      seen, the last row with it, and `keys` are the map's keys in insertion order. */
  ghost predicate DenseState(seen: seq<ListedRow>, m: map<string, UnifiedRow>, keys: seq<string>) {
    && keys == Dedup(RowIds(seen))
    && (forall id :: id in m <==> id in keys)
    && (forall id :: id in m ==> m[id] == Tag(LastRow(seen, id).value, DenseOnly))
  }

  lemma DenseKeysStep(seen: seq<ListedRow>, row: ListedRow, keys: seq<string>)
    requires keys == Dedup(RowIds(seen))
    ensures Dedup(RowIds(seen + [row])) == if row.id in keys then keys else keys + [row.id]
  {
    assert RowIds(seen + [row]) == RowIds(seen) + [row.id];
    DedupSnoc(RowIds(seen), row.id);
  }

  lemma DenseMapStep(seen: seq<ListedRow>, row: ListedRow, m: map<string, UnifiedRow>)
    requires forall id :: id in m ==> LastRow(seen, id).Some? && m[id] == Tag(LastRow(seen, id).value, DenseOnly)
    ensures var m' := m[row.id := Tag(row, DenseOnly)];
            forall id :: id in m' ==> LastRow(seen + [row], id).Some? && m'[id] == Tag(LastRow(seen + [row], id).value, DenseOnly)
  {
    var m' := m[row.id := Tag(row, DenseOnly)];
    forall id | id in m' ensures LastRow(seen + [row], id).Some? && m'[id] == Tag(LastRow(seen + [row], id).value, DenseOnly) {
      LastRowSnoc(seen, row, id);
    }
  }

  /** One step of the dense loop. */
  lemma DenseStep(seen: seq<ListedRow>, row: ListedRow, m: map<string, UnifiedRow>, keys: seq<string>)
    requires DenseState(seen, m, keys)
    ensures DenseState(seen + [row], m[row.id := Tag(row, DenseOnly)], if row.id in m then keys else keys + [row.id])
  {
    DenseKeysStep(seen, row, keys);
    DenseMapStep(seen, row, m);
  }

  /** The dense loop of `listUnifiedContextDocs`: every dense row overwrites the entry
      of its id. */
  method AddDense(dense: seq<ListedRow>) returns (m: map<string, UnifiedRow>, keys: seq<string>)
    ensures keys == Dedup(RowIds(dense))
    ensures forall id :: id in m <==> id in keys
    ensures forall id :: id in m ==> m[id] == Tag(LastRow(dense, id).value, DenseOnly)
  {
    m, keys := map[], [];
    assert RowIds(dense[..0]) == [];
    for i := 0 to |dense|
      invariant DenseState(dense[..i], m, keys)
    {
      var row := dense[i];
      DenseStep(dense[..i], row, m, keys);
      TakeSnoc(dense, i);
      if row.id !in m {
        keys := keys + [row.id];
      }
      m := m[row.id := Tag(row, DenseOnly)];
    }
    assert dense[..|dense|] == dense;
  }

  /** What the map holds for `id` once the dense rows and the sparse rows `sparse`
      have been seen. */
  predicate Entry(dense: seq<ListedRow>, sparse: seq<ListedRow>, id: string, e: UnifiedRow) {
    match LastRow(dense, id)
    case Some(r) => e == Tag(r, DenseOnly)
    case None => FirstRow(sparse, id).Some? && e == Tag(FirstRow(sparse, id).value, SparseOnly)
  }

  lemma EntryStep(dense: seq<ListedRow>, sparse: seq<ListedRow>, row: ListedRow, id: string, e: UnifiedRow)
    requires Entry(dense, sparse, id, e)
    ensures Entry(dense, sparse + [row], id, e)
  {
    FirstRowSnoc(sparse, row, id);
  }

  lemma EntryNew(dense: seq<ListedRow>, sparse: seq<ListedRow>, row: ListedRow)
    requires row.id !in RowIds(dense) && row.id !in RowIds(sparse)
    ensures Entry(dense, sparse + [row], row.id, Tag(row, SparseOnly))
  {
    FirstRowSnoc(sparse, row, row.id);
  }

  lemma EntryIsUnified(dense: seq<ListedRow>, sparse: seq<ListedRow>, id: string, e: UnifiedRow)
    requires Entry(dense, sparse, id, e)
    ensures id in RowIds(dense) || id in RowIds(sparse)
    ensures e == UnifiedOf(dense, sparse, id)
  {
  }

  /** The state of the sparse loop after the rows `seen`. */
  ghost predicate SparseState(dense: seq<ListedRow>, seen: seq<ListedRow>, m: map<string, UnifiedRow>, keys: seq<string>) {
    && keys == Dedup(RowIds(dense) + RowIds(seen))
    && (forall id :: id in m <==> id in keys)
    && (forall id :: id in m ==> Entry(dense, seen, id, m[id]))
  }

  lemma KeysStep(dense: seq<ListedRow>, seen: seq<ListedRow>, row: ListedRow, keys: seq<string>)
    requires keys == Dedup(RowIds(dense) + RowIds(seen))
    ensures Dedup(RowIds(dense) + RowIds(seen + [row])) == if row.id in keys then keys else keys + [row.id]
    ensures row.id !in keys ==> row.id !in RowIds(dense) && row.id !in RowIds(seen)
  {
    var before := RowIds(dense) + RowIds(seen);
    assert RowIds(seen + [row]) == RowIds(seen) + [row.id];
    assert RowIds(dense) + RowIds(seen + [row]) == before + [row.id];
    DedupSnoc(before, row.id);
  }

  lemma EntriesStep(dense: seq<ListedRow>, seen: seq<ListedRow>, row: ListedRow, m: map<string, UnifiedRow>)
    requires forall id :: id in m ==> Entry(dense, seen, id, m[id])
    ensures forall id :: id in m ==> Entry(dense, seen + [row], id, m[id])
  {
    forall id | id in m ensures Entry(dense, seen + [row], id, m[id]) {
      EntryStep(dense, seen, row, id, m[id]);
    }
  }

  /** One step of the sparse loop, for a row whose id has an entry already. */
  lemma SparseStepSeen(dense: seq<ListedRow>, seen: seq<ListedRow>, row: ListedRow, m: map<string, UnifiedRow>, keys: seq<string>)
    requires SparseState(dense, seen, m, keys)
    requires row.id in m
    ensures SparseState(dense, seen + [row], m, keys)
  {
    KeysStep(dense, seen, row, keys);
    EntriesStep(dense, seen, row, m);
  }

  /** One step of the sparse loop, for a row with a new id. */
  lemma SparseStepNew(dense: seq<ListedRow>, seen: seq<ListedRow>, row: ListedRow, m: map<string, UnifiedRow>, keys: seq<string>)
    requires SparseState(dense, seen, m, keys)
    requires row.id !in m
    ensures SparseState(dense, seen + [row], m[row.id := Tag(row, SparseOnly)], keys + [row.id])
  {
    var m', keys' := m[row.id := Tag(row, SparseOnly)], keys + [row.id];
    assert row.id !in keys;
    assert Dedup(RowIds(dense) + RowIds(seen + [row])) == keys' by {
      KeysStep(dense, seen, row, keys);
    }
    assert forall id :: id in m' <==> id in keys';
    forall id | id in m' ensures Entry(dense, seen + [row], id, m'[id]) {
      if id == row.id {
        assert row.id !in RowIds(dense) && row.id !in RowIds(seen) by {
          KeysStep(dense, seen, row, keys);
        }
        EntryNew(dense, seen, row);
      } else {
        EntryStep(dense, seen, row, id, m[id]);
      }
    }
  }

  lemma SparseStart(dense: seq<ListedRow>, m: map<string, UnifiedRow>, keys: seq<string>)
    requires DenseState(dense, m, keys)
    ensures SparseState(dense, [], m, keys)
  {
    assert RowIds(dense) + RowIds([]) == RowIds(dense);
  }

  lemma SparseStepAt(dense: seq<ListedRow>, sparse: seq<ListedRow>, i: nat, m: map<string, UnifiedRow>, keys: seq<string>)
    requires i < |sparse| && SparseState(dense, sparse[..i], m, keys)
    ensures sparse[i].id in m ==> SparseState(dense, sparse[..i + 1], m, keys)
    ensures sparse[i].id !in m ==> SparseState(dense, sparse[..i + 1], m[sparse[i].id := Tag(sparse[i], SparseOnly)], keys + [sparse[i].id])
  {
    TakeSnoc(sparse, i);
    if sparse[i].id in m {
      SparseStepSeen(dense, sparse[..i], sparse[i], m, keys);
    } else {
      SparseStepNew(dense, sparse[..i], sparse[i], m, keys);
    }
  }

  /** The sparse loop: a sparse row is added only when its id has no entry yet. */
  method AddSparse(dense: seq<ListedRow>, sparse: seq<ListedRow>, m0: map<string, UnifiedRow>, keys0: seq<string>)
    returns (m: map<string, UnifiedRow>, keys: seq<string>)
    requires DenseState(dense, m0, keys0)
    ensures keys == Dedup(RowIds(dense) + RowIds(sparse))
    ensures forall id :: id in m <==> id in keys
    ensures forall id :: id in m ==> Entry(dense, sparse, id, m[id])
  {
    m, keys := m0, keys0;
    SparseStart(dense, m0, keys0);
    assert sparse[..0] == [];
    for i := 0 to |sparse|
      invariant SparseState(dense, sparse[..i], m, keys)
    {
      var row := sparse[i];
      SparseStepAt(dense, sparse, i, m, keys);
      if row.id !in m {
        m := m[row.id := Tag(row, SparseOnly)];
        keys := keys + [row.id];
      }
    }
    assert sparse[..|sparse|] == sparse;
  }

  /** `listUnifiedContextDocs`'s merge of the two listings and its `array_values`. */
  method Unify(dense: seq<ListedRow>, sparse: seq<ListedRow>) returns (u: seq<UnifiedRow>)
    ensures u == Unified(dense, sparse)
  {
    var m, keys := AddDense(dense);
    m, keys := AddSparse(dense, sparse, m, keys);
    u := seq(|keys|, k requires 0 <= k < |keys| => m[keys[k]]);
    forall k | 0 <= k < |keys|
      ensures (keys[k] in RowIds(dense) || keys[k] in RowIds(sparse)) && u[k] == UnifiedOf(dense, sparse, keys[k]) {
      EntryIsUnified(dense, sparse, keys[k], m[keys[k]]);
    }
  }

  // ---------------------------------------------------------------- properties

  /** Every id of either listing appears exactly once, and no other id does. */
  lemma UnifiedIds(dense: seq<ListedRow>, sparse: seq<ListedRow>)
    ensures var u := Unified(dense, sparse);
      && (forall i, j :: 0 <= i < j < |u| ==> u[i].id != u[j].id)
      && (forall id :: (exists k :: 0 <= k < |u| && u[k].id == id) <==> id in RowIds(dense) || id in RowIds(sparse))
  {
    var ids := Dedup(RowIds(dense) + RowIds(sparse));
    var u := Unified(dense, sparse);
    assert forall k :: 0 <= k < |u| ==> u[k].id == ids[k];
    forall k | 0 <= k < |u| ensures u[k].id in RowIds(dense) || u[k].id in RowIds(sparse) {
      assert ids[k] in ids;
    }
    forall id | id in RowIds(dense) || id in RowIds(sparse) ensures exists k :: 0 <= k < |u| && u[k].id == id {
      assert id in ids;
      var k :| 0 <= k < |ids| && ids[k] == id;
      assert u[k].id == id;
    }
  }

  /** A row is tagged dense-only exactly when the dense listing has its id, and then it
      is the last dense row with that id; otherwise it is the first sparse row with it. */
  lemma UnifiedTags(dense: seq<ListedRow>, sparse: seq<ListedRow>, k: nat)
    requires k < |Unified(dense, sparse)|
    ensures var r := Unified(dense, sparse)[k];
      && (r.origin == DenseOnly <==> r.id in RowIds(dense))
      && (r.origin == DenseOnly ==> r == Tag(LastRow(dense, r.id).value, DenseOnly))
      && (r.origin == SparseOnly ==> r.id in RowIds(sparse))
      && (r.origin == SparseOnly ==> r == Tag(FirstRow(sparse, r.id).value, SparseOnly))
  {
    var ids := Dedup(RowIds(dense) + RowIds(sparse));
    assert ids[k] in ids;
  }

  /** The dense ids come first, in the order the dense listing first has them. */
  lemma UnifiedDenseFirst(dense: seq<ListedRow>, sparse: seq<ListedRow>)
    ensures var u := Unified(dense, sparse); var d := Dedup(RowIds(dense));
      |d| <= |u| && forall k :: 0 <= k < |d| ==> u[k].id == d[k] && u[k].origin == DenseOnly
  {
    var d := Dedup(RowIds(dense));
    var ids := Dedup(RowIds(dense) + RowIds(sparse));
    DedupPrefix(RowIds(dense), RowIds(sparse));
    var u := Unified(dense, sparse);
    forall k | 0 <= k < |d| ensures u[k].id == d[k] && u[k].origin == DenseOnly {
      assert ids[k] == d[k];
      assert d[k] in d;
    }
  }
}
