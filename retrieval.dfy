/** `getRelevantDocuments` and `debugSearchContext`: the retrieval of the documents that
    best match a query, by hybrid fusion of two index queries in vector mode and by
    cosine similarity over the project's rows of the entity table otherwise. */
module Retrieval {
  import opened Wrappers
  import opened Seqs
  import opened Sorting
  import opened Config
  import opened Cosine
  import opened SparseEmbedding
  import opened Fusion
  import opened Records
  import opened Store

  /** A message of the conversation: its `role` and `content` (`None` when the key is
      missing or null, or the message is not an array). */
  datatype Turn = Turn(role: Option<string>, content: Option<string>)

  /** The query `getRelevantDocuments` answers: the content of the last message,
      provided the conversation is a non-empty array whose last message has the role
      `user` and a content. */
  function LastUserQuery(conversation: Option<seq<Turn>>): Option<string> {
    if conversation.None? || conversation.value == [] then None
    else
      var last := conversation.value[|conversation.value| - 1];
      if last.role == Some("user") && last.content.Some? then last.content else None
  }

  /** A retrieved document: its document view, the `dense` and `sparse` scores (set in
      vector mode only) and the `similarity` the results are ranked by. */
  datatype Hit = Hit(doc: Doc, dense: Option<real>, sparse: Option<real>, similarity: real)

  function Score(h: Hit): real {
    h.similarity
  }

  /** The formatted form of a fused candidate. */
  function HitOfCandidate(c: Candidate): Hit {
    Hit(DocOfMetadata(c.record.id, c.record.metadata), Some(c.denseScore), Some(c.sparseScore), c.hybridScore)
  }

  function Hits(cs: seq<Candidate>): (r: seq<Hit>)
    ensures |r| == |cs|
    ensures forall k :: 0 <= k < |cs| ==> r[k] == HitOfCandidate(cs[k])
  {
    seq(|cs|, k requires 0 <= k < |cs| => HitOfCandidate(cs[k]))
  }

  /** The vector path: the fusion of the two match lists (a failed query or a response
      without `matches` contributes none), cut to `hybrid_candidate_k` by the fusion
      and then to `topK`, formatted; no further sort. */
  function HybridHits(cfg: Settings, dense: Option<seq<Match>>, sparse: Option<seq<Match>>, topK: int, log: real -> real): seq<Hit> {
    Hits(Slice(Merged(dense.GetOr([]), sparse.GetOr([]), CandidateK(cfg), log, DenseWeight(cfg), SparseWeight(cfg)), topK))
  }

  /** The formatted form of a row with its cosine similarity to the query; a stored
      embedding that does not decode to an array is compared as an empty vector. */
  function RowHit(r: Row, q: seq<real>, sqrt: real -> real): Hit {
    Hit(DocOfRow(r), None, None, Similarity(q, r.embedding.GetOr([]), sqrt))
  }

  /** The scored rows, in row order; with `skipUnreadable` (`debugSearchContext`) a
      row whose embedding does not decode to an array is passed over. */
  function Scored(rs: seq<Row>, q: seq<real>, sqrt: real -> real, skipUnreadable: bool): (r: seq<Hit>)
    ensures |r| <= |rs|
    ensures !skipUnreadable ==> |r| == |rs|
    ensures !skipUnreadable ==> forall k :: 0 <= k < |rs| ==> r[k] == RowHit(rs[k], q, sqrt)
    ensures forall k :: 0 <= k < |rs| && rs[k].embedding.Some? ==> RowHit(rs[k], q, sqrt) in r
  {
    if rs == [] then []
    else
      var last := rs[|rs| - 1];
      assert forall k :: 0 <= k < |rs| - 1 ==> rs[..|rs| - 1][k] == rs[k];
      Scored(rs[..|rs| - 1], q, sqrt, skipUnreadable) + (if skipUnreadable && last.embedding.None? then [] else [RowHit(last, q, sqrt)])
  }

  /** The rows whose stored embedding decodes to an array, in row order. */
  function Readable(rs: seq<Row>): (r: seq<Row>)
    ensures forall x :: x in r <==> x in rs && x.embedding.Some?
  {
    if rs == [] then []
    else
      var last := rs[|rs| - 1];
      assert rs == rs[..|rs| - 1] + [last];
      Readable(rs[..|rs| - 1]) + (if last.embedding.None? then [] else [last])
  }

  /** Passing over unreadable rows is scoring only the readable ones: with
      `skipUnreadable` the hits are, one for one and in order, those of the rows
      whose embedding decodes. */
  lemma {:induction false} ScoredSkipping(rs: seq<Row>, q: seq<real>, sqrt: real -> real)
    ensures Scored(rs, q, sqrt, true) == Scored(Readable(rs), q, sqrt, false)
  {
    if rs != [] {
      var p, last := rs[..|rs| - 1], rs[|rs| - 1];
      ScoredSkipping(p, q, sqrt);
      if last.embedding.Some? {
        var rp := Readable(p);
        assert Readable(rs) == rp + [last];
        assert (rp + [last])[..|rp|] == rp;
      }
    }
  }

  /** The entity path: the project's scored rows, stably sorted by descending
      similarity, cut to `topK`. */
  function CosineHits(rows: seq<Row>, project: string, q: seq<real>, sqrt: real -> real, topK: int, skipUnreadable: bool): seq<Hit> {
    Slice(SortDesc(Scored(ProjectRows(rows, project), q, sqrt, skipUnreadable), Score), topK)
  }

  /** What the outside world answers during one search: the embedding of the query,
      the sparse embedding service, the dense and the sparse index query (the
      `matches` of the response), and whether the entity table can be read. */
  datatype SearchCalls = SearchCalls(
    embedding: Option<seq<real>>,
    sparseResponse: SparseResponse,
    denseMatches: Option<seq<Match>>,
    sparseMatches: Option<seq<Match>>,
    dbOk: bool)

  /** The result of a search for a query: `None` without a usable query embedding or
      when the entity table cannot be read; the `ValueError` of the sparse vector's
      post-processing (raised in both modes, since the sparse vector is built first);
      otherwise the hits of the configured backend. */
  function Searched(cfg: Settings, p: Primitives, rows: seq<Row>, project: string, topK: int,
                    calls: SearchCalls, skipUnreadable: bool): Outcome<Option<seq<Hit>>>
  {
    if !Usable(calls.embedding) then Returned(None)
    else if SparseThrows(calls.sparseResponse) then Threw
    else if IsVectorDbEnabled(cfg) then Returned(Some(HybridHits(cfg, calls.denseMatches, calls.sparseMatches, topK, p.log)))
    else if !calls.dbOk then Returned(None)
    else Returned(Some(CosineHits(rows, project, calls.embedding.value, p.sqrt, topK, skipUnreadable)))
  }

  // ---------------------------------------------------------------- the methods

  /** The loop that formats the fused candidates. */
  method FormatHits(cs: seq<Candidate>) returns (hits: seq<Hit>)
    ensures hits == Hits(cs)
  {
    hits := [];
    for k := 0 to |cs|
      invariant |hits| == k
      invariant forall j :: 0 <= j < k ==> hits[j] == HitOfCandidate(cs[j])
    {
      hits := hits + [HitOfCandidate(cs[k])];
    }
  }

  /** The loop over the rows the project's `SELECT` returns, scoring each one. */
  method ScoreRows(rows: seq<Row>, project: string, q: seq<real>, sqrt: real -> real, skipUnreadable: bool)
    returns (hits: seq<Hit>)
    ensures hits == Scored(ProjectRows(rows, project), q, sqrt, skipUnreadable)
  {
    hits := [];
    assert rows[..0] == [];
    for i := 0 to |rows|
      invariant hits == Scored(ProjectRows(rows[..i], project), q, sqrt, skipUnreadable)
    {
      ScoreStep(rows, i, project, q, sqrt, skipUnreadable);
      if rows[i].project == project && !(skipUnreadable && rows[i].embedding.None?) {
        var s := CosineSimilarity(q, rows[i].embedding.GetOr([]), sqrt);
        assert Hit(DocOfRow(rows[i]), None, None, s) == RowHit(rows[i], q, sqrt);
        hits := hits + [Hit(DocOfRow(rows[i]), None, None, s)];
      }
    }
    assert rows[..|rows|] == rows;
  }

  /** One more row of the table adds its scored result when it is one of the
      project's rows and is not passed over. */
  lemma ScoreStep(rows: seq<Row>, i: nat, project: string, q: seq<real>, sqrt: real -> real, skipUnreadable: bool)
    requires i < |rows|
    ensures Scored(ProjectRows(rows[..i + 1], project), q, sqrt, skipUnreadable)
         == Scored(ProjectRows(rows[..i], project), q, sqrt, skipUnreadable)
            + (if rows[i].project == project && !(skipUnreadable && rows[i].embedding.None?) then [RowHit(rows[i], q, sqrt)] else [])
  {
    assert rows[..i + 1][..i] == rows[..i];
    if rows[i].project == project {
      var pr := ProjectRows(rows[..i], project);
      assert ProjectRows(rows[..i + 1], project) == pr + [rows[i]];
      assert (pr + [rows[i]])[..|pr|] == pr;
    }
  }

  /** The search both entry points share, for the query text `query`. */
  method Search(store: ContextStore, project: string, query: string, topK: int, calls: SearchCalls, skipUnreadable: bool)
    returns (r: Outcome<Option<seq<Hit>>>)
    ensures r == Searched(store.settings, store.prims, store.rows, project, topK, calls, skipUnreadable)
  {
    if !Usable(calls.embedding) {
      return Returned(None);
    }
    var sparseQuery := GenerateSparseVector(query, calls.sparseResponse, store.prims);
    if sparseQuery.Raised? {
      return Threw;
    }
    var cfg := store.settings;
    if IsVectorDbEnabled(cfg) {
      var merged := MergeHybridResults(calls.denseMatches.GetOr([]), calls.sparseMatches.GetOr([]), CandidateK(cfg),
                                       store.prims.log, DenseWeight(cfg), SparseWeight(cfg));
      merged := Slice(merged, topK);
      var hits := FormatHits(merged);
      return Returned(Some(hits));
    }
    if !calls.dbOk {
      return Returned(None);
    }
    var hits := ScoreRows(store.rows, project, calls.embedding.value, store.prims.sqrt, skipUnreadable);
    hits := SortDesc(hits, Score);
    return Returned(Some(Slice(hits, topK)));
  }

  /** `getRelevantDocuments($projectIdentifier, $queryArray, $topK)`. */
  method GetRelevantDocuments(store: ContextStore, project: string, conversation: Option<seq<Turn>>, topK: int, calls: SearchCalls)
    returns (r: Outcome<Option<seq<Hit>>>)
    ensures LastUserQuery(conversation).None? ==> r == Returned(None)
    ensures LastUserQuery(conversation).Some? ==> r == Searched(store.settings, store.prims, store.rows, project, topK, calls, false)
  {
    var query := LastUserQuery(conversation);
    if query.None? {
      return Returned(None);
    }
    r := Search(store, project, query.value, topK, calls, false);
  }

  /** `debugSearchContext($projectIdentifier, $query, $topK)`: the same search for a
      plain query, with `[]` where the other returns `null`. */
  method DebugSearchContext(store: ContextStore, project: string, query: string, topK: int, calls: SearchCalls)
    returns (r: Outcome<seq<Hit>>)
    ensures r == match Searched(store.settings, store.prims, store.rows, project, topK, calls, true)
                 case Threw => Threw
                 case Returned(found) => Returned(found.GetOr([]))
  {
    var s := Search(store, project, query, topK, calls, true);
    if s.Threw? {
      return Threw;
    }
    return Returned(s.value.GetOr([]));
  }

  // ---------------------------------------------------------------- properties

  /** The vector path returns at most `topK` and at most `hybrid_candidate_k` hits, and
      fewer only when the two lists have fewer distinct ids. */
  lemma HybridHitsLength(cfg: Settings, dense: Option<seq<Match>>, sparse: Option<seq<Match>>, topK: int, log: real -> real)
    requires topK >= 0 && CandidateK(cfg) >= 0
    ensures |HybridHits(cfg, dense, sparse, topK, log)| == Min(topK, Min(CandidateK(cfg), |UnionIds(dense.GetOr([]), sparse.GetOr([]))|))
  {
    MergedLength(dense.GetOr([]), sparse.GetOr([]), CandidateK(cfg), log, DenseWeight(cfg), SparseWeight(cfg));
  }

  /** The vector path ranks by non-increasing similarity, holds each id once, only ids
      the two queries returned, and the similarity of each hit is the weighted sum of
      its dense and sparse scores. */
  lemma HybridHitsRanked(cfg: Settings, dense: Option<seq<Match>>, sparse: Option<seq<Match>>, topK: int, log: real -> real)
    ensures var hits := HybridHits(cfg, dense, sparse, topK, log);
            && SortedDesc(hits, Score)
            && (forall i, j :: 0 <= i < j < |hits| ==> hits[i].doc.id != hits[j].doc.id)
            && (forall k :: 0 <= k < |hits| ==> InEither(dense.GetOr([]), sparse.GetOr([]), hits[k].doc.id))
            && (forall k :: 0 <= k < |hits| ==>
                  (hits[k].dense.Some? && hits[k].sparse.Some?
                   && hits[k].similarity == Blend(DenseWeight(cfg), hits[k].dense.value, SparseWeight(cfg), hits[k].sparse.value)))
  {
    var d, s := dense.GetOr([]), sparse.GetOr([]);
    var wd, ws := DenseWeight(cfg), SparseWeight(cfg);
    var m := Merged(d, s, CandidateK(cfg), log, wd, ws);
    var c := Slice(m, topK);
    var hits := Hits(c);
    MergedOrder(d, s, CandidateK(cfg), log, wd, ws);
    MergedIds(d, s, CandidateK(cfg), log, wd, ws);
    assert c == m[..|c|];
    forall i, j | 0 <= i < j < |hits| ensures Score(hits[i]) >= Score(hits[j]) {
      assert HybridScore(m[i]) >= HybridScore(m[j]);
    }
    forall k | 0 <= k < |hits|
      ensures hits[k].similarity == Blend(wd, hits[k].dense.value, ws, hits[k].sparse.value)
    {
      assert m[k] == SortDesc(Fused(d, s, log, wd, ws), HybridScore)[k];
      SortedCandidate(d, s, log, wd, ws, k);
      FuseScores(d, s, m[k].record.id, log, wd, ws);
    }
  }

  /** Every scored row is a row of the list, scored against the query, and, when
      unreadable rows are passed over, one with a readable embedding. */
  lemma {:induction false} ScoredRows(rs: seq<Row>, q: seq<real>, sqrt: real -> real, skipUnreadable: bool)
    ensures forall h :: h in Scored(rs, q, sqrt, skipUnreadable) ==>
              exists r :: r in rs && h == RowHit(r, q, sqrt) && (skipUnreadable ==> r.embedding.Some?)
  {
    if rs != [] {
      var p := rs[..|rs| - 1];
      ScoredRows(p, q, sqrt, skipUnreadable);
      forall h | h in Scored(rs, q, sqrt, skipUnreadable)
        ensures exists r :: r in rs && h == RowHit(r, q, sqrt) && (skipUnreadable ==> r.embedding.Some?)
      {
        if h in Scored(p, q, sqrt, skipUnreadable) {
          var r :| r in p && h == RowHit(r, q, sqrt) && (skipUnreadable ==> r.embedding.Some?);
          assert r in rs;
        } else {
          assert h == RowHit(rs[|rs| - 1], q, sqrt);
        }
      }
    }
  }

  /** The entity path ranks by non-increasing similarity, and rows with equal
      similarity keep their table order. */
  lemma CosineHitsOrdered(rows: seq<Row>, project: string, q: seq<real>, sqrt: real -> real, topK: int, skipUnreadable: bool)
    ensures var hits := CosineHits(rows, project, q, sqrt, topK, skipUnreadable);
            var scored := Scored(ProjectRows(rows, project), q, sqrt, skipUnreadable);
            && SortedDesc(hits, Score)
            && (forall v :: |Tier(hits, Score, v)| <= |Tier(scored, Score, v)|
                  && Tier(hits, Score, v) == Tier(scored, Score, v)[..|Tier(hits, Score, v)|])
  {
    var scored := Scored(ProjectRows(rows, project), q, sqrt, skipUnreadable);
    var s := SortDesc(scored, Score);
    var n := SliceLength(|s|, topK);
    SortDescSpec(scored, Score);
    SortedPrefix(s, n, Score);
    forall v ensures |Tier(s[..n], Score, v)| <= |Tier(scored, Score, v)|
               && Tier(s[..n], Score, v) == Tier(scored, Score, v)[..|Tier(s[..n], Score, v)|] {
      TierOfPrefix(s, n, Score, v);
    }
  }

  /** Every hit of the entity path is a row of the project scored against the query
      (in `debugSearchContext`, one with a readable embedding). */
  lemma CosineHitsRows(rows: seq<Row>, project: string, q: seq<real>, sqrt: real -> real, topK: int, skipUnreadable: bool)
    ensures forall h :: h in CosineHits(rows, project, q, sqrt, topK, skipUnreadable) ==>
              exists r :: r in rows && r.project == project && h == RowHit(r, q, sqrt) && (skipUnreadable ==> r.embedding.Some?)
  {
    var pr := ProjectRows(rows, project);
    var scored := Scored(pr, q, sqrt, skipUnreadable);
    var s := SortDesc(scored, Score);
    var hits := CosineHits(rows, project, q, sqrt, topK, skipUnreadable);
    ScoredRows(pr, q, sqrt, skipUnreadable);
    forall h | h in hits
      ensures exists r :: r in rows && r.project == project && h == RowHit(r, q, sqrt) && (skipUnreadable ==> r.embedding.Some?)
    {
      assert h in s;
      assert h in multiset(s);
      assert h in scored;
      var r :| r in pr && h == RowHit(r, q, sqrt) && (skipUnreadable ==> r.embedding.Some?);
    }
  }

  /** The entity path returns `min(topK, n)` hits, `n` the number of the project's
      (readable) rows, and with a large enough `topK` every one of them. */
  lemma CosineHitsComplete(rows: seq<Row>, project: string, q: seq<real>, sqrt: real -> real, topK: int, skipUnreadable: bool)
    requires topK >= 0
    ensures var hits := CosineHits(rows, project, q, sqrt, topK, skipUnreadable);
            var scored := Scored(ProjectRows(rows, project), q, sqrt, skipUnreadable);
            && |hits| == Min(topK, |scored|)
            && (!skipUnreadable ==> |scored| == |ProjectRows(rows, project)|)
            && (topK >= |scored| ==> multiset(hits) == multiset(scored))
            && (topK >= |scored| ==>
                  forall r :: r in rows && r.project == project && (skipUnreadable ==> r.embedding.Some?) ==> RowHit(r, q, sqrt) in hits)
  {
    var scored := Scored(ProjectRows(rows, project), q, sqrt, skipUnreadable);
    var hits := CosineHits(rows, project, q, sqrt, topK, skipUnreadable);
    if topK >= |scored| {
      SortedCutAll(scored, Score, topK);
      ProjectRowsScored(rows, project, q, sqrt, skipUnreadable);
    }
  }

  /** Every row of the project (with a readable embedding, when unreadable rows are
      passed over) has its scored result among the scored rows. */
  lemma ProjectRowsScored(rows: seq<Row>, project: string, q: seq<real>, sqrt: real -> real, skipUnreadable: bool)
    ensures forall r :: r in rows && r.project == project && (skipUnreadable ==> r.embedding.Some?) ==>
              RowHit(r, q, sqrt) in Scored(ProjectRows(rows, project), q, sqrt, skipUnreadable)
  {
    var pr := ProjectRows(rows, project);
    forall r | r in rows && r.project == project && (skipUnreadable ==> r.embedding.Some?)
      ensures RowHit(r, q, sqrt) in Scored(pr, q, sqrt, skipUnreadable)
    {
      var k :| 0 <= k < |pr| && pr[k] == r;
    }
  }

  /** The cut to `topK` keeps the most similar rows: a scored row of the project
      that is cut off is at most as similar to the query as every hit returned. */
  lemma CosineHitsTopK(rows: seq<Row>, project: string, q: seq<real>, sqrt: real -> real, topK: int, skipUnreadable: bool)
    ensures var hits := CosineHits(rows, project, q, sqrt, topK, skipUnreadable);
            var scored := Scored(ProjectRows(rows, project), q, sqrt, skipUnreadable);
            forall h, x :: h in scored && h !in hits && x in hits ==> h.similarity <= x.similarity
  {
    var scored := Scored(ProjectRows(rows, project), q, sqrt, skipUnreadable);
    var hits := CosineHits(rows, project, q, sqrt, topK, skipUnreadable);
    assert hits == Slice(SortDesc(scored, Score), topK);
    SortedCutKeepsBest(scored, Score, topK);
    forall h, x | h in scored && h !in hits && x in hits ensures h.similarity <= x.similarity {
      assert Score(h) <= Score(x);
    }
  }

  /** A row whose stored embedding does not decode to an array scores 0 in
      `getRelevantDocuments`, whatever the query. */
  lemma UnreadableScoresZero(r: Row, q: seq<real>, sqrt: real -> real)
    requires SqrtLaw(sqrt)
    requires r.embedding.None?
    ensures RowHit(r, q, sqrt).similarity == 0.0
  {
    ZeroVectorSimilarity(q, [], sqrt);
  }
}
