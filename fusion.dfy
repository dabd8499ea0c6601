/** `mergeHybridResults`: weighted-sum fusion of a dense (semantic) and a
    sparse (keyword) match list into one ranked candidate list. */
module Fusion {
  import opened Wrappers
  import opened Seqs
  import opened Sorting

  /** One entry of a query response's `matches`: the document id, the index's score and
      the stored metadata. */
  datatype Match = Match(id: string, score: real, metadata: map<string, string>)

  /** A fused result: the chosen match record with the three scores the fusion adds
      (`dense_score`, `sparse_score`, `hybrid_score`; `similarity` repeats the last). */
  datatype Candidate = Candidate(record: Match, denseScore: real, sparseScore: real, hybridScore: real)

  function Ids(ms: seq<Match>): (r: seq<string>)
    ensures |r| == |ms|
    ensures forall k :: 0 <= k < |ms| ==> r[k] == ms[k].id
  {
    seq(|ms|, k requires 0 <= k < |ms| => ms[k].id)
  }

  /** The match that a loop overwriting its variable on every id hit ends with. */
  function LastMatch(ms: seq<Match>, id: string): (r: Option<Match>)
    ensures r.None? <==> id !in Ids(ms)
    ensures r.Some? ==> r.value.id == id && r.value in ms
  {
    if ms == [] then None
    else
      var p := ms[..|ms| - 1];
      assert Ids(ms) == Ids(p) + [ms[|ms| - 1].id];
      if ms[|ms| - 1].id == id then Some(ms[|ms| - 1]) else LastMatch(p, id)
  }

  lemma LastMatchSnoc(ms: seq<Match>, m: Match, id: string)
    ensures LastMatch(ms + [m], id) == if m.id == id then Some(m) else LastMatch(ms, id)
  {
    assert (ms + [m])[..|ms|] == ms;
  }

  /** `LastMatch` is the last occurrence: no later match has the id. */
  lemma {:induction false} LastMatchIsLast(ms: seq<Match>, id: string)
    requires id in Ids(ms)
    ensures exists k :: 0 <= k < |ms| && ms[k] == LastMatch(ms, id).value && forall j :: k < j < |ms| ==> ms[j].id != id
  {
    var n := |ms| - 1;
    var p := ms[..n];
    if ms[n].id != id {
      assert Ids(ms) == Ids(p) + [ms[n].id];
      LastMatchIsLast(p, id);
      var k :| 0 <= k < |p| && p[k] == LastMatch(p, id).value && forall j :: k < j < |p| ==> p[j].id != id;
      assert ms[k] == LastMatch(ms, id).value;
    } else {
      assert ms[n] == LastMatch(ms, id).value;
    }
  }

  /** `$denseMap[$id] ?? 0`. */
  function DenseScore(dense: seq<Match>, id: string): real {
    match LastMatch(dense, id)
    case Some(m) => m.score
    case None => 0.0
  }

  /** `$sparseMap[$id] ?? 0`, where the map holds `log(1 + score)`. */
  function SparseScore(sparse: seq<Match>, id: string, log: real -> real): real {
    match LastMatch(sparse, id)
    case Some(m) => log(1.0 + m.score)
    case None => 0.0
  }

  ghost predicate InEither(dense: seq<Match>, sparse: seq<Match>, id: string) {
    id in Ids(dense) || id in Ids(sparse)
  }

  /** `$metaDense ?? $metaSparse`. */
  function Record(dense: seq<Match>, sparse: seq<Match>, id: string): Match
    requires InEither(dense, sparse, id)
  {
    match LastMatch(dense, id)
    case Some(m) => m
    case None => LastMatch(sparse, id).value
  }

  /** `($wDense * $d) + ($wSparse * $s)`. */
  function Blend(wDense: real, d: real, wSparse: real, s: real): real {
    wDense * d + wSparse * s
  }

  /** The candidate the fusion builds for `id`. */
  function Fuse(dense: seq<Match>, sparse: seq<Match>, id: string, log: real -> real, wDense: real, wSparse: real): Candidate
    requires InEither(dense, sparse, id)
  {
    var d := DenseScore(dense, id);
    var s := SparseScore(sparse, id, log);
    Candidate(Record(dense, sparse, id), d, s, Blend(wDense, d, wSparse, s))
  }

  /** `array_unique(array_merge(array_keys($denseMap), array_keys($sparseMap)))`. */
  function UnionIds(dense: seq<Match>, sparse: seq<Match>): seq<string> {
    Dedup(Dedup(Ids(dense)) + Dedup(Ids(sparse)))
  }

  function FuseAll(dense: seq<Match>, sparse: seq<Match>, ids: seq<string>, log: real -> real, wDense: real, wSparse: real): (r: seq<Candidate>)
    requires forall k :: 0 <= k < |ids| ==> InEither(dense, sparse, ids[k])
    ensures |r| == |ids|
    ensures forall k :: 0 <= k < |ids| ==> r[k] == Fuse(dense, sparse, ids[k], log, wDense, wSparse)
  {
    seq(|ids|, k requires 0 <= k < |ids| => Fuse(dense, sparse, ids[k], log, wDense, wSparse))
  }

  function HybridScore(c: Candidate): real {
    c.hybridScore
  }

  lemma UnionMembers(dense: seq<Match>, sparse: seq<Match>)
    ensures forall id :: id in UnionIds(dense, sparse) <==> InEither(dense, sparse, id)
  {
  }

  /** The fused list before sorting: one candidate per id of either list, dense ids first. */
  function Fused(dense: seq<Match>, sparse: seq<Match>, log: real -> real, wDense: real, wSparse: real): seq<Candidate> {
    UnionMembers(dense, sparse);
    FuseAll(dense, sparse, UnionIds(dense, sparse), log, wDense, wSparse)
  }

  /** What `mergeHybridResults` returns: the fused list, stably sorted by descending
      hybrid score, cut to `topK` by `array_slice`. */
  function Merged(dense: seq<Match>, sparse: seq<Match>, topK: int, log: real -> real, wDense: real, wSparse: real): seq<Candidate> {
    Slice(SortDesc(Fused(dense, sparse, log, wDense, wSparse), HybridScore), topK)
  }

  // ---------------------------------------------------------------- the method

  /** The metadata loops `foreach (... as $m) if ($m['id'] === $id) $meta = $m;`. */
  method FindLast(ms: seq<Match>, id: string) returns (r: Option<Match>)
    ensures r == LastMatch(ms, id)
  {
    r := None;
    var j := 0;
    while j < |ms|
      invariant 0 <= j <= |ms|
      invariant r == LastMatch(ms[..j], id)
    {
      assert ms[..j + 1][..j] == ms[..j];
      if ms[j].id == id {
        r := Some(ms[j]);
      }
      j := j + 1;
    }
    assert ms[..j] == ms;
  }

  /** What the map-building loop holds after the matches `seen`. */
  ghost predicate ScoreState(seen: seq<Match>, scores: map<string, real>, keys: seq<string>, logScale: bool, log: real -> real) {
    && keys == Dedup(Ids(seen))
    && (forall id :: id in scores <==> id in keys)
    && (forall id :: id in scores ==> LastMatch(seen, id).Some? && scores[id] == Scale(LastMatch(seen, id).value.score, logScale, log))
  }

  lemma ScoreKeysStep(seen: seq<Match>, m: Match, keys: seq<string>)
    requires keys == Dedup(Ids(seen))
    ensures Dedup(Ids(seen + [m])) == if m.id in keys then keys else keys + [m.id]
  {
    assert Ids(seen + [m]) == Ids(seen) + [m.id];
    DedupSnoc(Ids(seen), m.id);
  }

  lemma ScoreValuesStep(seen: seq<Match>, m: Match, scores: map<string, real>, logScale: bool, log: real -> real)
    requires forall id :: id in scores ==> LastMatch(seen, id).Some? && scores[id] == Scale(LastMatch(seen, id).value.score, logScale, log)
    ensures var s := scores[m.id := Scale(m.score, logScale, log)];
      forall id :: id in s ==> LastMatch(seen + [m], id).Some? && s[id] == Scale(LastMatch(seen + [m], id).value.score, logScale, log)
  {
    var s := scores[m.id := Scale(m.score, logScale, log)];
    forall id | id in s ensures LastMatch(seen + [m], id).Some? && s[id] == Scale(LastMatch(seen + [m], id).value.score, logScale, log) {
      LastMatchSnoc(seen, m, id);
    }
  }

  /** One iteration of the map-building loop keeps `ScoreState`. */
  lemma ScoreStep(seen: seq<Match>, m: Match, scores: map<string, real>, keys: seq<string>, logScale: bool, log: real -> real)
    requires ScoreState(seen, scores, keys, logScale, log)
    ensures ScoreState(seen + [m], scores[m.id := Scale(m.score, logScale, log)],
                       if m.id in keys then keys else keys + [m.id], logScale, log)
  {
    ScoreKeysStep(seen, m, keys);
    ScoreValuesStep(seen, m, scores, logScale, log);
    ScoreStateIntro(seen + [m], scores[m.id := Scale(m.score, logScale, log)],
                    if m.id in keys then keys else keys + [m.id], logScale, log);
  }

  lemma ScoreStateIntro(seen: seq<Match>, scores: map<string, real>, keys: seq<string>, logScale: bool, log: real -> real)
    requires keys == Dedup(Ids(seen))
    requires forall id :: id in scores <==> id in keys
    requires forall id :: id in scores ==> LastMatch(seen, id).Some? && scores[id] == Scale(LastMatch(seen, id).value.score, logScale, log)
    ensures ScoreState(seen, scores, keys, logScale, log)
  {
  }

  /** The two map-building loops: `$denseMap[$m['id']] = f($m['score'])`, with the key
      order of the PHP array. */
  method ScoreMap(ms: seq<Match>, logScale: bool, log: real -> real) returns (scores: map<string, real>, keys: seq<string>)
    ensures keys == Dedup(Ids(ms))
    ensures forall id :: id in scores <==> LastMatch(ms, id).Some?
    ensures forall id :: id in scores ==> scores[id] == Scale(LastMatch(ms, id).value.score, logScale, log)
  {
    scores, keys := map[], [];
    var i := 0;
    while i < |ms|
      invariant 0 <= i <= |ms|
      invariant ScoreState(ms[..i], scores, keys, logScale, log)
    {
      var m := ms[i];
      TakeSnoc(ms, i);
      ScoreStep(ms[..i], m, scores, keys, logScale, log);
      scores := scores[m.id := Scale(m.score, logScale, log)];
      if m.id !in keys {
        keys := keys + [m.id];
      }
      i := i + 1;
    }
    assert ms[..i] == ms;
    forall id ensures id in scores <==> LastMatch(ms, id).Some? {
      assert id in keys <==> id in Ids(ms);
    }
  }

  /** The score a map stores: the raw dense score, or `log(1 + score)` for the sparse list. */
  function Scale(score: real, logScale: bool, log: real -> real): real {
    if logScale then log(1.0 + score) else score
  }

  /** The body of the fusion loop for one id, given the two score maps. */
  method FuseOne(dense: seq<Match>, sparse: seq<Match>, id: string, denseMap: map<string, real>, sparseMap: map<string, real>,
                 log: real -> real, wDense: real, wSparse: real) returns (c: Candidate)
    requires InEither(dense, sparse, id)
    requires id in denseMap <==> LastMatch(dense, id).Some?
    requires id in denseMap ==> denseMap[id] == Scale(LastMatch(dense, id).value.score, false, log)
    requires id in sparseMap <==> LastMatch(sparse, id).Some?
    requires id in sparseMap ==> sparseMap[id] == Scale(LastMatch(sparse, id).value.score, true, log)
    ensures c == Fuse(dense, sparse, id, log, wDense, wSparse)
  {
    var d := if id in denseMap then denseMap[id] else 0.0;
    var s := if id in sparseMap then sparseMap[id] else 0.0;
    var hybrid := Blend(wDense, d, wSparse, s);
    var metaDense := FindLast(dense, id);
    var metaSparse := FindLast(sparse, id);
    var chosen := if metaDense.Some? then metaDense.value else metaSparse.value;
    c := Candidate(chosen, d, s, hybrid);
  }

  /** The fusion loop `foreach ($allIds as $id)` over the given ids. */
  method FuseLoop(dense: seq<Match>, sparse: seq<Match>, ids: seq<string>, denseMap: map<string, real>, sparseMap: map<string, real>,
                  log: real -> real, wDense: real, wSparse: real) returns (fused: seq<Candidate>)
    requires forall k :: 0 <= k < |ids| ==> InEither(dense, sparse, ids[k])
    requires forall id :: id in denseMap <==> LastMatch(dense, id).Some?
    requires forall id :: id in denseMap ==> denseMap[id] == Scale(LastMatch(dense, id).value.score, false, log)
    requires forall id :: id in sparseMap <==> LastMatch(sparse, id).Some?
    requires forall id :: id in sparseMap ==> sparseMap[id] == Scale(LastMatch(sparse, id).value.score, true, log)
    ensures fused == FuseAll(dense, sparse, ids, log, wDense, wSparse)
  {
    fused := [];
    var k := 0;
    while k < |ids|
      invariant 0 <= k <= |ids|
      invariant |fused| == k
      invariant forall j :: 0 <= j < k ==> fused[j] == Fuse(dense, sparse, ids[j], log, wDense, wSparse)
    {
      var c := FuseOne(dense, sparse, ids[k], denseMap, sparseMap, log, wDense, wSparse);
      fused := fused + [c];
      k := k + 1;
    }
  }

  /** `mergeHybridResults($dense, $sparse, $topK)` with the two weights read from the
      settings and the logarithm given. */
  method MergeHybridResults(dense: seq<Match>, sparse: seq<Match>, topK: int, log: real -> real, wDense: real, wSparse: real)
    returns (merged: seq<Candidate>)
    ensures merged == Merged(dense, sparse, topK, log, wDense, wSparse)
  {
    var denseMap, denseKeys := ScoreMap(dense, false, log);
    var sparseMap, sparseKeys := ScoreMap(sparse, true, log);
    var allIds := Dedup(denseKeys + sparseKeys);
    UnionMembers(dense, sparse);
    merged := FuseLoop(dense, sparse, allIds, denseMap, sparseMap, log, wDense, wSparse);
    merged := SortDesc(merged, HybridScore);
    merged := Slice(merged, topK);
  }

  // ---------------------------------------------------------------- properties

  lemma RecordId(dense: seq<Match>, sparse: seq<Match>, id: string)
    requires InEither(dense, sparse, id)
    ensures Record(dense, sparse, id).id == id
  {
    if LastMatch(dense, id).None? {
      assert id in Ids(sparse);
    }
  }

  lemma FusedIds(dense: seq<Match>, sparse: seq<Match>, log: real -> real, wDense: real, wSparse: real)
    ensures var f := Fused(dense, sparse, log, wDense, wSparse);
      forall k :: 0 <= k < |f| ==> f[k].record.id == UnionIds(dense, sparse)[k]
  {
    var f := Fused(dense, sparse, log, wDense, wSparse);
    var u := UnionIds(dense, sparse);
    UnionMembers(dense, sparse);
    forall k | 0 <= k < |f| ensures f[k].record.id == u[k] {
      assert f[k] == Fuse(dense, sparse, u[k], log, wDense, wSparse);
      RecordId(dense, sparse, u[k]);
    }
  }

  /** The union lists the dense ids first, in first-seen order, then the ids only the
      sparse list has; every id of either list occurs once. */
  lemma UnionOrder(dense: seq<Match>, sparse: seq<Match>)
    ensures Distinct(UnionIds(dense, sparse))
    ensures |Dedup(Ids(dense))| <= |UnionIds(dense, sparse)|
    ensures UnionIds(dense, sparse)[..|Dedup(Ids(dense))|] == Dedup(Ids(dense))
    ensures forall id :: id in UnionIds(dense, sparse) <==> InEither(dense, sparse, id)
    ensures UnionIds(dense, sparse) == Dedup(Ids(dense)) + Minus(Dedup(Ids(sparse)), Ids(dense))
  {
    var a := Dedup(Ids(dense));
    DedupPrefix(a, Dedup(Ids(sparse)));
    DedupOfDistinct(a);
    DedupJoin(a, Dedup(Ids(sparse)));
    assert Minus(Dedup(Ids(sparse)), a) == Minus(Dedup(Ids(sparse)), Ids(dense)) by {
      MinusSameMembers(Dedup(Ids(sparse)), a, Ids(dense));
    }
  }

  /** The result has `array_slice`'s length: `min(topK, |union|)` for a non-negative `topK`. */
  lemma MergedLength(dense: seq<Match>, sparse: seq<Match>, topK: int, log: real -> real, wDense: real, wSparse: real)
    ensures |Merged(dense, sparse, topK, log, wDense, wSparse)| == SliceLength(|UnionIds(dense, sparse)|, topK)
    ensures topK >= 0 ==> |Merged(dense, sparse, topK, log, wDense, wSparse)| == Min(topK, |UnionIds(dense, sparse)|)
  {
  }

  /** Every candidate of the sorted list is the fusion of an id of either list. */
  lemma SortedCandidate(dense: seq<Match>, sparse: seq<Match>, log: real -> real, wDense: real, wSparse: real, k: nat)
    requires k < |Fused(dense, sparse, log, wDense, wSparse)|
    ensures var c := SortDesc(Fused(dense, sparse, log, wDense, wSparse), HybridScore)[k];
      InEither(dense, sparse, c.record.id) && c == Fuse(dense, sparse, c.record.id, log, wDense, wSparse)
  {
    var f := Fused(dense, sparse, log, wDense, wSparse);
    var u := UnionIds(dense, sparse);
    var c := SortDesc(f, HybridScore)[k];
    UnionMembers(dense, sparse);
    assert c in multiset(f);
    var j :| 0 <= j < |f| && f[j] == c;
    var id := u[j];
    assert InEither(dense, sparse, id);
    assert c == Fuse(dense, sparse, id, log, wDense, wSparse);
    RecordId(dense, sparse, id);
  }

  /** The fused list holds no candidate twice, so neither does its sorted form. */
  lemma SortedDistinct(dense: seq<Match>, sparse: seq<Match>, log: real -> real, wDense: real, wSparse: real)
    ensures Distinct(SortDesc(Fused(dense, sparse, log, wDense, wSparse), HybridScore))
  {
    var u := UnionIds(dense, sparse);
    var f := Fused(dense, sparse, log, wDense, wSparse);
    UnionOrder(dense, sparse);
    FusedIds(dense, sparse, log, wDense, wSparse);
    assert Distinct(f) by {
      forall i, j | 0 <= i < j < |f| ensures f[i] != f[j] {
        assert f[i].record.id == u[i] && f[j].record.id == u[j];
      }
    }
    SortDescDistinct(f, HybridScore);
  }

  /** Each id of either list appears at most once in the result, and nothing else does. */
  lemma MergedIds(dense: seq<Match>, sparse: seq<Match>, topK: int, log: real -> real, wDense: real, wSparse: real)
    ensures var r := Merged(dense, sparse, topK, log, wDense, wSparse);
      (forall i, j :: 0 <= i < j < |r| ==> r[i].record.id != r[j].record.id)
      && (forall k :: 0 <= k < |r| ==> InEither(dense, sparse, r[k].record.id))
  {
    var s := SortDesc(Fused(dense, sparse, log, wDense, wSparse), HybridScore);
    var r := Merged(dense, sparse, topK, log, wDense, wSparse);
    SortedDistinct(dense, sparse, log, wDense, wSparse);
    assert r == s[..|r|];
    forall k | 0 <= k < |r| ensures InEither(dense, sparse, r[k].record.id) {
      SortedCandidate(dense, sparse, log, wDense, wSparse, k);
    }
    forall i, j | 0 <= i < j < |r| ensures r[i].record.id != r[j].record.id {
      assert s[i] != s[j];
      SortedCandidate(dense, sparse, log, wDense, wSparse, i);
      SortedCandidate(dense, sparse, log, wDense, wSparse, j);
    }
  }

  /** With `topK` at least the size of the union, every id of either list is in the result. */
  lemma MergedComplete(dense: seq<Match>, sparse: seq<Match>, topK: int, log: real -> real, wDense: real, wSparse: real)
    requires topK >= |UnionIds(dense, sparse)|
    ensures var r := Merged(dense, sparse, topK, log, wDense, wSparse);
      forall id :: InEither(dense, sparse, id) ==> exists k :: 0 <= k < |r| && r[k].record.id == id
  {
    var u := UnionIds(dense, sparse);
    var f := Fused(dense, sparse, log, wDense, wSparse);
    var s := SortDesc(f, HybridScore);
    var r := Merged(dense, sparse, topK, log, wDense, wSparse);
    UnionMembers(dense, sparse);
    FusedIds(dense, sparse, log, wDense, wSparse);
    assert r == s;
    forall id | InEither(dense, sparse, id) ensures exists k :: 0 <= k < |r| && r[k].record.id == id {
      var j :| 0 <= j < |u| && u[j] == id;
      assert f[j] in multiset(s);
      var k :| 0 <= k < |s| && s[k] == f[j];
      assert r[k].record.id == id;
    }
  }

  /** The result is ordered by non-increasing hybrid score, and candidates with equal
      scores keep their order in the union (dense ids first): every group of equal
      scores is a prefix of that group in the fused list. */
  lemma MergedOrder(dense: seq<Match>, sparse: seq<Match>, topK: int, log: real -> real, wDense: real, wSparse: real)
    ensures var r := Merged(dense, sparse, topK, log, wDense, wSparse);
      SortedDesc(r, HybridScore)
      && forall v :: |Tier(r, HybridScore, v)| <= |Tier(Fused(dense, sparse, log, wDense, wSparse), HybridScore, v)|
           && Tier(r, HybridScore, v) == Tier(Fused(dense, sparse, log, wDense, wSparse), HybridScore, v)[..|Tier(r, HybridScore, v)|]
  {
    var f := Fused(dense, sparse, log, wDense, wSparse);
    var s := SortDesc(f, HybridScore);
    var n := SliceLength(|s|, topK);
    SortDescSpec(f, HybridScore);
    SortedPrefix(s, n, HybridScore);
    forall v ensures |Tier(s[..n], HybridScore, v)| <= |Tier(f, HybridScore, v)|
               && Tier(s[..n], HybridScore, v) == Tier(f, HybridScore, v)[..|Tier(s[..n], HybridScore, v)|] {
      TierOfPrefix(s, n, HybridScore, v);
    }
  }

  /** The cut to `topK` keeps the best candidates: one that is cut off has a hybrid
      score at most that of every candidate returned. */
  lemma MergedTopK(dense: seq<Match>, sparse: seq<Match>, topK: int, log: real -> real, wDense: real, wSparse: real)
    ensures var f := Fused(dense, sparse, log, wDense, wSparse);
      var r := Merged(dense, sparse, topK, log, wDense, wSparse);
      forall c, x :: c in f && c !in r && x in r ==> c.hybridScore <= x.hybridScore
  {
    var f := Fused(dense, sparse, log, wDense, wSparse);
    var r := Merged(dense, sparse, topK, log, wDense, wSparse);
    assert r == Slice(SortDesc(f, HybridScore), topK);
    SortedCutKeepsBest(f, HybridScore, topK);
    forall c, x | c in f && c !in r && x in r ensures c.hybridScore <= x.hybridScore {
      assert HybridScore(c) <= HybridScore(x);
    }
  }

  /** The scores of a candidate: the dense score or 0, `log(1 + sparse score)` or 0,
      and their weighted sum; with repeated ids the last match counts. */
  lemma FuseScores(dense: seq<Match>, sparse: seq<Match>, id: string, log: real -> real, wDense: real, wSparse: real)
    requires InEither(dense, sparse, id)
    ensures var c := Fuse(dense, sparse, id, log, wDense, wSparse);
      && c.hybridScore == Blend(wDense, c.denseScore, wSparse, c.sparseScore)
      && (id !in Ids(dense) ==> c.denseScore == 0.0)
      && (id !in Ids(sparse) ==> c.sparseScore == 0.0)
      && (id in Ids(dense) ==> c.denseScore == LastMatch(dense, id).value.score)
      && (id in Ids(sparse) ==> c.sparseScore == log(1.0 + LastMatch(sparse, id).value.score))
  {
  }

  /** The record of a candidate: the dense match whenever the dense list has the id,
      the sparse match otherwise, and in either list the last match with the id. */
  lemma FuseRecord(dense: seq<Match>, sparse: seq<Match>, id: string, log: real -> real, wDense: real, wSparse: real)
    requires InEither(dense, sparse, id)
    ensures var c := Fuse(dense, sparse, id, log, wDense, wSparse);
      && c.record.id == id
      && (id in Ids(dense) ==> c.record == LastMatch(dense, id).value)
      && (id !in Ids(dense) ==> c.record == LastMatch(sparse, id).value)
      && (c.record in dense || c.record in sparse)
  {
    RecordId(dense, sparse, id);
  }

  /** Without sparse matches the ranking is the dense one scaled by the dense weight. */
  lemma DenseOnly(dense: seq<Match>, topK: int, log: real -> real, wDense: real, wSparse: real)
    ensures forall c :: c in Merged(dense, [], topK, log, wDense, wSparse) ==>
      c.record in dense && c.sparseScore == 0.0 && c.hybridScore == Blend(wDense, c.denseScore, wSparse, 0.0)
  {
    var r := Merged(dense, [], topK, log, wDense, wSparse);
    forall c | c in r ensures c.record in dense && c.sparseScore == 0.0 && c.hybridScore == Blend(wDense, c.denseScore, wSparse, 0.0) {
      var k :| 0 <= k < |r| && r[k] == c;
      SortedCandidate(dense, [], log, wDense, wSparse, k);
      FuseScores(dense, [], c.record.id, log, wDense, wSparse);
      FuseRecord(dense, [], c.record.id, log, wDense, wSparse);
    }
  }
}
