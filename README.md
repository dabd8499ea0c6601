# RedcapRAG document store and hybrid retrieval, in Dafny

This project models the core of `RedcapRAG.php`, the REDCap external module that turns
documents into a retrieval-augmented-generation context store. The model covers:

- **Ingestion.** `storeDocument` and `checkAndStoreDocument` write a chunk in one of two
  places, chosen by the `use_vectordb` setting:
  - vector mode: a dense record and a sparse record, both under the id
    `sha256(content)`, in the dense (serverless) index and the sparse (pod) index;
  - entity mode: a row of the entity table `generic_contextdb`, deduplicated by
    project and hash.
- **Maintenance.** `deleteContextDocument`, `purgeContextNamespace`,
  `listContextDocuments`, `fetchContextDocument`, and `listUnifiedContextDocs` with
  the serverless-host guard of `listPineconeNamespace`.
- **Retrieval.** `getRelevantDocuments` and `debugSearchContext`:
  - in vector mode they fuse a dense and a sparse match list with
    `mergeHybridResults`;
  - in entity mode they rank the project's rows by `cosineSimilarity`.
- **Sparse embeddings.** `generateSparseVectorFallback` is the local term-frequency
  embedding. The post-processing in `generateSparseVector` clamps the remote response
  to [0, 1] and co-sorts it.

How the PHP is represented:

- The store is a class, `Store.ContextStore`, with a field for each backend: the dense
  index, the sparse index, and the entity table with its next auto-increment id. Its
  methods change those fields.
- The fusion, the fallback and the cosine similarity are methods whose loops are
  proved against specification functions (`Fusion.Merged`, `SparseEmbedding.IsFallbackOf`,
  `Cosine.Similarity`). Lemmas then state the promised properties of those functions.
- Every call to the embedding service, to either index and to the database is a
  parameter giving its outcome: a result, or success or failure as a `bool`.
- The two readings of `time()` and the `date()` of the entity row are parameters.
- `sha256`, `crc32`, `log`, `sqrt` and the Unicode word-character class of `\W` are
  fields of `Config.Primitives`. Every property holds for any implementation of them.
  `sqrt` is constrained by `Config.SqrtLaw` only where a proof needs it.
- PHP built-ins are written out exactly:
  - `array_slice($a, 0, $n)`, including a negative `$n`;
  - `array_unique` keeps first occurrences;
  - `usort` is stable since PHP 8, modelled as a stable insertion sort;
  - `rtrim`, `min`/`max` and `strtolower` (ASCII, as in PHP 8.2).
- PHP truthiness of settings is `Config.Truthy`: null, `""` and `"0"` are false.

Three behaviours of the code are easy to miss, and the model follows the code in each:

- A last turn with empty content is not rejected. The code checks only `isset`, so an
  empty string goes on to the embedding call (`Retrieval.LastUserQuery`).
- Not every provider error is absorbed. A sparse response whose index and value arrays
  differ in size makes `array_multisort` throw a `ValueError`, which no `catch` in
  `generateSparseVector` handles. It propagates out of `storeDocument` and out of both
  search entry points (`SparseEmbedding.SparseThrows`).
- The list operation returns an empty list on serverless hosts, but a missing host
  setting throws a `TypeError` before the guard runs, and a failed request on a pod host
  throws too (`Listing.ListingThrows`).

## Model

| member | source | states |
|---|---|---|
| Seqs.Slice | RedcapRAG.php:229 | `array_slice($a, 0, $len)`: a prefix of the input whose length is `min(len, n)` for `len >= 0` and `max(0, n + len)` for a negative `len` |
| Seqs.Dedup | RedcapRAG.php:309 | `array_unique`: no element twice, exactly the elements of the input, never longer |
| Seqs.DedupJoin | RedcapRAG.php:309 | `array_unique(array_merge($a, $b))` of two lists without repeats is all of `$a`, then the elements of `$b` not in `$a`, in their order in `$b` |
| Sorting.SortDescSpec | RedcapRAG.php:343 | the stable `usort` by descending score: the result is sorted non-increasing, and every group of equal keys keeps its input order |
| Sorting.SortDescDistinct | RedcapRAG.php:343 | sorting a list without repeats gives a list without repeats |
| Sorting.SortedCutAll | RedcapRAG.php:343-344 | an `array_slice` at least as long as the sorted list keeps every element, with its multiplicity |
| Sorting.SortedCutKeepsBest | RedcapRAG.php:343-344 | `usort` by descending key then `array_slice` keeps the best: an element cut off has a key at most that of every element kept |
| Config.RTrimSlash | RedcapRAG.php:479 | `rtrim($host, '/')`: the longest prefix that does not end in `/`; everything removed is `/` |
| Text.Lower | RedcapRAG.php:580 | `strtolower`: same length, each character lowercased on its own |
| Text.DecimalInjective | RedcapRAG.php:1108 | distinct row ids have distinct decimal texts, so a string id in the `WHERE id = ?` clause names at most one row |
| Cosine.CosineSimilarity | RedcapRAG.php:538-560 | the two accumulating loops compute the cosine similarity: the dot product with missing keys in `vec2` as 0, divided by the product of the norms, 0 when either norm is 0 |
| Cosine.ZeroVectorSimilarity | RedcapRAG.php:555-557 | a zero vector on either side gives similarity 0 instead of a division by zero |
| Cosine.SelfSimilarity | RedcapRAG.php:538-560 | a non-zero vector has similarity exactly 1 with itself |
| Cosine.SimilaritySymmetric | RedcapRAG.php:543-550 | counting missing components as 0 makes the similarity symmetric, also for vectors of different lengths |
| Fusion.FindLast | RedcapRAG.php:323-331 | the loop that looks up an id's record finds the last match with that id, or none when the id is absent |
| Fusion.ScoreMap | RedcapRAG.php:294-305 | building `$denseMap` and `$sparseMap` gives keys in first-seen order, exactly the ids of the list, each mapped to the (log-scaled, for the sparse list) score of its last match |
| Fusion.FuseOne | RedcapRAG.php:316-339 | one candidate of the loop is the fusion of the id: its record, its two scores and its weighted sum |
| Fusion.FuseLoop | RedcapRAG.php:315-340 | the `foreach` over the union yields one fused candidate per id, in union order |
| Fusion.MergeHybridResults | RedcapRAG.php:290-347 | the method computes `Merged`: the fusion of the union of ids, stably sorted by descending hybrid score, cut to `topK` |
| Fusion.UnionOrder | RedcapRAG.php:309 | the union has no repeated id and holds exactly the ids of either list: first the dense ids in first-seen order, then the sparse ids the dense list lacks, in sparse first-seen order |
| Fusion.MergedLength | RedcapRAG.php:343-344 | the result has `array_slice`'s length, that is `min(topK, u)` for a non-negative `topK`, `u` the number of ids in the union |
| Fusion.MergedIds | RedcapRAG.php:309-344 | each id occurs at most once in the result, and only ids of the dense or the sparse list occur |
| Fusion.MergedComplete | RedcapRAG.php:309-344 | with `topK` at least the size of the union, every id of either list is in the result, including ids found on one side only |
| Fusion.MergedOrder | RedcapRAG.php:343-344 | the result is sorted by non-increasing hybrid score, and candidates with equal scores keep union order (dense ids first, then sparse-only ids) |
| Fusion.MergedTopK | RedcapRAG.php:343-344 | the cut to `topK` keeps the best candidates: a fused candidate that is not returned has a hybrid score at most that of every returned one |
| Fusion.SortedCandidate | RedcapRAG.php:315-343 | every candidate of the sorted list is the fusion of some id of either list |
| Fusion.SortedDistinct | RedcapRAG.php:343 | the sorted list holds no candidate twice |
| Fusion.FuseScores | RedcapRAG.php:303-320 | `dense_score` is the last dense score or 0, `sparse_score` is `log(1 + raw)` of the last sparse score or 0, and `hybrid_score` is the weighted sum of the two |
| Fusion.FuseRecord | RedcapRAG.php:323-333 | the attached record is the last dense match with the id whenever the dense list has it, otherwise the last sparse match |
| Fusion.DenseOnly | RedcapRAG.php:290-347 | with no sparse matches, every candidate is a dense match, with sparse score 0 and the dense score times the dense weight as hybrid score |
| Fusion.LastMatchIsLast | RedcapRAG.php:295-305 | the match that a repeated id keeps is at a position after which the id does not occur again |
| SparseEmbedding.TermFrequencies | RedcapRAG.php:586-589 | the first loop leaves `$freq` holding exactly the tokens, each with its number of occurrences, keys in first-seen order |
| SparseEmbedding.TermPairs | RedcapRAG.php:597-605 | the second loop builds one pair per distinct term: its `crc32 % 200000` bucket and its weight `count / maxFreq` |
| SparseEmbedding.CombineCollisions | RedcapRAG.php:608-616 | the third loop keeps each bucket once, in first-seen order, with the sum of the weights of the terms in it; the total weight is preserved |
| SparseEmbedding.CoSortSpec | RedcapRAG.php:619 | `array_multisort` by index moves every value with its index, keeps the length and the sum of the values, and orders the indices ascending |
| SparseEmbedding.CoSortDistinct | RedcapRAG.php:619 | with distinct indices, the sorted indices are strictly ascending, are the same set, and each keeps its own value |
| SparseEmbedding.SparseVectorFallback | RedcapRAG.php:578-625 | the local embedding of the lowercased tokens: strictly ascending indices, one per bucket of some token, each with the summed weight of that bucket's terms, equally many values as indices, the values adding up to the total term weight |
| SparseEmbedding.FallbackOfNoWords | RedcapRAG.php:580-583 | text without tokens gives empty `indices` and `values` |
| SparseEmbedding.FallbackOfWords | RedcapRAG.php:580-625 | text with a token gives at least one index |
| SparseEmbedding.FallbackIndexRange | RedcapRAG.php:601 | every index lies in [0, 200000) |
| SparseEmbedding.WeightBounds | RedcapRAG.php:592-598 | every term weight `count / maxFreq` lies in (0, 1] |
| SparseEmbedding.SomeWeightIsOne | RedcapRAG.php:592-598 | a most frequent term has weight exactly 1 |
| SparseEmbedding.FallbackUnique | RedcapRAG.php:578-625 | the fallback's output is determined by the tokens of the text: two vectors meeting its description are equal |
| SparseEmbedding.Clamp | RedcapRAG.php:662 | `min(1.0, max(0.0, $v))` lies in [0, 1] and leaves values already in range unchanged |
| SparseEmbedding.ClampAll | RedcapRAG.php:662 | the `array_map` clamps every value and keeps the length |
| SparseEmbedding.FromResponse | RedcapRAG.php:659-668 | the post-processing throws exactly when the response's index and value arrays differ in length |
| SparseEmbedding.FromResponseSpec | RedcapRAG.php:659-668 | otherwise the result keeps every (index, clamped value) pair, with ascending indices and every value in [0, 1] |
| SparseEmbedding.GenerateSparseVector | RedcapRAG.php:630-680 | a usable response becomes its post-processed form, an unexpected body the empty vector, and a failed request the local fallback of the same text; the only exception is the `ValueError` of mismatched arrays |
| SparseEmbedding.SparseVectorOfUnique | RedcapRAG.php:630-680 | for a given text and response there is one sparse vector |
| SparseEmbedding.FailedRequestSkipsFallback | RedcapRAG.php:675-678 | as written, a failed request raises, where the fallback would have returned a non-empty vector for any text with a word character |
| Hosts.HasInfixSpec | RedcapRAG.php:965 | `/\.svc\./i`, a pattern without metacharacters, on the lowercased host: the host contains `.svc.` at some position |
| Hosts.AnchoredMatchSpec | RedcapRAG.php:965 | `/gcp-.*\.pinecone\.io$/i` holds exactly when `gcp-` is found, followed on the same line by `.pinecone.io` at the end of the subject or before a final newline |
| Hosts.ServerlessSpec | RedcapRAG.php:964-968 | the guard skips a host exactly when its lowercased form contains `.svc.` or matches the GCP pattern |
| Listing.PickIds | RedcapRAG.php:977-984 | the zero-vector query returns `min(n, count)` distinct ids of the namespace, in an order the index chooses |
| Listing.ListNamespace | RedcapRAG.php:963-997 | throws exactly on a missing host setting or when a pod host is unreachable; otherwise nothing for a serverless host or an unknown namespace, else distinct records of the namespace as id, content and source, at most 5000 |
| Listing.AddDense | RedcapRAG.php:940-947 | the first loop maps each dense id, in first-seen order, to its last dense row tagged `dense_only` |
| Listing.AddSparse | RedcapRAG.php:949-958 | the second loop adds each sparse id that is not there yet, with its first sparse row tagged `sparse_only`, after the dense ids |
| Listing.Unify | RedcapRAG.php:934-961 | the two loops compute the unified listing |
| Listing.UnifiedIds | RedcapRAG.php:934-961 | every id of either listing appears exactly once, and no other id does |
| Listing.UnifiedTags | RedcapRAG.php:940-958 | a row is `dense_only` exactly when the dense listing has its id, and is then its last dense row; otherwise it is the first sparse row with the id |
| Listing.UnifiedDenseFirst | RedcapRAG.php:940-960 | the dense ids come first, in the order the dense listing first has them |
| Listing.LastRow | RedcapRAG.php:940-947 | the row the overwriting loop keeps for an id: a row of the listing with that id, or none exactly when the id is absent |
| Listing.LastRowIsLast | RedcapRAG.php:940-947 | that row is the last one with the id: no later row of the listing has it, so the last write to `$map[$row['id']]` wins |
| Listing.FirstRow | RedcapRAG.php:949-958 | the row the `!isset` guard keeps for an id: a row of the listing with that id, or none exactly when the id is absent |
| Listing.FirstRowIsFirst | RedcapRAG.php:949-958 | that row is the first one with the id: no earlier row of the listing has it, so later rows with the id are passed over |
| Listing.UnifiedOf | RedcapRAG.php:940-958 | the entry for an id carries that id |
| Records.Retain | RedcapRAG.php:1107-1111 | a `DELETE ... WHERE project_identifier = ? [AND id = ?]` keeps exactly the rows it does not match |
| Store.FindRow | RedcapRAG.php:1041-1051 | `WHERE project_identifier = ? AND id = ? LIMIT 1` returns a matching row of the table, or none exactly when no row matches |
| Store.ProjectRows | RedcapRAG.php:257-261 | `WHERE project_identifier = ?`: a row is in the result exactly when it is a row of the table with that project |
| Store.StoreKeepsTable | RedcapRAG.php:405-453 | storing keeps the table's guarantees: increasing auto-increment ids, hashes of the contents, one row per project and hash |
| Store.RetainKeepsTable | RedcapRAG.php:1107-1111 | deleting rows keeps those guarantees |
| Store.StoredIsPresent | RedcapRAG.php:366-452 | after a successful store the document is there: under its content hash in both indexes with its content, or as a row of the project |
| Store.StoredMetadataAgree | RedcapRAG.php:372-399 | the dense and the sparse record of a chunk carry the same metadata except the timestamp, and the same timestamp whenever a `dateCreated` is given or both `time()` readings agree |
| Store.StoreAgainSame | RedcapRAG.php:366-401 | in vector mode storing the same chunk again, with the same date and working upserts, leaves both indexes as they were: the upserts by content hash are idempotent |
| Store.UpsertTwice | RedcapRAG.php:380-399 | an upsert of the same record under the same id twice is one upsert |
| Store.StoreOnce | RedcapRAG.php:469-525 | after a document went in, checking and storing it again (with a working existence check) changes nothing |
| Store.StoreOnlyNamespace | RedcapRAG.php:357-458 | a store changes neither another namespace of either index nor another project's rows |
| Store.RemovedIsGone | RedcapRAG.php:1076-1163 | after a successful delete the id (or the whole namespace) is gone from every index whose host is configured, and no matching row is left in the table |
| Store.RemovesOnlyNamespace | RedcapRAG.php:1076-1163 | a delete or purge changes neither another namespace of either index nor another project's rows |
| Store.RetainOtherProject | RedcapRAG.php:1154-1158 | a `DELETE` scoped to one project keeps the rows of every other project, in order |
| Store.NewestIsLatest | RedcapRAG.php:893-899 | `ORDER BY id DESC LIMIT ?` lists the project's rows from the last one back, `min(limit, n)` of them |
| Store.ProjectRowsAscending | RedcapRAG.php:893-899 | the project's rows come in increasing id order, so that listing is newest first |
| Store.OneRowPerId | RedcapRAG.php:1041-1051 | at most one row of a project matches an id string |
| Store.ContextStore.StoreDocument | RedcapRAG.php:357-458 | nothing without an embedding; in vector mode an exception and no write when the sparse vector throws or the dense upsert fails, else the dense record and, unless the sparse upsert fails, the sparse record, both under the content hash; in entity mode a new row unless the project has that hash or the save fails |
| Store.ContextStore.CheckAndStoreDocument | RedcapRAG.php:469-525 | nothing when the document is already present (in vector mode: the fetch succeeds and finds the hash), otherwise exactly the effect of `storeDocument`, also after a failed check |
| Store.ContextStore.DeleteContextDocument | RedcapRAG.php:1076-1116 | the id is deleted from each index whose host is truthy, dense first, and a failure stops with `false` leaving the rest; in entity mode the matching row is deleted or `false` is returned |
| Store.ContextStore.PurgeContextNamespace | RedcapRAG.php:1124-1163 | the same for the whole namespace, or for all the project's rows |
| Store.ContextStore.Remove | RedcapRAG.php:1076-1163 | the shared effect of the two deletes |
| Store.ContextStore.ListContextDocuments | RedcapRAG.php:837-918 | in vector mode, nothing unless the requests succeed and the namespace has records, else `min(limit, count)` distinct records of the namespace as documents; in entity mode the project's newest `limit` rows, or nothing when the query fails |
| Store.ContextStore.FetchContextDocument | RedcapRAG.php:1006-1066 | the document returned carries the id asked for; in vector mode there is one exactly when the request succeeds and the namespace holds the id, and it is that record; in entity mode exactly when a row of the project has the id, and it is such a row |
| Store.ContextStore.ListUnifiedContextDocs | RedcapRAG.php:934-961 | throws exactly when one of the two listings throws; otherwise returns the unified listing of a dense and a sparse listing of the namespace |
| Retrieval.Hits | RedcapRAG.php:231-247 | one formatted result per fused candidate, in order |
| Retrieval.FormatHits | RedcapRAG.php:231-247 | the formatting loop computes those results |
| Retrieval.Scored | RedcapRAG.php:261-275 | in `getRelevantDocuments` the result at each position is the row at that position scored against the query; in both entry points every row with a readable embedding has its scored result in the list |
| Retrieval.ProjectRowsScored | RedcapRAG.php:257-275 | every row of the project (with a readable embedding, in `debugSearchContext`) has its scored result in the list the loop builds |
| Retrieval.Readable | RedcapRAG.php:1257-1259 | the rows kept by the `is_array` test: exactly the rows whose embedding decodes |
| Retrieval.ScoredSkipping | RedcapRAG.php:1251-1272 | `debugSearchContext`'s loop, which passes over unreadable rows, yields exactly the scored results of the readable rows, in order |
| Retrieval.ScoreRows | RedcapRAG.php:256-279 | the loop over the project's rows computes those results |
| Retrieval.Search | RedcapRAG.php:196-287 | the search for one query follows `Searched`: nothing without an embedding, the sparse `ValueError`, the hybrid ranking in vector mode, the cosine ranking in entity mode, nothing when the table cannot be read |
| Retrieval.GetRelevantDocuments | RedcapRAG.php:185-288 | `null` when the conversation is missing or empty or its last turn is not a `user` turn with content; otherwise the search for that content |
| Retrieval.DebugSearchContext | RedcapRAG.php:1175-1283 | the same search for a plain query, with `[]` where `getRelevantDocuments` returns `null` |
| Retrieval.HybridHitsLength | RedcapRAG.php:208-229 | the vector path returns `min(topK, hybrid_candidate_k, u)` results, `u` the number of ids in the union |
| Retrieval.HybridHitsRanked | RedcapRAG.php:205-249 | the vector path ranks by non-increasing similarity, holds each id once and only ids of either list, and each similarity is the weighted sum of its dense and sparse scores |
| Retrieval.ScoredRows | RedcapRAG.php:261-275 | every scored result is a row of the list scored against the query, with a readable embedding where unreadable ones are passed over |
| Retrieval.CosineHitsOrdered | RedcapRAG.php:282-286 | the entity path ranks by non-increasing similarity, and rows with equal similarity keep table order |
| Retrieval.CosineHitsRows | RedcapRAG.php:256-286 | every result of the entity path is a row of the project scored against the query |
| Retrieval.CosineHitsComplete | RedcapRAG.php:257-286 | the entity path returns `min(topK, n)` results, `n` the number of the project's (readable) rows; with a large enough `topK` every row of the project (with a readable embedding, in `debugSearchContext`) has its scored result among them |
| Retrieval.CosineHitsTopK | RedcapRAG.php:282-286 | the cut to `topK` keeps the most similar rows: a scored row left out is at most as similar to the query as every result returned |
| Retrieval.UnreadableScoresZero | RedcapRAG.php:263-264 | a row whose stored embedding does not decode scores 0, whatever the query |

## Left out

- HTTP and JSON: the Guzzle calls, `pineconeRequest`, `pineconeRequestCustomHost`, the upsert and query wrappers, request bodies and API-version headers. Each call is an outcome parameter. A failed request changes nothing remotely.
- `getEmbedding` and the SecureChatAI instance: the embedding is a parameter, `Option<seq<real>>`.
- The embedding service's request in `generateSparseVector`: its result is a parameter with three cases (usable response, unexpected body, thrown client exception).
- The REDCap entity framework and SQL: only their effect on the table of rows is modelled. Creating a row always succeeds or fails as a whole (`saveOk`).
- A `SELECT` of the duplicate check that throws is not a separate case. In `storeDocument` it ends the call without a row, the same effect as a failed save (`saveOk` false). In `checkAndStoreDocument` it is logged and `storeDocument` repeats the check, so the effect is that of a working check.
- The rows of an unordered `SELECT` (the entity-mode search) are taken in table order, which is id order. MySQL does not promise that order.
- MySQL's numeric comparison of the `id` column with a string parameter: an id string matches a row when it is the row's decimal text (`Records.Dropped`), so `"07"` or `"7.0"` are not modelled as matching row 7.
- `intval` and `floatval` of settings: `hybrid_candidate_k` and the weights are settings of type `int` and `real`, defaulting to 20, 0.6 and 0.4.
- PHP arrays whose keys are numeric strings turn into integer keys; ids are kept as strings throughout.
- `Listing.IsListing` and `Store.Lists` take two facts about the remote index as given: the zero-vector query of `listPineconeNamespace` returns exactly `min(5000, count)` distinct records of the namespace, and the `vectorCount` of `describe_index_stats` is the namespace's number of records. An index that answers with fewer records, or with a stale count, is not modelled.
- The order in which the zero-vector listing query returns records is not known; the model picks it by an unspecified choice, so no property depends on it.
- `time()` is a number rendered as decimal text in the metadata (`Store.Timestamp`); the two readings in one `storeDocument` are separate parameters and may differ.
- `sqrt`, `log`, `crc32`, `sha256` and the `\W` class are parameters; no property depends on their values except the square-root laws of `Config.SqrtLaw`.
- `generateContentHash` is `Config.ContentHash`, the `sha256` parameter applied to the content; beyond being a function of the content it promises nothing to prove.
- Text is a Dafny `string`, a sequence of characters, while PHP strings are bytes. A byte string that is not valid UTF-8, for which `preg_split('/\W+/u', ...)` returns `false` and the fallback returns empty `indices` and `values`, has no counterpart in the model (`SparseEmbedding.Words`, `SparseEmbedding.SparseVectorFallback`).
- Floating-point arithmetic: scores, weights and similarities are reals.
- `array_multisort` on equal remote indices: the order of values with the same index is not specified in the model (a stable order is used).
- `emDebug` and `emError` logging, `getPineconeNamespaces` and the admin page `pages/ragit.php`.
- `SparseEmbedding.GenerateSparseVector`: models the catch clause as intended (catching `\Exception`), because the model uses the corrected behaviour; the code as written is `SparseEmbedding.GenerateSparseVectorAsWritten`.

## Findings

| source | as written | input that shows it | evidently intended | confidence | as-written member | corrected member |
|---|---|---|---|---|---|---|
| RedcapRAG.php:675 | `catch (Exception $e)` inside `namespace Stanford\RedcapRAG` without a `use Exception` names the class `Stanford\RedcapRAG\Exception`, so a failed request to the sparse embedding service (a Guzzle exception) is not caught and leaves `generateSparseVector` | a failed sparse request for the text `"abc"` | catch `\Exception` and return the local fallback embedding of the text, a non-empty vector here | not executed | SparseEmbedding.GenerateSparseVectorAsWritten, SparseEmbedding.FailedRequestSkipsFallback | SparseEmbedding.GenerateSparseVector |
