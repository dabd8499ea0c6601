/** What the core reads but does not own: the system settings, and the primitives it
    calls without caring how they are computed (sha256, crc32, log, sqrt and the
    Unicode word-character class of `\W`). Each primitive is a parameter, so every
    property proved holds for any implementation of it. */
module Config {
  import opened Wrappers

  datatype Primitives = Primitives(
    sha256: string -> string,
    crc32: string -> nat,
    log: real -> real,
    sqrt: real -> real,
    isWordChar: char -> bool)

  /** The laws asked of `sqrt`, and only where a proof needs them: on non-negative
      arguments it is a non-negative square root, 0 exactly at 0. */
  ghost predicate SqrtLaw(sqrt: real -> real) {
    forall x :: x >= 0.0 ==> sqrt(x) >= 0.0 && sqrt(x) * sqrt(x) == x && (sqrt(x) == 0.0 <==> x == 0.0)
  }

  /** The module's system settings; `None` is a setting that was never saved. */
  datatype Settings = Settings(
    useVectorDb: Option<string>,
    apiKey: Option<string>,
    denseHost: Option<string>,
    sparseHost: Option<string>,
    candidateK: Option<int>,
    denseWeight: Option<real>,
    sparseWeight: Option<real>)

  /** PHP truthiness of a string setting: null, "" and "0" are false. */
  function Truthy(s: Option<string>): bool {
    s.Some? && s.value != "" && s.value != "0"
  }

  /** `rtrim($s, '/')`. */
  function RTrimSlash(s: string): (r: string)
    ensures |r| <= |s| && r == s[..|r|]
    ensures r == [] || r[|r| - 1] != '/'
    ensures forall k :: |r| <= k < |s| ==> s[k] == '/'
  {
    if s != [] && s[|s| - 1] == '/' then RTrimSlash(s[..|s| - 1]) else s
  }

  /** `isVectorDbEnabled`: the remote index pair is used instead of the entity table. */
  function IsVectorDbEnabled(cfg: Settings): bool {
    Truthy(cfg.useVectorDb)
  }

  /** `hybrid_candidate_k`, default 20. */
  function CandidateK(cfg: Settings): int {
    cfg.candidateK.GetOr(20)
  }

  /** `hybrid_dense_weight`, default 0.6. */
  function DenseWeight(cfg: Settings): real {
    cfg.denseWeight.GetOr(0.6)
  }

  /** `hybrid_sparse_weight`, default 0.4. */
  function SparseWeight(cfg: Settings): real {
    cfg.sparseWeight.GetOr(0.4)
  }

  /** The guard of `pineconeRequest`: it throws unless the API key and the trimmed
      dense host are both non-empty in PHP's sense. */
  function RequestConfigured(cfg: Settings): bool {
    Truthy(cfg.apiKey) && cfg.denseHost.Some? && Truthy(Some(RTrimSlash(cfg.denseHost.value)))
  }

  /** `generateContentHash`: the document id and deduplication key. */
  function ContentHash(p: Primitives, content: string): string {
    p.sha256(content)
  }
}
