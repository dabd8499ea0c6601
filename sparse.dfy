/** The sparse ("keyword") side of retrieval: the local term-frequency embedding
    `generateSparseVectorFallback`, and the post-processing `generateSparseVector`
    applies to the sparse embedding service's response. */
module SparseEmbedding {
  import opened Seqs
  import opened Sorting
  import opened Config
  import opened Text

  /** Number of hash buckets of the local embedding. */
  const BucketCount := 200000

  datatype SparseVector = SparseVector(indices: seq<int>, values: seq<real>)

  function Empty(): SparseVector { SparseVector([], []) }

  ghost predicate StrictlyAscending(s: seq<int>) {
    forall i, j :: 0 <= i < j < |s| ==> s[i] < s[j]
  }

  ghost predicate Ascending(s: seq<int>) {
    forall i, j :: 0 <= i < j < |s| ==> s[i] <= s[j]
  }

  // ---------------------------------------------------------------- tokenizer

  /** `preg_split('/\W+/u', $s, -1, PREG_SPLIT_NO_EMPTY)`: the maximal runs of word
      characters of `s`, in order. */
  function Words(s: string, isWord: char -> bool): (ws: seq<string>)
    ensures forall k :: 0 <= k < |ws| ==> |ws[k]| > 0
    ensures forall k, j :: 0 <= k < |ws| && 0 <= j < |ws[k]| ==> isWord(ws[k][j])
    ensures s != [] && isWord(s[|s| - 1]) ==> ws != []
  {
    if s == [] then []
    else
      var c := s[|s| - 1];
      var rest := Words(s[..|s| - 1], isWord);
      if !isWord(c) then rest
      else if |s| >= 2 && isWord(s[|s| - 2]) then rest[..|rest| - 1] + [rest[|rest| - 1] + [c]]
      else rest + [[c]]
  }

  /** The word characters of `s`, in order. */
  function WordChars(s: string, isWord: char -> bool): string {
    if s == [] then []
    else WordChars(s[..|s| - 1], isWord) + (if isWord(s[|s| - 1]) then [s[|s| - 1]] else [])
  }

  function Concat(ws: seq<string>): string {
    if ws == [] then [] else Concat(ws[..|ws| - 1]) + ws[|ws| - 1]
  }

  lemma ConcatSnoc(ws: seq<string>, w: string)
    ensures Concat(ws + [w]) == Concat(ws) + w
  {
    assert (ws + [w])[..|ws|] == ws;
  }

  /** The tokens, joined, are exactly the word characters of the text. */
  lemma {:induction false} WordsJoin(s: string, isWord: char -> bool)
    ensures Concat(Words(s, isWord)) == WordChars(s, isWord)
  {
    if s != [] {
      var c := s[|s| - 1];
      var p := s[..|s| - 1];
      var rest := Words(p, isWord);
      WordsJoin(p, isWord);
      if isWord(c) {
        if |s| >= 2 && isWord(s[|s| - 2]) {
          var front := rest[..|rest| - 1];
          var last := rest[|rest| - 1];
          assert rest == front + [last];
          ConcatSnoc(front, last);
          ConcatSnoc(front, last + [c]);
        } else {
          ConcatSnoc(rest, [c]);
        }
      }
    }
  }

  lemma {:induction false} WordCharsEmpty(s: string, isWord: char -> bool)
    ensures WordChars(s, isWord) == [] <==> forall k :: 0 <= k < |s| ==> !isWord(s[k])
  {
    if s != [] {
      var p := s[..|s| - 1];
      WordCharsEmpty(p, isWord);
      if forall k :: 0 <= k < |p| ==> !isWord(p[k]) {
        if !isWord(s[|s| - 1]) {
          forall k | 0 <= k < |s| ensures !isWord(s[k]) {
            if k < |p| { assert s[k] == p[k]; }
          }
        }
      } else {
        var k :| 0 <= k < |p| && isWord(p[k]);
        assert s[k] == p[k];
      }
    }
  }

  lemma {:induction false} ConcatEmpty(ws: seq<string>)
    requires forall k :: 0 <= k < |ws| ==> |ws[k]| > 0
    ensures Concat(ws) == [] <==> ws == []
  {
    if ws != [] {
      assert |Concat(ws)| >= |ws[|ws| - 1]|;
    }
  }

  /** The text has no token exactly when it has no word character. */
  lemma NoWordsIffNoWordChars(s: string, isWord: char -> bool)
    ensures Words(s, isWord) == [] <==> forall k :: 0 <= k < |s| ==> !isWord(s[k])
  {
    WordsJoin(s, isWord);
    WordCharsEmpty(s, isWord);
    ConcatEmpty(Words(s, isWord));
  }

  // ---------------------------------------------------------------- specification

  /** The highest count among `ts`, as `max($freq)`. */
  function MaxCount<T(==)>(words: seq<T>, ts: seq<T>): (m: nat)
    ensures forall k :: 0 <= k < |ts| ==> Count(words, ts[k]) <= m
    ensures ts != [] ==> exists k :: 0 <= k < |ts| && Count(words, ts[k]) == m
  {
    if ts == [] then 0
    else
      var m' := MaxCount(words, ts[..|ts| - 1]);
      var c := Count(words, ts[|ts| - 1]);
      assert forall k :: 0 <= k < |ts| - 1 ==> ts[..|ts| - 1][k] == ts[k];
      if c >= m' then c else m'
  }

  function MaxFreq(words: seq<string>): nat {
    MaxCount(words, Dedup(words))
  }

  /** The term frequency weight `$count / $maxFreq`. */
  function Weight(words: seq<string>, term: string): real {
    var m := MaxFreq(words);
    if m == 0 then 0.0 else Count(words, term) as real / m as real
  }

  /** `crc32($term) % 200000`. */
  function Bucket(p: Primitives, term: string): int {
    p.crc32(term) % BucketCount
  }

  function Buckets(p: Primitives, ts: seq<string>): (r: seq<int>)
    ensures |r| == |ts|
    ensures forall k :: 0 <= k < |ts| ==> r[k] == Bucket(p, ts[k]) && 0 <= r[k] < BucketCount
  {
    seq(|ts|, k requires 0 <= k < |ts| => Bucket(p, ts[k]))
  }

  function Weights(words: seq<string>, ts: seq<string>): (r: seq<real>)
    ensures |r| == |ts|
    ensures forall k :: 0 <= k < |ts| ==> r[k] == Weight(words, ts[k])
  {
    seq(|ts|, k requires 0 <= k < |ts| => Weight(words, ts[k]))
  }

  /** The sum of the values whose index is `b`: what `$combined[$b]` accumulates. */
  function SumAt(ix: seq<int>, vs: seq<real>, b: int): real
    requires |ix| == |vs|
  {
    if ix == [] then 0.0
    else SumAt(ix[..|ix| - 1], vs[..|vs| - 1], b) + (if ix[|ix| - 1] == b then vs[|vs| - 1] else 0.0)
  }

  /** What the fallback returns for the token list `words`: one entry per bucket that
      some distinct term hashes to, in ascending bucket order, holding the sum of the
      weights of the terms in that bucket; the values add up to the total weight. */
  ghost predicate IsFallbackOf(v: SparseVector, words: seq<string>, p: Primitives) {
    var ts := Dedup(words);
    var ix := Buckets(p, ts);
    var ws := Weights(words, ts);
    |v.indices| == |v.values|
    && StrictlyAscending(v.indices)
    && (forall b :: b in v.indices <==> b in ix)
    && (forall k :: 0 <= k < |v.indices| ==> v.values[k] == SumAt(ix, ws, v.indices[k]))
    && Sum(v.values) == Sum(ws)
  }

  // ---------------------------------------------------------------- index/value pairs

  function Zip(ix: seq<int>, vs: seq<real>): (r: seq<(int, real)>)
    requires |ix| == |vs|
    ensures |r| == |ix|
    ensures forall j :: 0 <= j < |r| ==> r[j] == (ix[j], vs[j])
  {
    seq(|ix|, j requires 0 <= j < |ix| => (ix[j], vs[j]))
  }

  function Firsts(s: seq<(int, real)>): (r: seq<int>)
    ensures |r| == |s|
    ensures forall j :: 0 <= j < |s| ==> r[j] == s[j].0
  {
    seq(|s|, j requires 0 <= j < |s| => s[j].0)
  }

  function Seconds(s: seq<(int, real)>): (r: seq<real>)
    ensures |r| == |s|
    ensures forall j :: 0 <= j < |s| ==> r[j] == s[j].1
  {
    seq(|s|, j requires 0 <= j < |s| => s[j].1)
  }

  /** Sorting key for `array_multisort($indices, SORT_ASC, ...)` with the descending sort. */
  function NegIndex(e: (int, real)): real {
    -(e.0 as real)
  }

  /** `array_multisort($indices, SORT_ASC, SORT_NUMERIC, $values)`, moving each value
      with its index. */
  function CoSort(ix: seq<int>, vs: seq<real>): SparseVector
    requires |ix| == |vs|
  {
    var s := SortDesc(Zip(ix, vs), NegIndex);
    SparseVector(Firsts(s), Seconds(s))
  }

  lemma {:induction false} SumSecondsInsert(x: (int, real), s: seq<(int, real)>)
    ensures Sum(Seconds(Insert(x, s, NegIndex))) == x.1 + Sum(Seconds(s))
  {
    var r := Insert(x, s, NegIndex);
    if s == [] || NegIndex(x) >= NegIndex(s[0]) {
      assert Seconds(r)[1..] == Seconds(s);
    } else {
      var rest := Insert(x, s[1..], NegIndex);
      assert Seconds(r)[1..] == Seconds(rest);
      assert Seconds(s)[1..] == Seconds(s[1..]);
      SumSecondsInsert(x, s[1..]);
    }
  }

  lemma {:induction false} SumSecondsSort(s: seq<(int, real)>)
    ensures Sum(Seconds(SortDesc(s, NegIndex))) == Sum(Seconds(s))
  {
    if s != [] {
      SumSecondsSort(s[1..]);
      SumSecondsInsert(s[0], SortDesc(s[1..], NegIndex));
      assert Seconds(s)[1..] == Seconds(s[1..]);
    }
  }

  /** `CoSort` keeps the pairs, puts the indices in ascending order and keeps the sum. */
  lemma CoSortSpec(ix: seq<int>, vs: seq<real>)
    requires |ix| == |vs|
    ensures var r := CoSort(ix, vs);
      |r.indices| == |r.values| == |ix|
      && Ascending(r.indices)
      && multiset(Zip(r.indices, r.values)) == multiset(Zip(ix, vs))
      && Sum(r.values) == Sum(vs)
  {
    var z := Zip(ix, vs);
    var s := SortDesc(z, NegIndex);
    SortDescSpec(z, NegIndex);
    assert Zip(Firsts(s), Seconds(s)) == s;
    SumSecondsSort(z);
    assert Seconds(z) == vs;
  }

  /** The sort moves pairs around: each pair of the result is a pair of the input and
      each pair of the input is in the result. */
  lemma CoSortPairs(ix: seq<int>, vs: seq<real>)
    requires |ix| == |vs|
    ensures var s := SortDesc(Zip(ix, vs), NegIndex);
      (forall k :: 0 <= k < |s| ==> s[k] in Zip(ix, vs))
      && (forall j :: 0 <= j < |ix| ==> (ix[j], vs[j]) in s)
  {
    var z := Zip(ix, vs);
    var s := SortDesc(z, NegIndex);
    forall k | 0 <= k < |s| ensures s[k] in z {
      assert s[k] in multiset(z);
    }
    forall j | 0 <= j < |ix| ensures (ix[j], vs[j]) in s {
      assert z[j] in multiset(s);
    }
  }

  lemma CoSortStrict(ix: seq<int>, vs: seq<real>)
    requires |ix| == |vs| && Distinct(ix)
    ensures StrictlyAscending(CoSort(ix, vs).indices)
  {
    var z := Zip(ix, vs);
    var s := SortDesc(z, NegIndex);
    SortDescSpec(z, NegIndex);
    assert Distinct(z);
    SortDescDistinct(z, NegIndex);
    CoSortPairs(ix, vs);
    var r := CoSort(ix, vs);
    forall i, k | 0 <= i < k < |s| ensures r.indices[i] < r.indices[k] {
      assert NegIndex(s[i]) >= NegIndex(s[k]);
      var a :| 0 <= a < |z| && s[i] == z[a];
      var c :| 0 <= c < |z| && s[k] == z[c];
      assert s[i] != s[k];
    }
  }

  lemma CoSortSameIndices(ix: seq<int>, vs: seq<real>)
    requires |ix| == |vs|
    ensures forall b :: b in CoSort(ix, vs).indices <==> b in ix
  {
    var s := SortDesc(Zip(ix, vs), NegIndex);
    var r := CoSort(ix, vs);
    CoSortPairs(ix, vs);
    forall b | b in r.indices ensures b in ix {
      var k :| 0 <= k < |s| && r.indices[k] == b;
      assert s[k] in Zip(ix, vs);
    }
    forall b | b in ix ensures b in r.indices {
      var j :| 0 <= j < |ix| && ix[j] == b;
      var k :| 0 <= k < |s| && s[k] == (ix[j], vs[j]);
      assert r.indices[k] == b;
    }
  }

  lemma CoSortKeepsValues(ix: seq<int>, vs: seq<real>)
    requires |ix| == |vs|
    ensures var r := CoSort(ix, vs);
      forall k :: 0 <= k < |r.indices| ==> exists j :: 0 <= j < |ix| && r.indices[k] == ix[j] && r.values[k] == vs[j]
  {
    var s := SortDesc(Zip(ix, vs), NegIndex);
    var r := CoSort(ix, vs);
    CoSortPairs(ix, vs);
    forall k | 0 <= k < |r.indices| ensures exists j :: 0 <= j < |ix| && r.indices[k] == ix[j] && r.values[k] == vs[j] {
      assert s[k] in Zip(ix, vs);
      var j :| 0 <= j < |ix| && Zip(ix, vs)[j] == s[k];
    }
  }

  /** When the indices are distinct, so are they after `CoSort`, every index keeps the
      value it had, and the indices are strictly ascending. */
  lemma CoSortDistinct(ix: seq<int>, vs: seq<real>)
    requires |ix| == |vs| && Distinct(ix)
    ensures var r := CoSort(ix, vs);
      StrictlyAscending(r.indices)
      && (forall b :: b in r.indices <==> b in ix)
      && forall k :: 0 <= k < |r.indices| ==> exists j :: 0 <= j < |ix| && r.indices[k] == ix[j] && r.values[k] == vs[j]
  {
    CoSortStrict(ix, vs);
    CoSortSameIndices(ix, vs);
    CoSortKeepsValues(ix, vs);
  }

  // ---------------------------------------------------------------- the fallback

  /** `SumAt` over a list extended by one pair. */
  lemma SumAtSnoc(ix: seq<int>, vs: seq<real>, i: int, v: real, b: int)
    requires |ix| == |vs|
    ensures SumAt(ix + [i], vs + [v], b) == SumAt(ix, vs, b) + (if i == b then v else 0.0)
  {
    assert (ix + [i])[..|ix|] == ix;
    assert (vs + [v])[..|vs|] == vs;
  }

  /** A bucket no pair falls in sums to 0. */
  lemma {:induction false} SumAtAbsent(ix: seq<int>, vs: seq<real>, b: int)
    requires |ix| == |vs| && b !in ix
    ensures SumAt(ix, vs, b) == 0.0
  {
    if ix != [] {
      SumAtAbsent(ix[..|ix| - 1], vs[..|vs| - 1], b);
    }
  }

  function ValuesAt(keys: seq<int>, m: map<int, real>): (r: seq<real>)
    requires forall j :: 0 <= j < |keys| ==> keys[j] in m
    ensures |r| == |keys|
    ensures forall j :: 0 <= j < |keys| ==> r[j] == m[keys[j]]
  {
    seq(|keys|, j requires 0 <= j < |keys| => m[keys[j]])
  }

  /** Adding `v` at one key of a duplicate-free key list adds `v` to the total. */
  lemma {:induction false} SumValuesAtUpdate(keys: seq<int>, m: map<int, real>, b: int, v: real)
    requires forall j :: 0 <= j < |keys| ==> keys[j] in m
    requires Distinct(keys) && b in keys
    ensures Sum(ValuesAt(keys, m[b := m[b] + v])) == Sum(ValuesAt(keys, m)) + v
  {
    var m' := m[b := m[b] + v];
    var tail := keys[1..];
    assert ValuesAt(keys, m')[1..] == ValuesAt(tail, m');
    assert ValuesAt(keys, m)[1..] == ValuesAt(tail, m);
    if keys[0] == b {
      assert b !in tail;
      assert ValuesAt(tail, m') == ValuesAt(tail, m);
    } else {
      assert Distinct(tail);
      SumValuesAtUpdate(tail, m, b, v);
    }
  }

  /** `$freq[$w] = ($freq[$w] ?? 0) + 1` keeps `$freq` the word counts of the words so far. */
  lemma FreqStep(freq: map<string, nat>, s: seq<string>, w: string)
    requires forall t :: t in freq <==> t in s
    requires forall t :: t in freq ==> freq[t] == Count(s, t)
    ensures var f := freq[w := (if w in freq then freq[w] else 0) + 1];
            && (forall t :: t in f <==> t in s + [w])
            && (forall t :: t in f ==> f[t] == Count(s + [w], t))
  {
    forall t ensures Count(s + [w], t) == Count(s, t) + (if w == t then 1 else 0) {
      CountSnoc(s, w, t);
    }
  }

  /** The first loop of the fallback: `$freq` with its keys in first-seen order. */
  method TermFrequencies(words: seq<string>) returns (freq: map<string, nat>, terms: seq<string>)
    ensures terms == Dedup(words)
    ensures forall t :: t in freq <==> t in words
    ensures forall t :: t in freq ==> freq[t] == Count(words, t)
  {
    freq, terms := map[], [];
    var i := 0;
    while i < |words|
      invariant 0 <= i <= |words|
      invariant terms == Dedup(words[..i])
      invariant forall t :: t in freq <==> t in words[..i]
      invariant forall t :: t in freq ==> freq[t] == Count(words[..i], t)
    {
      var w := words[i];
      assert words[..i + 1] == words[..i] + [w];
      DedupSnoc(words[..i], w);
      FreqStep(freq, words[..i], w);
      freq := freq[w := (if w in freq then freq[w] else 0) + 1];
      if w !in terms {
        terms := terms + [w];
      }
      i := i + 1;
    }
    assert words[..i] == words;
  }

  /** The pairs the second loop has built after `k` terms. */
  ghost predicate PairsUpTo(indices: seq<int>, values: seq<real>, p: Primitives, words: seq<string>, terms: seq<string>, k: nat)
    requires k <= |terms|
  {
    && |indices| == |values| == k
    && (forall m :: 0 <= m < k ==> indices[m] == Bucket(p, terms[m]))
    && (forall m :: 0 <= m < k ==> values[m] == Weight(words, terms[m]))
  }

  lemma PairsStep(indices: seq<int>, values: seq<real>, p: Primitives, words: seq<string>, terms: seq<string>, k: nat)
    requires k < |terms| && PairsUpTo(indices, values, p, words, terms, k)
    ensures PairsUpTo(indices + [Bucket(p, terms[k])], values + [Weight(words, terms[k])], p, words, terms, k + 1)
  {
  }

  /** The second loop: one (bucket, weight) pair per distinct term. */
  method TermPairs(words: seq<string>, terms: seq<string>, freq: map<string, nat>, maxFreq: nat, p: Primitives)
    returns (indices: seq<int>, values: seq<real>)
    requires terms == Dedup(words) && maxFreq == MaxFreq(words)
    requires forall t :: t in freq <==> t in words
    requires forall t :: t in freq ==> freq[t] == Count(words, t)
    ensures indices == Buckets(p, terms)
    ensures values == Weights(words, terms)
  {
    indices, values := [], [];
    var k := 0;
    while k < |terms|
      invariant 0 <= k <= |terms|
      invariant PairsUpTo(indices, values, p, words, terms, k)
    {
      var term := terms[k];
      assert term in freq by {
        assert term in terms;
      }
      var weight := if maxFreq == 0 then 0.0 else freq[term] as real / maxFreq as real;
      var idx := p.crc32(term) % BucketCount;
      assert idx == Bucket(p, term) && weight == Weight(words, term);
      PairsStep(indices, values, p, words, terms, k);
      indices := indices + [idx];
      values := values + [weight];
      k := k + 1;
    }
  }

  /** What `$combined` holds after the pairs `ix`/`vs`: the buckets seen, in first-seen
      order, each with the sum of its values. */
  ghost predicate Combines(keys: seq<int>, combined: map<int, real>, ix: seq<int>, vs: seq<real>)
    requires |ix| == |vs|
  {
    keys == Dedup(ix)
    && (forall b :: b in combined <==> b in ix)
    && (forall b :: b in combined ==> combined[b] == SumAt(ix, vs, b))
    && (forall m :: 0 <= m < |keys| ==> keys[m] in combined)
    && Sum(ValuesAt(keys, combined)) == Sum(vs)
  }

  /** `Combines`, from its parts. */
  lemma CombinesIntro(keys: seq<int>, combined: map<int, real>, ix: seq<int>, vs: seq<real>)
    requires |ix| == |vs| && keys == Dedup(ix)
    requires forall b :: b in combined <==> b in ix
    requires forall b :: b in combined ==> combined[b] == SumAt(ix, vs, b)
    requires forall m :: 0 <= m < |keys| ==> keys[m] in combined
    requires Sum(ValuesAt(keys, combined)) == Sum(vs)
    ensures Combines(keys, combined, ix, vs)
  {
  }

  /** One step of the third loop, `$combined[$idx] = ($combined[$idx] ?? 0) + $val`,
      for a bucket already in `$combined`. */
  lemma CombineStepSeen(keys: seq<int>, combined: map<int, real>, ix: seq<int>, vs: seq<real>, idx: int, val: real)
    requires |ix| == |vs| && Combines(keys, combined, ix, vs)
    requires idx in combined
    ensures Combines(keys, combined[idx := combined[idx] + val], ix + [idx], vs + [val])
  {
    var c := combined[idx := combined[idx] + val];
    assert keys == Dedup(ix + [idx]) by {
      DedupSnoc(ix, idx);
    }
    assert (forall b :: b in c <==> b in ix + [idx])
        && (forall b :: b in c ==> c[b] == SumAt(ix + [idx], vs + [val], b)) by {
      CombineSums(combined, ix, vs, idx, val);
    }
    assert Sum(ValuesAt(keys, c)) == Sum(vs + [val]) by {
      SumAppend(vs, [val]);
      SumValuesAtUpdate(keys, combined, idx, val);
    }
    CombinesIntro(keys, c, ix + [idx], vs + [val]);
  }

  /** The same step for a bucket not yet in `$combined`. */
  lemma CombineStepNew(keys: seq<int>, combined: map<int, real>, ix: seq<int>, vs: seq<real>, idx: int, val: real)
    requires |ix| == |vs| && Combines(keys, combined, ix, vs)
    requires idx !in combined
    ensures Combines(keys + [idx], combined[idx := val], ix + [idx], vs + [val])
  {
    var c := combined[idx := val];
    assert keys + [idx] == Dedup(ix + [idx]) by {
      DedupSnoc(ix, idx);
    }
    assert (forall b :: b in c <==> b in ix + [idx])
        && (forall b :: b in c ==> c[b] == SumAt(ix + [idx], vs + [val], b)) by {
      CombineSums(combined, ix, vs, idx, val);
    }
    assert (forall m :: 0 <= m < |keys| + 1 ==> (keys + [idx])[m] in c)
        && Sum(ValuesAt(keys + [idx], c)) == Sum(vs + [val]) by {
      SumAppend(vs, [val]);
      CombineNewKey(keys, combined, idx, val);
    }
    CombinesIntro(keys + [idx], c, ix + [idx], vs + [val]);
  }

  /** After one more pair, `$combined` holds the sums of the longer pair list. */
  lemma CombineSums(combined: map<int, real>, ix: seq<int>, vs: seq<real>, idx: int, val: real)
    requires |ix| == |vs|
    requires forall b :: b in combined <==> b in ix
    requires forall b :: b in combined ==> combined[b] == SumAt(ix, vs, b)
    ensures var c := combined[idx := (if idx in combined then combined[idx] else 0.0) + val];
      (forall b :: b in c <==> b in ix + [idx])
      && forall b :: b in c ==> c[b] == SumAt(ix + [idx], vs + [val], b)
  {
    var c := combined[idx := (if idx in combined then combined[idx] else 0.0) + val];
    forall b | b in c ensures c[b] == SumAt(ix + [idx], vs + [val], b) {
      SumAtSnoc(ix, vs, idx, val, b);
      if b !in ix {
        SumAtAbsent(ix, vs, b);
      }
    }
  }

  lemma CombineNewKey(keys: seq<int>, combined: map<int, real>, idx: int, val: real)
    requires forall m :: 0 <= m < |keys| ==> keys[m] in combined
    requires idx !in combined
    ensures forall m :: 0 <= m < |keys| + 1 ==> (keys + [idx])[m] in combined[idx := val]
    ensures Sum(ValuesAt(keys + [idx], combined[idx := val])) == Sum(ValuesAt(keys, combined)) + val
  {
    assert ValuesAt(keys + [idx], combined[idx := val]) == ValuesAt(keys, combined) + [val];
    SumAppend(ValuesAt(keys, combined), [val]);
  }

  /** The third loop: `$combined`, summing the weights of colliding terms. */
  method CombineCollisions(indices: seq<int>, values: seq<real>) returns (keys: seq<int>, combined: map<int, real>)
    requires |indices| == |values|
    ensures Combines(keys, combined, indices, values)
  {
    keys, combined := [], map[];
    var j := 0;
    while j < |indices|
      invariant 0 <= j <= |indices|
      invariant Combines(keys, combined, indices[..j], values[..j])
    {
      var idx, val := indices[j], values[j];
      assert indices[..j + 1] == indices[..j] + [idx];
      assert values[..j + 1] == values[..j] + [val];
      if idx in combined {
        CombineStepSeen(keys, combined, indices[..j], values[..j], idx, val);
      } else {
        CombineStepNew(keys, combined, indices[..j], values[..j], idx, val);
      }
      if idx !in combined {
        keys := keys + [idx];
      }
      combined := combined[idx := (if idx in combined then combined[idx] else 0.0) + val];
      j := j + 1;
    }
    assert indices[..j] == indices && values[..j] == values;
  }

  /** The local term-frequency embedding of `text`. */
  method SparseVectorFallback(text: string, p: Primitives) returns (v: SparseVector)
    ensures IsFallbackOf(v, Words(Lower(text), p.isWordChar), p)
  {
    var words := Words(Lower(text), p.isWordChar);
    if |words| == 0 {
      return Empty();
    }
    var freq, terms := TermFrequencies(words);
    var maxFreq := MaxCount(words, terms);
    var indices, values := TermPairs(words, terms, freq, maxFreq, p);
    var keys, combined := CombineCollisions(indices, values);
    // `array_keys`, `array_values`, then `array_multisort`
    var vals := ValuesAt(keys, combined);
    CoSortDistinct(keys, vals);
    CoSortSpec(keys, vals);
    v := CoSort(keys, vals);
    forall n | 0 <= n < |v.indices| ensures v.values[n] == SumAt(indices, values, v.indices[n]) {
      var m :| 0 <= m < |keys| && v.indices[n] == keys[m] && v.values[n] == vals[m];
    }
  }

  // ---------------------------------------------------------------- properties

  /** No tokens, no entries. */
  lemma FallbackOfNoWords(v: SparseVector, p: Primitives)
    requires IsFallbackOf(v, [], p)
    ensures v == Empty()
  {
    if v.indices != [] {
      assert v.indices[0] in Buckets(p, Dedup([]));
    }
  }

  /** Every index is a bucket of `[0, 200000)`. */
  lemma FallbackIndexRange(v: SparseVector, words: seq<string>, p: Primitives)
    requires IsFallbackOf(v, words, p)
    ensures forall k :: 0 <= k < |v.indices| ==> 0 <= v.indices[k] < BucketCount
  {
    forall k | 0 <= k < |v.indices| ensures 0 <= v.indices[k] < BucketCount {
      var ix := Buckets(p, Dedup(words));
      assert v.indices[k] in ix;
    }
  }

  /** Some token gives an entry. */
  lemma FallbackOfWords(v: SparseVector, words: seq<string>, p: Primitives)
    requires IsFallbackOf(v, words, p) && words != []
    ensures |v.indices| > 0
  {
    assert words[0] in Dedup(words);
    var ix := Buckets(p, Dedup(words));
    assert ix[0] in v.indices;
  }

  lemma RatioBounds(c: nat, m: nat)
    requires 0 < c <= m
    ensures 0.0 < c as real / m as real <= 1.0
    ensures c == m ==> c as real / m as real == 1.0
  {
  }

  /** Each weight lies in (0, 1]. */
  lemma WeightBounds(words: seq<string>, term: string)
    requires term in words
    ensures 0.0 < Weight(words, term) <= 1.0
  {
    var ts := Dedup(words);
    assert term in ts;
    var k :| 0 <= k < |ts| && ts[k] == term;
    var c, m := Count(words, term), MaxFreq(words);
    assert c <= m;
    RatioBounds(c, m);
  }

  /** A most frequent term has weight exactly 1. */
  lemma SomeWeightIsOne(words: seq<string>)
    requires words != []
    ensures exists k :: 0 <= k < |Dedup(words)| && Weight(words, Dedup(words)[k]) == 1.0
  {
    var ts := Dedup(words);
    assert words[0] in ts;
    var k :| 0 <= k < |ts| && Count(words, ts[k]) == MaxFreq(words);
    assert ts[k] in words;
    RatioBounds(Count(words, ts[k]), MaxFreq(words));
  }

  lemma HeadIn(a: seq<int>)
    ensures a != [] ==> a[0] in a
  {
  }

  /** Two strictly ascending lists with the same elements start alike. */
  lemma AscendingSameHead(a: seq<int>, b: seq<int>)
    requires StrictlyAscending(a) && StrictlyAscending(b)
    requires forall x :: x in a <==> x in b
    requires a != [] && b != []
    ensures a[0] == b[0]
    ensures forall x :: x in a[1..] <==> x in b[1..]
  {
    assert a[0] in b && b[0] in a;
    var i :| 0 <= i < |b| && b[i] == a[0];
    var j :| 0 <= j < |a| && a[j] == b[0];
    forall x ensures x in a[1..] <==> x in b[1..] {
      if x in a[1..] {
        var m :| 1 <= m < |a| && a[m] == x;
        assert x in b && x != b[0];
      }
      if x in b[1..] {
        var m :| 1 <= m < |b| && b[m] == x;
        assert x in a && x != a[0];
      }
    }
  }

  lemma {:induction false} AscendingSameElements(a: seq<int>, b: seq<int>)
    requires StrictlyAscending(a) && StrictlyAscending(b)
    requires forall x :: x in a <==> x in b
    ensures a == b
  {
    if a != [] && b != [] {
      AscendingSameHead(a, b);
      AscendingSameElements(a[1..], b[1..]);
      assert a == [a[0]] + a[1..] && b == [b[0]] + b[1..];
    } else {
      HeadIn(a);
      HeadIn(b);
    }
  }

  /** The local embedding depends only on the tokens: there is one answer. */
  lemma FallbackUnique(v: SparseVector, w: SparseVector, words: seq<string>, p: Primitives)
    requires IsFallbackOf(v, words, p) && IsFallbackOf(w, words, p)
    ensures v == w
  {
    AscendingSameElements(v.indices, w.indices);
  }

  // ---------------------------------------------------------------- the remote response

  /** `min(1.0, max(0.0, $v))`. */
  function Clamp(x: real): (r: real)
    ensures 0.0 <= r <= 1.0
    ensures 0.0 <= x <= 1.0 ==> r == x
  {
    if x > 1.0 then 1.0 else if x < 0.0 then 0.0 else x
  }

  function ClampAll(vs: seq<real>): (r: seq<real>)
    ensures |r| == |vs|
    ensures forall k :: 0 <= k < |vs| ==> r[k] == Clamp(vs[k])
  {
    seq(|vs|, k requires 0 <= k < |vs| => Clamp(vs[k]))
  }

  /** What the sparse embedding service returned: the two arrays of its first result,
      a body without them, or a thrown client exception. */
  datatype SparseResponse = Response(indices: seq<int>, values: seq<real>) | Unexpected | Failed

  /** The result of `generateSparseVector`: a vector, or an exception that leaves it. */
  datatype SparseResult = Vector(v: SparseVector) | Raised

  /** The response post-processing: clamp every value to [0, 1], then co-sort.
      `array_multisort` throws a `ValueError`, which no `catch (Exception ...)`
      clause catches, when the two arrays have different sizes. */
  function FromResponse(indices: seq<int>, values: seq<real>): (r: SparseResult)
    ensures |indices| != |values| <==> r == Raised
  {
    if |indices| != |values| then Raised
    else Vector(CoSort(indices, ClampAll(values)))
  }

  /** The post-processed response keeps every (index, clamped value) pair, with the
      indices ascending and every value in [0, 1]. */
  lemma FromResponseSpec(indices: seq<int>, values: seq<real>)
    requires |indices| == |values|
    ensures FromResponse(indices, values).Vector?
    ensures var v := FromResponse(indices, values).v;
      |v.indices| == |v.values| == |indices|
      && Ascending(v.indices)
      && multiset(Zip(v.indices, v.values)) == multiset(Zip(indices, ClampAll(values)))
      && forall k :: 0 <= k < |v.values| ==> 0.0 <= v.values[k] <= 1.0
  {
    var cs := ClampAll(values);
    CoSortSpec(indices, cs);
    var v := CoSort(indices, cs);
    var z := Zip(v.indices, v.values);
    forall k | 0 <= k < |v.values| ensures 0.0 <= v.values[k] <= 1.0 {
      assert z[k] in multiset(Zip(indices, cs));
      var j :| 0 <= j < |indices| && Zip(indices, cs)[j] == z[k];
    }
  }

  /** `generateSparseVector` as written: the clause `catch (Exception $e)` names
      `Exception` inside the module's own namespace, so it does not catch the HTTP
      client's exceptions, and a failed request leaves the function without a value. */
  function GenerateSparseVectorAsWritten(response: SparseResponse): SparseResult {
    match response
    case Response(indices, values) => FromResponse(indices, values)
    case Unexpected => Vector(Empty())
    case Failed => Raised
  }

  /** `generateSparseVector` as intended (catching `\Exception`): a failed request falls
      back to the local embedding of the same text. */
  method GenerateSparseVector(text: string, response: SparseResponse, p: Primitives) returns (r: SparseResult)
    ensures response.Response? ==> r == FromResponse(response.indices, response.values)
    ensures response.Unexpected? ==> r == Vector(Empty())
    ensures response.Failed? ==> r.Vector? && IsFallbackOf(r.v, Words(Lower(text), p.isWordChar), p)
    ensures r.Raised? <==> SparseThrows(response)
    ensures r.Vector? ==> SparseVectorOf(r.v, text, response, p)
  {
    match response {
      case Response(indices, values) =>
        r := FromResponse(indices, values);
      case Unexpected =>
        r := Vector(Empty());
      case Failed =>
        var v := SparseVectorFallback(text, p);
        r := Vector(v);
    }
  }

  /** What `generateSparseVector` yields on each kind of response, when it does not
      throw: the post-processed response, the empty vector, or the local fallback. */
  ghost predicate SparseVectorOf(v: SparseVector, text: string, response: SparseResponse, p: Primitives) {
    match response
    case Response(indices, values) => FromResponse(indices, values) == Vector(v)
    case Unexpected => v == Empty()
    case Failed => IsFallbackOf(v, Words(Lower(text), p.isWordChar), p)
  }

  /** The sparse vector of a text and a response is determined by them. */
  lemma SparseVectorOfUnique(v: SparseVector, w: SparseVector, text: string, response: SparseResponse, p: Primitives)
    requires SparseVectorOf(v, text, response, p) && SparseVectorOf(w, text, response, p)
    ensures v == w
  {
    if response.Failed? {
      FallbackUnique(v, w, Words(Lower(text), p.isWordChar), p);
    }
  }

  /** The only way the intended `generateSparseVector` throws. */
  predicate SparseThrows(response: SparseResponse) {
    response.Response? && |response.indices| != |response.values|
  }

  /** The discrepancy: on a failed request for a text with a word character, the code as
      written raises, where the intended fallback returns a non-empty vector. */
  lemma FailedRequestSkipsFallback(text: string, p: Primitives)
    requires exists k :: 0 <= k < |text| && p.isWordChar(Lower(text)[k])
    ensures GenerateSparseVectorAsWritten(Failed) == Raised
    ensures forall v :: IsFallbackOf(v, Words(Lower(text), p.isWordChar), p) ==> |v.indices| > 0
  {
    TextHasWords(text, p.isWordChar);
    var ws := Words(Lower(text), p.isWordChar);
    forall v | IsFallbackOf(v, ws, p) ensures |v.indices| > 0 {
      FallbackOfWords(v, ws, p);
    }
  }

  lemma TextHasWords(text: string, isWord: char -> bool)
    requires exists k :: 0 <= k < |text| && isWord(Lower(text)[k])
    ensures Words(Lower(text), isWord) != []
  {
    var s := Lower(text);
    NoWordsIffNoWordChars(s, isWord);
    var k :| 0 <= k < |text| && isWord(s[k]);
  }
}
