/** `cosineSimilarity`: the ranking of the entity-table fallback. */
module Cosine {
  import opened Config

  /** `$vec2[$key] ?? 0`: a component the vector does not have counts as 0. */
  function At(v: seq<real>, k: nat): real {
    if k < |v| then v[k] else 0.0
  }

  /** Real multiplication, named so that facts about products of equal factors
      are stated once (below) and then used as plain linear facts. */
  function Product(x: real, y: real): real { x * y }

  /** The dot product over the keys of `a`. */
  function Dot(a: seq<real>, b: seq<real>): real {
    if a == [] then 0.0 else Dot(a[..|a| - 1], b) + Product(a[|a| - 1], At(b, |a| - 1))
  }

  function SumSquares(a: seq<real>): real {
    if a == [] then 0.0 else SumSquares(a[..|a| - 1]) + Product(a[|a| - 1], a[|a| - 1])
  }

  ghost predicate IsZero(a: seq<real>) {
    forall k :: 0 <= k < |a| ==> a[k] == 0.0
  }

  /** Cosine similarity, 0 when either norm is 0. */
  function Similarity(a: seq<real>, b: seq<real>, sqrt: real -> real): real {
    var n1 := sqrt(SumSquares(a));
    var n2 := sqrt(SumSquares(b));
    if n1 == 0.0 || n2 == 0.0 then 0.0 else Dot(a, b) / (n1 * n2)
  }

  /** The two accumulating loops of `cosineSimilarity`. */
  method CosineSimilarity(vec1: seq<real>, vec2: seq<real>, sqrt: real -> real) returns (r: real)
    ensures r == Similarity(vec1, vec2, sqrt)
  {
    var dotProduct, normVec1, normVec2 := 0.0, 0.0, 0.0;
    var i := 0;
    while i < |vec1|
      invariant 0 <= i <= |vec1|
      invariant dotProduct == Dot(vec1[..i], vec2)
      invariant normVec1 == SumSquares(vec1[..i])
    {
      assert vec1[..i + 1][..i] == vec1[..i];
      dotProduct := dotProduct + vec1[i] * At(vec2, i);
      assert vec1[i] * At(vec2, i) == Product(vec1[i], At(vec2, i));
      normVec1 := normVec1 + vec1[i] * vec1[i];
      i := i + 1;
    }
    assert vec1[..i] == vec1;
    var j := 0;
    while j < |vec2|
      invariant 0 <= j <= |vec2|
      invariant normVec2 == SumSquares(vec2[..j])
    {
      assert vec2[..j + 1][..j] == vec2[..j];
      normVec2 := normVec2 + vec2[j] * vec2[j];
      j := j + 1;
    }
    assert vec2[..j] == vec2;
    var n1 := sqrt(normVec1);
    var n2 := sqrt(normVec2);
    if n1 == 0.0 || n2 == 0.0 {
      return 0.0;
    }
    r := dotProduct / (n1 * n2);
  }

  lemma ProductPositive(x: real, y: real)
    requires x > 0.0 && y > 0.0
    ensures Product(x, y) > 0.0
  {
  }

  lemma SquarePositive(x: real)
    requires x != 0.0
    ensures Product(x, x) > 0.0
  {
    if x > 0.0 {
      ProductPositive(x, x);
    } else {
      ProductPositive(-x, -x);
      assert Product(x, x) == Product(-x, -x);
    }
  }

  lemma SquareNonNegative(x: real)
    ensures Product(x, x) >= 0.0
  {
    if x != 0.0 {
      SquarePositive(x);
    }
  }

  /** The squared norm is never negative, and is 0 for the zero vector. */
  lemma {:induction false} SumSquaresOfZero(a: seq<real>)
    ensures SumSquares(a) >= 0.0
    ensures IsZero(a) ==> SumSquares(a) == 0.0
  {
    if a != [] {
      var p := a[..|a| - 1];
      SumSquaresOfZero(p);
      SquareNonNegative(a[|a| - 1]);
      if IsZero(a) {
        assert IsZero(p) by {
          forall k | 0 <= k < |p| ensures p[k] == 0.0 { assert p[k] == a[k]; }
        }
      }
    }
  }

  /** A vector with a non-zero component has a positive squared norm. */
  lemma {:induction false} SumSquaresOfNonZero(a: seq<real>)
    requires !IsZero(a)
    ensures SumSquares(a) > 0.0
  {
    var p := a[..|a| - 1];
    var x := a[|a| - 1];
    SumSquaresOfZero(p);
    if x != 0.0 {
      SquarePositive(x);
    } else {
      var k :| 0 <= k < |a| && a[k] != 0.0;
      assert p[k] == a[k];
      SumSquaresOfNonZero(p);
    }
  }

  /** A zero vector on either side gives similarity 0 instead of a division by zero. */
  lemma ZeroVectorSimilarity(a: seq<real>, b: seq<real>, sqrt: real -> real)
    requires SqrtLaw(sqrt)
    requires IsZero(a) || IsZero(b)
    ensures Similarity(a, b, sqrt) == 0.0
  {
    SumSquaresOfZero(a);
    SumSquaresOfZero(b);
  }

  lemma {:induction false} DotSelf(a: seq<real>)
    ensures Dot(a, a) == SumSquares(a)
  {
    if a != [] {
      var p := a[..|a| - 1];
      DotSelf(p);
      DotPrefixIndependent(p, a);
    }
  }

  /** `Dot(a, b)` reads `b` only at the keys of `a`. */
  lemma {:induction false} DotPrefixIndependent(p: seq<real>, b: seq<real>)
    requires |p| <= |b| && p == b[..|p|]
    ensures Dot(p, b) == Dot(p, p)
  {
    if p != [] {
      var q := p[..|p| - 1];
      assert q == b[..|q|];
      assert q == p[..|q|];
      DotPrefixIndependent(q, b);
      DotPrefixIndependent(q, p);
    }
  }

  /** A non-zero vector is fully similar to itself. */
  lemma SelfSimilarity(a: seq<real>, sqrt: real -> real)
    requires SqrtLaw(sqrt)
    requires !IsZero(a)
    ensures Similarity(a, a, sqrt) == 1.0
  {
    SumSquaresOfNonZero(a);
    DotSelf(a);
    var s := SumSquares(a);
    assert s > 0.0;
    var n := sqrt(s);
    assert n * n == s;
    assert n != 0.0;
    assert Similarity(a, a, sqrt) == Dot(a, a) / (n * n);
    assert Dot(a, a) / (n * n) == s / s;
    assert s / s == 1.0;
  }

  /** The dot product over the first `n` keys, with missing components as 0. */
  function DotUpTo(a: seq<real>, b: seq<real>, n: nat): real {
    if n == 0 then 0.0 else DotUpTo(a, b, n - 1) + At(a, n - 1) * At(b, n - 1)
  }

  lemma {:induction false} DotAsDotUpTo(a: seq<real>, b: seq<real>, n: nat)
    requires |a| <= n
    ensures Dot(a, b) == DotUpTo(a, b, n)
  {
    if n > |a| {
      DotAsDotUpTo(a, b, n - 1);
    } else if a != [] {
      var p := a[..|a| - 1];
      DotAsDotUpTo(p, b, n - 1);
      DotUpToPrefix(p, a, b, n - 1);
    }
  }

  lemma {:induction false} DotUpToPrefix(p: seq<real>, a: seq<real>, b: seq<real>, n: nat)
    requires n <= |p| <= |a| && p == a[..|p|]
    ensures DotUpTo(p, b, n) == DotUpTo(a, b, n)
  {
    if n > 0 {
      DotUpToPrefix(p, a, b, n - 1);
    }
  }

  lemma {:induction false} DotUpToSymmetric(a: seq<real>, b: seq<real>, n: nat)
    ensures DotUpTo(a, b, n) == DotUpTo(b, a, n)
  {
    if n > 0 {
      DotUpToSymmetric(a, b, n - 1);
    }
  }

  /** Treating missing components as 0 makes the similarity symmetric, even for
      vectors of different lengths. */
  lemma SimilaritySymmetric(a: seq<real>, b: seq<real>, sqrt: real -> real)
    ensures Similarity(a, b, sqrt) == Similarity(b, a, sqrt)
  {
    var n := if |a| >= |b| then |a| else |b|;
    DotAsDotUpTo(a, b, n);
    DotAsDotUpTo(b, a, n);
    DotUpToSymmetric(a, b, n);
  }
}
