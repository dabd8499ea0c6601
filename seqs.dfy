/** Sequence helpers shared by the model: PHP's `array_slice`, `array_unique`, sums. */
module Seqs {

  function Min(a: int, b: int): int { if a <= b then a else b }
  function Max(a: int, b: int): int { if a >= b then a else b }

  /** The length `array_slice($s, 0, $len)` keeps: a non-negative `len` keeps at most
      `len` elements, a negative one drops `-len` elements from the end. */
  function SliceLength(n: nat, len: int): (k: nat)
    ensures k <= n
  {
    if len >= 0 then Min(len, n) else Max(0, n + len)
  }

  /** `array_slice($s, 0, $len)` on a list. */
  function Slice<T>(s: seq<T>, len: int): (r: seq<T>)
    ensures |r| == SliceLength(|s|, len)
    ensures r == s[..|r|]
  {
    s[..SliceLength(|s|, len)]
  }

  ghost predicate Distinct<T>(s: seq<T>) {
    forall i, j :: 0 <= i < j < |s| ==> s[i] != s[j]
  }

  /** `array_unique` on a list, and the key order of a PHP array filled in a loop:
      each value at the position of its first occurrence. */
  function Dedup<T(==,!new)>(s: seq<T>): (r: seq<T>)
    ensures Distinct(r)
    ensures forall x :: x in r <==> x in s
    ensures |r| <= |s|
  {
    if s == [] then []
    else
      var d := Dedup(s[..|s| - 1]);
      if s[|s| - 1] in d then d else d + [s[|s| - 1]]
  }

  /** Extending the input by one element extends `Dedup` as a loop that skips seen keys does. */
  lemma DedupSnoc<T(!new)>(s: seq<T>, x: T)
    ensures Dedup(s + [x]) == if x in Dedup(s) then Dedup(s) else Dedup(s) + [x]
  {
    assert (s + [x])[..|s|] == s;
  }

  /** A list that is already free of duplicates is its own `array_unique`. */
  lemma {:induction false} DedupOfDistinct<T(!new)>(s: seq<T>)
    requires Distinct(s)
    ensures Dedup(s) == s
  {
    if s != [] {
      var p := s[..|s| - 1];
      assert Distinct(p);
      DedupOfDistinct(p);
      assert s[|s| - 1] !in p;
      assert p + [s[|s| - 1]] == s;
    }
  }

  /** The first occurrences in `a` come first: `Dedup(a + b)` starts with `Dedup(a)`. */
  lemma {:induction false} DedupPrefix<T(!new)>(a: seq<T>, b: seq<T>)
    ensures |Dedup(a)| <= |Dedup(a + b)|
    ensures Dedup(a + b)[..|Dedup(a)|] == Dedup(a)
  {
    if b == [] {
      assert a + b == a;
    } else {
      var b' := b[..|b| - 1];
      assert a + b == (a + b') + [b[|b| - 1]];
      DedupSnoc(a + b', b[|b| - 1]);
      DedupPrefix(a, b');
    }
  }

  /** The elements of `b` that are not in `a`, in their order in `b`. */
  function Minus<T(==,!new)>(b: seq<T>, a: seq<T>): (r: seq<T>)
    ensures forall x :: x in r <==> x in b && x !in a
  {
    if b == [] then []
    else
      assert b == b[..|b| - 1] + [b[|b| - 1]];
      Minus(b[..|b| - 1], a) + (if b[|b| - 1] in a then [] else [b[|b| - 1]])
  }

  /** `Minus` depends only on which elements the removed list holds. */
  lemma {:induction false} MinusSameMembers<T(!new)>(b: seq<T>, a: seq<T>, a': seq<T>)
    requires forall x :: x in a <==> x in a'
    ensures Minus(b, a) == Minus(b, a')
  {
    if b != [] {
      MinusSameMembers(b[..|b| - 1], a, a');
    }
  }

  /** Joining two duplicate-free lists and removing duplicates keeps the first list
      whole and appends, in order, the elements of the second it does not hold. */
  lemma {:induction false} DedupJoin<T(!new)>(a: seq<T>, b: seq<T>)
    requires Distinct(a) && Distinct(b)
    ensures Dedup(a + b) == a + Minus(b, a)
  {
    if b == [] {
      assert a + b == a;
      DedupOfDistinct(a);
    } else {
      var p, x := b[..|b| - 1], b[|b| - 1];
      assert Distinct(p);
      assert x !in p;
      DedupJoin(a, p);
      assert a + b == (a + p) + [x];
      DedupSnoc(a + p, x);
      assert x in Dedup(a + p) <==> x in a;
      assert Minus(b, a) == Minus(p, a) + (if x in a then [] else [x]);
      if x !in a {
        assert a + Minus(b, a) == (a + Minus(p, a)) + [x];
      }
    }
  }

  /** Sum of a list of reals. */
  function Sum(s: seq<real>): real {
    if s == [] then 0.0 else s[0] + Sum(s[1..])
  }

  lemma {:induction false} SumAppend(a: seq<real>, b: seq<real>)
    ensures Sum(a + b) == Sum(a) + Sum(b)
  {
    if a == [] {
      assert a + b == b;
    } else {
      assert (a + b)[1..] == a[1..] + b;
      SumAppend(a[1..], b);
    }
  }

  /** Number of occurrences of `x` in `s`. */
  function Count<T(==)>(s: seq<T>, x: T): (n: nat)
    ensures n <= |s|
    ensures n > 0 <==> x in s
  {
    if s == [] then 0 else Count(s[..|s| - 1], x) + (if s[|s| - 1] == x then 1 else 0)
  }

  lemma CountSnoc<T>(s: seq<T>, y: T, x: T)
    ensures Count(s + [y], x) == Count(s, x) + (if y == x then 1 else 0)
  {
    assert (s + [y])[..|s|] == s;
  }

  /** A prefix one longer is the prefix and the next element. */
  lemma TakeSnoc<T>(s: seq<T>, i: nat)
    requires i < |s|
    ensures s[..i + 1] == s[..i] + [s[i]]
  {
  }
}
