/** PHP's `usort` with a "descending by key" comparator (`$b[k] <=> $a[k]`).
    Since PHP 8 `usort` is stable, so equal keys keep their relative order. */
module Sorting {
  import opened Seqs

  ghost predicate SortedDesc<T>(s: seq<T>, key: T -> real) {
    forall i, j :: 0 <= i < j < |s| ==> key(s[i]) >= key(s[j])
  }

  /** The elements of `s` whose key is exactly `v`, in their order in `s`.
      A sort is stable when it leaves every tier as it was. */
  function Tier<T>(s: seq<T>, key: T -> real, v: real): (r: seq<T>)
    ensures |r| <= |s|
  {
    if s == [] then [] else (if key(s[0]) == v then [s[0]] else []) + Tier(s[1..], key, v)
  }

  /** Places `x` before the first element whose key is not larger than its own. */
  function Insert<T>(x: T, s: seq<T>, key: T -> real): (r: seq<T>)
    ensures |r| == |s| + 1
    ensures multiset(r) == multiset(s) + multiset{x}
  {
    if s == [] || key(x) >= key(s[0]) then [x] + s
    else
      assert s == [s[0]] + s[1..];
      [s[0]] + Insert(x, s[1..], key)
  }

  lemma {:induction false} InsertSorted<T>(x: T, s: seq<T>, key: T -> real)
    requires SortedDesc(s, key)
    ensures SortedDesc(Insert(x, s, key), key)
  {
    if s != [] && key(x) < key(s[0]) {
      InsertSorted(x, s[1..], key);
      var r := Insert(x, s, key);
      assert r == [s[0]] + Insert(x, s[1..], key);
      assert multiset(Insert(x, s[1..], key)) == multiset(s[1..]) + multiset{x};
      forall k | 0 < k < |r| ensures key(s[0]) >= key(r[k]) {
        assert r[k] in multiset(Insert(x, s[1..], key));
        assert r[k] == x || r[k] in multiset(s[1..]);
        if r[k] != x {
          var j :| 0 <= j < |s[1..]| && s[1..][j] == r[k];
          assert s[j + 1] == r[k];
        }
      }
    }
  }

  lemma TierCons<T>(y: T, t: seq<T>, key: T -> real, v: real)
    ensures Tier([y] + t, key, v) == (if key(y) == v then [y] else []) + Tier(t, key, v)
  {
    assert ([y] + t)[1..] == t;
  }

  /** `x` joins the front of its own tier: it is placed after every larger key
      and before every element of `s` whose key equals its own. */
  lemma {:induction false} InsertTier<T>(x: T, s: seq<T>, key: T -> real, v: real)
    ensures Tier(Insert(x, s, key), key, v) == if key(x) == v then [x] + Tier(s, key, v) else Tier(s, key, v)
  {
    if s == [] || key(x) >= key(s[0]) {
      TierCons(x, s, key, v);
    } else {
      var rest := Insert(x, s[1..], key);
      TierCons(s[0], rest, key, v);
      TierCons(s[0], s[1..], key, v);
      assert [s[0]] + s[1..] == s;
      InsertTier(x, s[1..], key, v);
    }
  }

  /** Stable insertion sort, descending by `key`. */
  function SortDesc<T>(s: seq<T>, key: T -> real): (r: seq<T>)
    ensures |r| == |s|
    ensures multiset(r) == multiset(s)
  {
    if s == [] then []
    else
      assert s == [s[0]] + s[1..];
      Insert(s[0], SortDesc(s[1..], key), key)
  }

  /** What `usort` promises: the result is sorted descending, and every tier of equal
      keys is in its original order (together with the permutation property of
      `SortDesc` this determines the result). */
  lemma {:induction false} SortDescSpec<T>(s: seq<T>, key: T -> real)
    ensures SortedDesc(SortDesc(s, key), key)
    ensures forall v :: Tier(SortDesc(s, key), key, v) == Tier(s, key, v)
  {
    if s != [] {
      SortDescSpec(s[1..], key);
      InsertSorted(s[0], SortDesc(s[1..], key), key);
      forall v ensures Tier(SortDesc(s, key), key, v) == Tier(s, key, v) {
        InsertTier(s[0], SortDesc(s[1..], key), key, v);
      }
    }
  }

  /** Truncating keeps, of every tier, a prefix. */
  lemma {:induction false} TierOfPrefix<T>(s: seq<T>, n: nat, key: T -> real, v: real)
    requires n <= |s|
    ensures |Tier(s[..n], key, v)| <= |Tier(s, key, v)|
    ensures Tier(s[..n], key, v) == Tier(s, key, v)[..|Tier(s[..n], key, v)|]
  {
    if n > 0 {
      assert s[..n][1..] == s[1..][..n - 1];
      TierOfPrefix(s[1..], n - 1, key, v);
    }
  }

  lemma SortedPrefix<T>(s: seq<T>, n: nat, key: T -> real)
    requires n <= |s| && SortedDesc(s, key)
    ensures SortedDesc(s[..n], key)
  {
  }

  /** Cutting the sorted list to its first `len` elements keeps the best: an element
      that is cut off scores at most every element that is kept. */
  lemma SortedCutKeepsBest<T>(s: seq<T>, key: T -> real, len: int)
    ensures var r := Slice(SortDesc(s, key), len);
      forall c, x :: c in s && c !in r && x in r ==> key(c) <= key(x)
  {
    var t := SortDesc(s, key);
    var r := Slice(t, len);
    SortDescSpec(s, key);
    forall c, x | c in s && c !in r && x in r ensures key(c) <= key(x) {
      assert c in multiset(t);
      var j :| 0 <= j < |t| && t[j] == c;
      var i :| 0 <= i < |r| && r[i] == x;
      assert r == t[..|r|];
      assert |r| <= j;
      assert key(t[i]) >= key(t[j]);
    }
  }

  /** A cut at least as long as the list keeps all of it. */
  lemma SortedCutAll<T>(s: seq<T>, key: T -> real, len: int)
    requires len >= |s|
    ensures multiset(Slice(SortDesc(s, key), len)) == multiset(s)
    ensures forall x :: x in s ==> x in Slice(SortDesc(s, key), len)
  {
    var t := SortDesc(s, key);
    assert t[..|t|] == t;
    forall x | x in s ensures x in t {
      assert x in multiset(t);
    }
  }

  /** Inserting a new element into a list without duplicates keeps it free of duplicates. */
  lemma {:induction false} InsertDistinct<T>(x: T, s: seq<T>, key: T -> real)
    requires Distinct(s) && x !in s
    ensures Distinct(Insert(x, s, key))
  {
    if s != [] && key(x) < key(s[0]) {
      var rest := Insert(x, s[1..], key);
      assert Distinct(s[1..]);
      InsertDistinct(x, s[1..], key);
      assert s[0] !in multiset(rest) by {
        assert s[0] !in s[1..];
        assert s[0] != x;
      }
      var r := [s[0]] + rest;
      forall i, j | 0 <= i < j < |r| ensures r[i] != r[j] {
        if i == 0 {
          assert r[j] == rest[j - 1];
          assert r[j] in multiset(rest);
        } else {
          assert r[i] == rest[i - 1] && r[j] == rest[j - 1];
        }
      }
    }
  }

  lemma {:induction false} SortDescDistinct<T>(s: seq<T>, key: T -> real)
    requires Distinct(s)
    ensures Distinct(SortDesc(s, key))
  {
    if s != [] {
      assert Distinct(s[1..]);
      SortDescDistinct(s[1..], key);
      assert s[0] !in s[1..];
      assert s[0] !in multiset(SortDesc(s[1..], key));
      InsertDistinct(s[0], SortDesc(s[1..], key), key);
    }
  }
}
