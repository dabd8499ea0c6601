/** The host guard of `listPineconeNamespace`: serverless index hosts cannot serve
    `describe_index_stats`, so listing skips them. A host is serverless when it matches
    `/\.svc\./i` or `/gcp-.*\.pinecone\.io$/i`. */
module Hosts {
  import opened Text

  /** `p` occurs in `s` starting at `i`. */
  ghost predicate OccursAt(s: string, p: string, i: int) {
    0 <= i && i + |p| <= |s| && s[i..i + |p|] == p
  }

  /** `p` occurs somewhere in `s`. */
  predicate HasInfix(s: string, p: string)
    decreases |s|
  {
    if |s| < |p| then false else s[..|p|] == p || HasInfix(s[1..], p)
  }

  lemma {:induction false} HasInfixSpec(s: string, p: string)
    ensures HasInfix(s, p) <==> exists i :: OccursAt(s, p, i)
    decreases |s|
  {
    if |s| >= |p| && s[..|p|] != p {
      var t := s[1..];
      HasInfixSpec(t, p);
      if HasInfix(t, p) {
        var i :| OccursAt(t, p, i);
        assert t[i..i + |p|] == s[i + 1..i + 1 + |p|];
        assert OccursAt(s, p, i + 1);
      }
      if exists i :: OccursAt(s, p, i) {
        var i :| OccursAt(s, p, i);
        assert i != 0;
        assert t[i - 1..i - 1 + |p|] == s[i..i + |p|];
        assert OccursAt(t, p, i - 1);
      }
    } else if |s| >= |p| {
      assert OccursAt(s, p, 0);
    }
  }

  /** The subject without one final newline, where PCRE's `$` may also match. */
  function StripFinalNewline(s: string): (r: string)
    ensures |r| <= |s| && r == s[..|r|]
    ensures |r| == |s| || (|r| + 1 == |s| && s[|s| - 1] == '\n')
  {
    if s != [] && s[|s| - 1] == '\n' then s[..|s| - 1] else s
  }

  /** The text after the last newline of `s`. */
  function LastLine(s: string): (r: string)
    ensures |r| <= |s| && r == s[|s| - |r|..]
    ensures forall k :: 0 <= k < |r| ==> r[k] != '\n'
    ensures |r| < |s| ==> s[|s| - |r| - 1] == '\n'
  {
    if s == [] || s[|s| - 1] == '\n' then []
    else
      var t := s[..|s| - 1];
      var q := LastLine(t);
      assert q + [s[|s| - 1]] == s[|s| - |q| - 1..] by {
        forall k | 0 <= k < |q| ensures q[k] == s[|s| - |q| - 1 + k] {
          assert q[k] == t[|t| - |q| + k];
        }
      }
      q + [s[|s| - 1]]
  }

  /** `/start.*suffix$/` computed: the subject ends with `suffix`, up to a final newline,
      and `start` occurs on the last line before it. */
  predicate AnchoredMatch(h: string, start: string, suffix: string) {
    var b := StripFinalNewline(h);
    |b| >= |suffix| && b[|b| - |suffix|..] == suffix && HasInfix(LastLine(b[..|b| - |suffix|]), start)
  }

  /** `/gcp-.*\.pinecone\.io$/` on a lower-cased host. */
  predicate GcpHost(h: string) {
    AnchoredMatch(h, "gcp-", ".pinecone.io")
  }

  /** Whether `listPineconeNamespace` skips the host. */
  predicate Serverless(host: string) {
    var h := Lower(host);
    HasInfix(h, ".svc.") || GcpHost(h)
  }

  /** A match of `/start.*suffix$/` stated as what it is: `start` at `i`, `suffix` at
      `j`, no newline in between (`.` does not match one), and the end of the subject
      or a final newline after it. */
  ghost predicate MatchAt(h: string, start: string, suffix: string, i: int, j: int) {
    && OccursAt(h, start, i)
    && OccursAt(h, suffix, j)
    && i + |start| <= j
    && (forall k :: i + |start| <= k < j ==> h[k] != '\n')
    && (j + |suffix| == |h| || (j + |suffix| + 1 == |h| && h[|h| - 1] == '\n'))
  }

  /** The two literal pieces of the regex: no newline in `start`, and a `suffix` that
      does not end in one. */
  ghost predicate Pieces(start: string, suffix: string) {
    (forall k :: 0 <= k < |start| ==> start[k] != '\n') && suffix != [] && suffix[|suffix| - 1] != '\n'
  }

  lemma SliceOfPrefix(s: string, n: int, a: int, c: int)
    requires 0 <= a <= c <= n <= |s|
    ensures s[..n][a..c] == s[a..c]
  {
  }

  lemma SliceOfSuffix(s: string, m: int, a: int, c: int)
    requires 0 <= m <= |s| && 0 <= a <= c <= |s| - m
    ensures s[m..][a..c] == s[m + a..m + c]
  {
  }

  /** A piece of the last line of a prefix of a prefix of `h` is that piece of `h`. */
  lemma LineInSubject(h: string, b: string, pre: string, line: string, m: int, a: int, i: int, n: int)
    requires |b| <= |h| && b == h[..|b|]
    requires |pre| <= |b| && pre == b[..|pre|]
    requires |line| <= |pre| && m == |pre| - |line| && line == pre[m..]
    requires 0 <= a && 0 <= n && a + n <= |line| && i == m + a
    ensures h[i..i + n] == line[a..a + n]
  {
    SliceOfSuffix(pre, m, a, a + n);
    SliceOfPrefix(b, |pre|, i, i + n);
    SliceOfPrefix(h, |b|, i, i + n);
  }

  /** A match ends the stripped subject. */
  lemma MatchEndsBody(h: string, start: string, suffix: string, i: int, j: int)
    requires Pieces(start, suffix) && MatchAt(h, start, suffix, i, j)
    ensures StripFinalNewline(h) == h[..j + |suffix|]
  {
    var n := j + |suffix|;
    assert h[n - 1] == h[j..n][|suffix| - 1];
    if n == |h| {
      assert h[..n] == h;
    }
  }

  lemma AnchoredSound(h: string, start: string, suffix: string)
    requires AnchoredMatch(h, start, suffix)
    ensures exists i, j :: MatchAt(h, start, suffix, i, j)
  {
    var b := StripFinalNewline(h);
    var j := |b| - |suffix|;
    var pre := b[..j];
    var line := LastLine(pre);
    var m := |pre| - |line|;
    HasInfixSpec(line, start);
    var i0 :| OccursAt(line, start, i0);
    var i := m + i0;
    StartInSubject(h, start, b, pre, line, m, i0, i);
    SuffixInSubject(h, suffix, b, j);
    NoNewlineAfterStart(h, b, pre, line, m, i + |start|, j);
    assert MatchAt(h, start, suffix, i, j);
  }

  lemma StartInSubject(h: string, start: string, b: string, pre: string, line: string, m: int, a: int, i: int)
    requires |b| <= |h| && b == h[..|b|]
    requires |pre| <= |b| && pre == b[..|pre|]
    requires |line| <= |pre| && m == |pre| - |line| && line == pre[m..]
    requires OccursAt(line, start, a) && i == m + a
    ensures OccursAt(h, start, i) && i + |start| <= |pre|
  {
    LineInSubject(h, b, pre, line, m, a, i, |start|);
  }

  lemma SuffixInSubject(h: string, suffix: string, b: string, j: int)
    requires |b| <= |h| && b == h[..|b|]
    requires j == |b| - |suffix| && 0 <= j && b[j..] == suffix
    ensures OccursAt(h, suffix, j)
  {
    SliceOfPrefix(h, |b|, j, |b|);
  }

  lemma NoNewlineAfterStart(h: string, b: string, pre: string, line: string, m: int, lo: int, j: int)
    requires |b| <= |h| && b == h[..|b|]
    requires j == |pre| <= |b| && pre == b[..j]
    requires |line| <= |pre| && m == |pre| - |line| && line == pre[m..]
    requires forall k :: 0 <= k < |line| ==> line[k] != '\n'
    requires m <= lo
    ensures forall k :: lo <= k < j ==> h[k] != '\n'
  {
    forall k | lo <= k < j ensures h[k] != '\n' {
      assert h[k] == b[k] == pre[k] == line[k - m];
    }
  }

  lemma AnchoredComplete(h: string, start: string, suffix: string, i: int, j: int)
    requires Pieces(start, suffix) && MatchAt(h, start, suffix, i, j)
    ensures AnchoredMatch(h, start, suffix)
  {
    var b := StripFinalNewline(h);
    MatchEndsBody(h, start, suffix, i, j);
    var e := |b| - |suffix|;
    assert e == j;
    SliceOfPrefix(h, |b|, e, |b|);
    assert b[e..] == suffix;
    var pre := b[..e];
    var line := LastLine(pre);
    var m := |pre| - |line|;
    StartInLine(h, start, suffix, i, j, b, pre, line, m);
    HasInfixSpec(line, start);
    AnchoredIntro(h, start, suffix, b, e, pre, line);
  }

  /** The `start` of a match lies on the last line before the suffix. */
  lemma StartInLine(h: string, start: string, suffix: string, i: int, j: int, b: string, pre: string, line: string, m: int)
    requires Pieces(start, suffix) && MatchAt(h, start, suffix, i, j)
    requires j + |suffix| <= |h| && b == h[..j + |suffix|] && pre == b[..j]
    requires line == LastLine(pre) && m == |pre| - |line|
    ensures m <= i && OccursAt(line, start, i - m)
  {
    NoNewlineInMatch(h, start, suffix, i, j);
    LineBreakBefore(h, b, pre, line, m);
    LineInSubject(h, b, pre, line, m, i - m, i, |start|);
  }

  /** A match spans no newline from the start of `start` to the suffix. */
  lemma NoNewlineInMatch(h: string, start: string, suffix: string, i: int, j: int)
    requires Pieces(start, suffix) && MatchAt(h, start, suffix, i, j)
    ensures forall k :: i <= k < j ==> h[k] != '\n'
  {
    forall k | i <= k < i + |start| ensures h[k] != '\n' {
      assert h[k] == h[i..i + |start|][k - i];
    }
  }

  /** The last line of `pre` starts after a newline, or at the start of the subject. */
  lemma LineBreakBefore(h: string, b: string, pre: string, line: string, m: int)
    requires |b| <= |h| && b == h[..|b|] && |pre| <= |b| && pre == b[..|pre|]
    requires line == LastLine(pre) && m == |pre| - |line|
    ensures m > 0 ==> h[m - 1] == '\n'
  {
    if m > 0 {
      assert h[m - 1] == pre[m - 1];
    }
  }

  lemma AnchoredIntro(h: string, start: string, suffix: string, b: string, e: int, pre: string, line: string)
    requires b == StripFinalNewline(h) && e == |b| - |suffix| && 0 <= e && b[e..] == suffix
    requires pre == b[..e] && line == LastLine(pre) && HasInfix(line, start)
    ensures AnchoredMatch(h, start, suffix)
  {
  }

  /** The computed test is exactly the regex. */
  lemma AnchoredMatchSpec(h: string, start: string, suffix: string)
    requires Pieces(start, suffix)
    ensures AnchoredMatch(h, start, suffix) <==> exists i, j :: MatchAt(h, start, suffix, i, j)
  {
    if AnchoredMatch(h, start, suffix) {
      AnchoredSound(h, start, suffix);
    }
    if exists i, j :: MatchAt(h, start, suffix, i, j) {
      var i, j :| MatchAt(h, start, suffix, i, j);
      AnchoredComplete(h, start, suffix, i, j);
    }
  }

  /** `Serverless` is the disjunction of the two regexes, matched case-insensitively. */
  lemma GcpPieces()
    ensures Pieces("gcp-", ".pinecone.io")
  {
    var start, suffix := "gcp-", ".pinecone.io";
    assert suffix[|suffix| - 1] == 'o';
  }

  lemma EitherSpec(h: string, p: string, start: string, suffix: string)
    requires Pieces(start, suffix)
    ensures (HasInfix(h, p) || AnchoredMatch(h, start, suffix)) <==>
      (exists i :: OccursAt(h, p, i)) || exists i, j :: MatchAt(h, start, suffix, i, j)
  {
    HasInfixSpec(h, p);
    AnchoredMatchSpec(h, start, suffix);
  }

  /** The two regexes of the guard, as what a match of each is. */
  ghost predicate ServerlessPattern(h: string) {
    (exists i :: OccursAt(h, ".svc.", i)) || exists i, j :: MatchAt(h, "gcp-", ".pinecone.io", i, j)
  }

  /** The computed guard is the case-insensitive match of one of the two regexes. */
  lemma ServerlessSpec(host: string)
    ensures Serverless(host) <==> ServerlessPattern(Lower(host))
  {
    var h := Lower(host);
    GcpPieces();
    EitherSpec(h, ".svc.", "gcp-", ".pinecone.io");
  }
}
