// The greedy subsequence test of leetcode/392.cpp: walk through `s2` and
// advance in `s1` whenever the current characters agree.
module Subsequence {

  /**
   * `f` picks, for every character of `a`, a position of `b` holding it,
   * at strictly increasing positions.
   */
  ghost predicate Embedding(a: string, b: string, f: seq<int>)
  {
    |f| == |a| &&
    (forall k :: 0 <= k < |f| ==> 0 <= f[k] < |b| && b[f[k]] == a[k]) &&
    (forall k :: 0 < k < |f| ==> f[k - 1] < f[k])
  }

  /** `a` can be obtained from `b` by deleting characters. */
  ghost predicate IsSubsequence(a: string, b: string)
  {
    exists f :: Embedding(a, b, f)
  }

  function Shifted(f: seq<int>, d: int): (g: seq<int>)
    ensures |g| == |f| && forall k :: 0 <= k < |f| ==> g[k] == f[k] + d
  {
    seq(|f|, k requires 0 <= k < |f| => f[k] + d)
  }

  /** The empty string is a subsequence of every string. */
  lemma EmptyIsSubsequence(b: string)
    ensures IsSubsequence([], b)
  {
    assert Embedding([], b, []);
  }

  /** An embedding into `b[1..]` is one into `b`, one position further on. */
  lemma ShiftUp(a: string, b: string, g: seq<int>)
    requires b != [] && Embedding(a, b[1..], g)
    ensures Embedding(a, b, Shifted(g, 1))
  {
  }

  /** An embedding into `b` that avoids position 0 is one into `b[1..]`. */
  lemma ShiftDown(a: string, b: string, f: seq<int>)
    requires b != [] && Embedding(a, b, f)
    requires forall k :: 0 <= k < |f| ==> f[k] >= 1
    ensures Embedding(a, b[1..], Shifted(f, -1))
  {
  }

  /** Every position an embedding picks after the first lies beyond it. */
  lemma {:induction false} AfterFirst(a: string, b: string, f: seq<int>, k: nat)
    requires Embedding(a, b, f) && 0 < k < |f|
    ensures f[0] < f[k]
  {
    if k > 1 {
      AfterFirst(a, b, f, k - 1);
    }
  }

  /**
   * When `a` and `b` start with the same character, `a` is a subsequence
   * of `b` exactly when the rest of `a` is one of the rest of `b`.
   */
  lemma MatchFirst(a: string, b: string)
    requires a != [] && b != [] && a[0] == b[0]
    ensures IsSubsequence(a, b) <==> IsSubsequence(a[1..], b[1..])
  {
    if IsSubsequence(a[1..], b[1..]) {
      var g :| Embedding(a[1..], b[1..], g);
      MatchUp(a, b, g);
    }
    if IsSubsequence(a, b) {
      var f :| Embedding(a, b, f);
      MatchDown(a, b, f);
    }
  }

  /** A matching first character in front of an embedding of the rests. */
  lemma MatchUp(a: string, b: string, g: seq<int>)
    requires a != [] && b != [] && a[0] == b[0] && Embedding(a[1..], b[1..], g)
    ensures Embedding(a, b, [0] + Shifted(g, 1))
  {
    ShiftUp(a[1..], b, g);
  }

  /** An embedding without its first position embeds the rests. */
  lemma MatchDown(a: string, b: string, f: seq<int>)
    requires a != [] && b != [] && Embedding(a, b, f)
    ensures Embedding(a[1..], b[1..], Shifted(f[1..], -1))
  {
    var rest := f[1..];
    forall k | 0 <= k < |rest|
      ensures rest[k] >= 1
    {
      AfterFirst(a, b, f, k + 1);
    }
    assert Embedding(a[1..], b, rest);
    ShiftDown(a[1..], b, rest);
  }

  /**
   * When `b` starts with a character other than the first of `a`, that
   * character is of no use: `a` is a subsequence of `b` exactly when it is
   * one of `b[1..]`.
   */
  lemma SkipFirst(a: string, b: string)
    requires a != [] && b != [] && a[0] != b[0]
    ensures IsSubsequence(a, b) <==> IsSubsequence(a, b[1..])
  {
    if IsSubsequence(a, b[1..]) {
      var g :| Embedding(a, b[1..], g);
      ShiftUp(a, b, g);
    }
    if IsSubsequence(a, b) {
      var f :| Embedding(a, b, f);
      forall k | 0 <= k < |f|
        ensures f[k] >= 1
      {
        if k > 0 {
          AfterFirst(a, b, f, k);
        }
      }
      ShiftDown(a, b, f);
    }
  }

  /** A subsequence is never longer than the string it is taken from. */
  lemma NoLonger(a: string, b: string)
    requires IsSubsequence(a, b)
    ensures |a| <= |b|
  {
    var f :| Embedding(a, b, f);
    if |f| > 0 {
      AtLeastIndex(a, b, f, |f| - 1);
    }
  }

  /** The `k`-th position an embedding picks is at least `k`. */
  lemma {:induction false} AtLeastIndex(a: string, b: string, f: seq<int>, k: nat)
    requires Embedding(a, b, f) && k < |f|
    ensures f[k] >= k
  {
    if k > 0 {
      AtLeastIndex(a, b, f, k - 1);
    }
  }

  /**
   * `isSubSeq(s1, s2)`: true exactly when `s1` is a subsequence of `s2`;
   * an empty `s1` always is one.
   */
  method IsSubSeq(s1: string, s2: string) returns (r: bool)
    ensures r <==> IsSubsequence(s1, s2)
  {
    var n, m := |s1|, |s2|;
    var i, j := 0, 0;
    while i < n && j < m
      invariant 0 <= i <= n && 0 <= j <= m && i <= j
      invariant IsSubsequence(s1, s2) <==> IsSubsequence(s1[i..], s2[j..])
    {
      assert s1[i..][1..] == s1[i + 1..] && s2[j..][1..] == s2[j + 1..];
      if s1[i] == s2[j] {
        MatchFirst(s1[i..], s2[j..]);
        i := i + 1;
      } else {
        SkipFirst(s1[i..], s2[j..]);
      }
      j := j + 1;
    }
    if i == n {
      EmptyIsSubsequence(s2[j..]);
      assert s1[i..] == [];
    } else {
      assert s2[j..] == [];
      if IsSubsequence(s1[i..], s2[j..]) {
        NoLonger(s1[i..], s2[j..]);
      }
    }
    return i == n;
  }
}
