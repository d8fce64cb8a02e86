// Facts about sorted sequences and permutations shared by the sorting
// routines and by the routines that sort their input first.
module SortedSeqs {

  /** Ascending order (repeats allowed). */
  ghost predicate Sorted(s: seq<int>)
  {
    forall i, j :: 0 <= i < j < |s| ==> s[i] <= s[j]
  }

  /** Strictly ascending order: sorted and without repeats. */
  ghost predicate StrictlyIncreasing(s: seq<int>)
  {
    forall i, j :: 0 <= i < j < |s| ==> s[i] < s[j]
  }

  /** Sorted from one step to the next is sorted. */
  lemma {:induction false} SortedFromAdjacent(s: seq<int>)
    requires forall i :: 0 < i < |s| ==> s[i - 1] <= s[i]
    ensures Sorted(s)
  {
    if |s| > 1 {
      var t := s[..|s| - 1];
      SortedFromAdjacent(t);
      forall i, j | 0 <= i < j < |s|
        ensures s[i] <= s[j]
      {
        assert s[i] == t[i];
        if j < |s| - 1 {
          assert s[j] == t[j];
        } else if i < j - 1 {
          assert t[i] <= t[j - 1];
        }
      }
    }
  }

  /** Two sorted arrangements of the same elements are the same sequence. */
  lemma {:induction false} SortedUnique(x: seq<int>, y: seq<int>)
    requires Sorted(x) && Sorted(y) && multiset(x) == multiset(y)
    ensures x == y
  {
    if x == [] {
      assert |multiset(y)| == 0;
    } else {
      SameHeads(x, y);
      SortedUnique(x[1..], y[1..]);
      assert x == [x[0]] + x[1..];
    }
  }

  /** Sorted arrangements of the same elements start alike and go on alike. */
  lemma SameHeads(x: seq<int>, y: seq<int>)
    requires Sorted(x) && Sorted(y) && multiset(x) == multiset(y) && x != []
    ensures y != [] && x[0] == y[0]
    ensures Sorted(x[1..]) && Sorted(y[1..]) && multiset(x[1..]) == multiset(y[1..])
  {
    assert x[0] in multiset(y);
    assert y[0] in multiset(y);
    // Both heads are the minimum of the common multiset.
    SortedHeadBelow(x, y[0]);
    SortedHeadBelow(y, x[0]);
    SortedTail(x);
    SortedTail(y);
    TailMultiset(x);
    TailMultiset(y);
  }

  /** The head of a sorted sequence is at most each of its elements. */
  lemma SortedHeadBelow(x: seq<int>, v: int)
    requires Sorted(x) && v in multiset(x)
    ensures x != [] && x[0] <= v
  {
    var j :| 0 <= j < |x| && x[j] == v;
  }

  /** The elements of the tail are those of the whole minus the head. */
  lemma TailMultiset(x: seq<int>)
    requires x != []
    ensures multiset(x[1..]) == multiset(x) - multiset{x[0]}
  {
    assert x == [x[0]] + x[1..];
  }

  lemma SortedTail(s: seq<int>)
    requires Sorted(s) && s != []
    ensures Sorted(s[1..])
  {
    forall i, j | 0 <= i < j < |s| - 1
      ensures s[1..][i] <= s[1..][j]
    {
      assert s[1..][i] == s[i + 1] && s[1..][j] == s[j + 1];
    }
  }

  /** Every suffix of a sorted sequence is sorted. */
  lemma SortedSuffix(x: seq<int>, i: nat)
    requires i <= |x| && Sorted(x)
    ensures Sorted(x[i..])
  {
    assert forall p :: 0 <= p < |x| - i ==> x[i..][p] == x[i + p];
  }

  /** A permutation keeps an upper bound that holds for all elements. */
  lemma BelowCarries(x: seq<int>, y: seq<int>, b: int)
    requires multiset(x) == multiset(y)
    requires forall i :: 0 <= i < |x| ==> x[i] < b
    ensures forall i :: 0 <= i < |y| ==> y[i] < b
  {
    forall i | 0 <= i < |y|
      ensures y[i] < b
    {
      assert y[i] in multiset(x) by {
        assert y[i] in multiset(y);
      }
    }
  }

  /** A permutation keeps a lower bound that holds for all elements. */
  lemma AtLeastCarries(x: seq<int>, y: seq<int>, b: int)
    requires multiset(x) == multiset(y)
    requires forall i :: 0 <= i < |x| ==> b <= x[i]
    ensures forall i :: 0 <= i < |y| ==> b <= y[i]
  {
    forall i | 0 <= i < |y|
      ensures b <= y[i]
    {
      assert y[i] in multiset(x) by {
        assert y[i] in multiset(y);
      }
    }
  }

  /** Where an element of a permutation came from. */
  lemma Origin(x: seq<int>, y: seq<int>, p: nat) returns (q: nat)
    requires multiset(x) == multiset(y) && p < |x|
    ensures q < |y| && y[q] == x[p]
  {
    assert x[p] in multiset(y) by {
      assert x[p] in multiset(x);
    }
    q :| q < |y| && y[q] == x[p];
  }

  /**
   * What an in-place sort of the half-open range `lo..hi` promises: `after`
   * holds the old run `before[lo..hi]` in ascending order and agrees with
   * `before` outside it.
   */
  ghost predicate SortedRun(before: seq<int>, after: seq<int>, lo: nat, hi: nat)
    requires lo <= hi <= |before| == |after|
  {
    Sorted(after[lo..hi]) && multiset(after[lo..hi]) == multiset(before[lo..hi]) &&
    after[..lo] == before[..lo] && after[hi..] == before[hi..]
  }

  /** A run of at most one element that was left alone is a sorted run. */
  lemma ShortRun(a: seq<int>, lo: nat, hi: nat)
    requires lo <= hi <= |a| && hi - lo <= 1
    ensures SortedRun(a, a, lo, hi)
  {
  }

  /**
   * Changing only the cells `lo..hi` by a permutation of them permutes the
   * whole sequence.
   */
  lemma PermutedRange(x: seq<int>, y: seq<int>, lo: nat, hi: nat)
    requires lo <= hi <= |x| == |y|
    requires x[..lo] == y[..lo] && x[hi..] == y[hi..]
    requires multiset(x[lo..hi]) == multiset(y[lo..hi])
    ensures multiset(x) == multiset(y)
  {
    assert x == x[..lo] + x[lo..hi] + x[hi..];
    assert y == y[..lo] + y[lo..hi] + y[hi..];
  }

  /** Agreement on a prefix is agreement on every slice inside it. */
  lemma PrefixSlice(x: seq<int>, y: seq<int>, lo: nat, hi: nat, n: nat)
    requires lo <= hi <= n <= |x| && n <= |y| && x[..n] == y[..n]
    ensures x[lo..hi] == y[lo..hi] && x[..lo] == y[..lo]
  {
    forall k | 0 <= k < hi
      ensures x[k] == y[k]
    {
      assert x[k] == x[..n][k] && y[k] == y[..n][k];
    }
    assert x[lo..hi] == y[lo..hi];
    assert x[..lo] == y[..lo];
  }

  /** Agreement on a suffix is agreement on every slice inside it. */
  lemma SuffixSlice(x: seq<int>, y: seq<int>, n: nat, lo: nat, hi: nat)
    requires n <= lo <= hi <= |x| == |y| && x[n..] == y[n..]
    ensures x[lo..hi] == y[lo..hi] && x[hi..] == y[hi..]
  {
    forall k | lo <= k < hi
      ensures x[k] == y[k]
    {
      assert x[k] == x[n..][k - n] && y[k] == y[n..][k - n];
    }
    forall k | hi <= k < |x|
      ensures x[k] == y[k]
    {
      assert x[k] == x[n..][k - n] && y[k] == y[n..][k - n];
    }
    assert x[lo..hi] == y[lo..hi];
    assert x[hi..] == y[hi..];
  }

  /** The elements of a slice are those of its two parts. */
  lemma SplitMultiset(x: seq<int>, lo: nat, m: nat, hi: nat)
    requires lo <= m <= hi <= |x|
    ensures multiset(x[lo..hi]) == multiset(x[lo..m]) + multiset(x[m..hi])
  {
    assert x[lo..hi] == x[lo..m] + x[m..hi];
  }

  /**
   * The converse of `PermutedRange`: a permutation of the whole that keeps
   * the cells outside `lo..hi` permutes the range.
   */
  lemma RangePermuted(x: seq<int>, y: seq<int>, lo: nat, hi: nat)
    requires lo <= hi <= |x| == |y|
    requires x[..lo] == y[..lo] && x[hi..] == y[hi..]
    requires multiset(x) == multiset(y)
    ensures multiset(x[lo..hi]) == multiset(y[lo..hi])
  {
    assert x == x[..lo] + x[lo..hi] + x[hi..];
    assert y == y[..lo] + y[lo..hi] + y[hi..];
    assert multiset(x[lo..hi]) == multiset(x) - multiset(x[..lo]) - multiset(x[hi..]);
    assert multiset(y[lo..hi]) == multiset(y) - multiset(y[..lo]) - multiset(y[hi..]);
  }

  /** Swapping two cells keeps the elements. */
  lemma SwapPermutes(x: seq<int>, i: nat, j: nat)
    requires i < |x| && j < |x|
    ensures multiset(x[i := x[j]][j := x[i]]) == multiset(x)
  {
  }

  /** `swap(arr[i], arr[j])`: exchanges exactly the two cells, keeping the elements. */
  method Swap(a: array<int>, i: int, j: int)
    requires 0 <= i < a.Length && 0 <= j < a.Length
    modifies a
    ensures a[i] == old(a[j]) && a[j] == old(a[i])
    ensures forall t :: 0 <= t < a.Length && t != i && t != j ==> a[t] == old(a[t])
    ensures a[..] == old(a[..])[i := old(a[j])][j := old(a[i])]
    ensures multiset(a[..]) == multiset(old(a[..]))
  {
    SwapPermutes(a[..], i, j);
    a[i], a[j] := a[j], a[i];
    assert a[..] == old(a[..])[i := old(a[j])][j := old(a[i])];
  }

  /** The sample that both sorting demonstrations sort, and its ascending arrangement. */
  lemma SamplePermutation()
    ensures multiset([38, 27, 43, 3, 9, 82, 10]) == multiset([3, 9, 10, 27, 38, 43, 82])
  {
    assert multiset([38, 27, 43, 3, 9, 82, 10]) == multiset{38, 27, 43, 3, 9, 82, 10};
    assert multiset{38, 27, 43, 3, 9, 82, 10} == multiset{3, 9, 10, 27, 38, 43, 82};
    assert multiset{3, 9, 10, 27, 38, 43, 82} == multiset([3, 9, 10, 27, 38, 43, 82]);
  }

  lemma SampleSorted()
    ensures Sorted([3, 9, 10, 27, 38, 43, 82])
  {
  }
}
