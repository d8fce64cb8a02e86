// Top-down merge sort on a vector, in place (Sort/MergeSort.cpp). Ranges
// are inclusive as in the source: `Merge(a, s, mid, e)` merges the sorted
// runs `a[s..mid]` and `a[mid+1..e]`, written here as the half-open slices
// `a[s..mid + 1]` and `a[mid + 1..e + 1]`.
module MergeSort {
  import opened SortedSeqs

  /**
   * The merge that the loops of `merge` produce from `x[i..]` and `y[j..]`:
   * the smaller head goes first, and on a tie the left head does, which is
   * what makes the sort stable.
   */
  function MergeFrom(x: seq<int>, y: seq<int>, i: nat, j: nat): (r: seq<int>)
    requires i <= |x| && j <= |y|
    ensures |r| == |x| - i + |y| - j
    decreases |x| - i + |y| - j
  {
    if i == |x| then y[j..]
    else if j == |y| then x[i..]
    else if x[i] <= y[j] then [x[i]] + MergeFrom(x, y, i + 1, j)
    else [y[j]] + MergeFrom(x, y, i, j + 1)
  }

  /** One step of the merge loops: the next output and what remains to merge. */
  lemma MergeStep(m: seq<int>, x: seq<int>, y: seq<int>, i: nat, j: nat)
    requires i <= |x| && j <= |y| && (i < |x| || j < |y|)
    requires i + j <= |m| && m[i + j..] == MergeFrom(x, y, i, j)
    ensures i + j < |m|
    ensures i < |x| && (j == |y| || x[i] <= y[j]) ==> m[i + j] == x[i] && m[i + j + 1..] == MergeFrom(x, y, i + 1, j)
    ensures j < |y| && (i == |x| || x[i] > y[j]) ==> m[i + j] == y[j] && m[i + j + 1..] == MergeFrom(x, y, i, j + 1)
  {
    assert m[i + j + 1..] == m[i + j..][1..];
    if i < |x| && j == |y| {
      assert x[i..] == [x[i]] + x[i + 1..];
    } else if i == |x| {
      assert y[j..] == [y[j]] + y[j + 1..];
    }
  }

  /** A sequence that holds `m` at `s..k` and `A` elsewhere, as slices. */
  lemma Written(cur: seq<int>, A: seq<int>, m: seq<int>, s: nat, k: nat)
    requires |cur| == |A| && s + |m| == k <= |A|
    requires forall t :: 0 <= t < |cur| ==> cur[t] == if s <= t < k then m[t - s] else A[t]
    ensures cur[s..k] == m && cur[..s] == A[..s] && cur[k..] == A[k..]
  {
  }

  /** Merging keeps every element, with its multiplicity. */
  lemma {:induction false} MergePermutes(x: seq<int>, y: seq<int>, i: nat, j: nat)
    requires i <= |x| && j <= |y|
    ensures multiset(MergeFrom(x, y, i, j)) == multiset(x[i..]) + multiset(y[j..])
    decreases |x| - i + |y| - j
  {
    if i == |x| {
      assert x[i..] == [];
    } else if j == |y| {
      assert y[j..] == [];
    } else if x[i] <= y[j] {
      MergePermutes(x, y, i + 1, j);
      ConsPermutes(x, i, MergeFrom(x, y, i + 1, j), multiset(y[j..]));
    } else {
      MergePermutes(x, y, i, j + 1);
      ConsPermutes(y, j, MergeFrom(x, y, i, j + 1), multiset(x[i..]));
    }
  }

  /** Taking the head of `x[i..]` in front of an arrangement of the rest. */
  lemma ConsPermutes(x: seq<int>, i: nat, r: seq<int>, rest: multiset<int>)
    requires i < |x| && multiset(r) == multiset(x[i + 1..]) + rest
    ensures multiset([x[i]] + r) == multiset(x[i..]) + rest
  {
    assert x[i..] == [x[i]] + x[i + 1..];
  }

  /** The merge of two sorted sequences is sorted. */
  lemma {:induction false} MergeSorted(x: seq<int>, y: seq<int>, i: nat, j: nat)
    requires i <= |x| && j <= |y| && Sorted(x) && Sorted(y)
    ensures Sorted(MergeFrom(x, y, i, j))
    decreases |x| - i + |y| - j
  {
    if i == |x| {
      SortedSuffix(y, j);
    } else if j == |y| {
      SortedSuffix(x, i);
    } else if x[i] <= y[j] {
      MergeSorted(x, y, i + 1, j);
      MergePermutes(x, y, i + 1, j);
      HeadBelow(x[i], x[i + 1..], y[j..], MergeFrom(x, y, i + 1, j));
    } else {
      MergeSorted(x, y, i, j + 1);
      MergePermutes(x, y, i, j + 1);
      HeadBelow(y[j], x[i..], y[j + 1..], MergeFrom(x, y, i, j + 1));
    }
  }

  /** Putting a lower bound of both inputs in front of a sorted merge keeps it sorted. */
  lemma HeadBelow(h: int, x: seq<int>, y: seq<int>, t: seq<int>)
    requires Sorted(t) && multiset(t) == multiset(x) + multiset(y)
    requires forall i :: 0 <= i < |x| ==> h <= x[i]
    requires forall i :: 0 <= i < |y| ==> h <= y[i]
    ensures Sorted([h] + t)
  {
    forall k | 0 <= k < |t|
      ensures h <= t[k]
    {
      assert t[k] in multiset(x) + multiset(y) by {
        assert t[k] in multiset(t);
      }
      if t[k] in multiset(x) {
        var i :| 0 <= i < |x| && x[i] == t[k];
      } else {
        assert t[k] in multiset(y);
        var i :| 0 <= i < |y| && y[i] == t[k];
      }
    }
    var r := [h] + t;
    forall i, j | 0 <= i < j < |r|
      ensures r[i] <= r[j]
    {
      if i > 0 {
        assert r[i] == t[i - 1] && r[j] == t[j - 1];
      } else {
        assert r[j] == t[j - 1];
      }
    }
  }

  /**
   * `merge(arr, s, mid, e)`: copies the two runs into temporaries and
   * writes their merge back over `a[s..e]`; nothing else changes.
   */
  method Merge(a: array<int>, s: int, mid: int, e: int)
    requires 0 <= s <= mid + 1 <= e + 1 <= a.Length
    modifies a
    ensures a[s..e + 1] == MergeFrom(old(a[s..mid + 1]), old(a[mid + 1..e + 1]), 0, 0)
    ensures a[..s] == old(a[..s]) && a[e + 1..] == old(a[e + 1..])
  {
    var n1 := mid - s + 1;
    var n2 := e - mid;
    // The temporaries are values, filled in order: only `a` is written in place.
    var leftArr: seq<int> := [];
    var rightArr: seq<int> := [];
    for i := 0 to n1
      invariant leftArr == a[s..s + i]
    {
      leftArr := leftArr + [a[s + i]];
    }
    for j := 0 to n2
      invariant rightArr == a[mid + 1..mid + 1 + j]
    {
      rightArr := rightArr + [a[mid + 1 + j]];
    }
    MergeBack(a, s, leftArr, rightArr);
  }

  /**
   * The three loops of `merge`: while both runs have elements the smaller
   * head (the left one on a tie) is written at `k`, then what is left of
   * either run is copied.
   */
  method MergeBack(a: array<int>, s: int, leftArr: seq<int>, rightArr: seq<int>)
    requires 0 <= s && s + |leftArr| + |rightArr| <= a.Length
    modifies a
    ensures a[s..s + |leftArr| + |rightArr|] == MergeFrom(leftArr, rightArr, 0, 0)
    ensures a[..s] == old(a[..s])
    ensures a[s + |leftArr| + |rightArr|..] == old(a[s + |leftArr| + |rightArr|..])
  {
    var n1, n2 := |leftArr|, |rightArr|;
    ghost var m := MergeFrom(leftArr, rightArr, 0, 0);
    ghost var A := a[..];
    var i, j, k := 0, 0, s;
    while i < n1 && j < n2
      invariant 0 <= i <= n1 && 0 <= j <= n2 && k == s + i + j
      invariant m[i + j..] == MergeFrom(leftArr, rightArr, i, j)
      invariant forall t :: 0 <= t < a.Length ==> a[t] == if s <= t < k then m[t - s] else A[t]
    {
      MergeStep(m, leftArr, rightArr, i, j);
      if leftArr[i] <= rightArr[j] {
        a[k] := leftArr[i];
        k, i := k + 1, i + 1;
      } else {
        a[k] := rightArr[j];
        k, j := k + 1, j + 1;
      }
    }
    MergeRest(a, s, leftArr, rightArr, m, i, j);
    Written(a[..], A, m, s, s + n1 + n2);
  }

  /**
   * The last two loops of `merge`: once one run is used up, the rest of the
   * other is copied behind what has been written.
   */
  method MergeRest(a: array<int>, s: int, leftArr: seq<int>, rightArr: seq<int>, ghost m: seq<int>, i0: int, j0: int)
    requires 0 <= s && 0 <= i0 <= |leftArr| && 0 <= j0 <= |rightArr| && (i0 == |leftArr| || j0 == |rightArr|)
    requires s + |leftArr| + |rightArr| <= a.Length && |m| == |leftArr| + |rightArr|
    requires m[i0 + j0..] == MergeFrom(leftArr, rightArr, i0, j0)
    modifies a
    ensures forall t :: 0 <= t < a.Length ==>
      a[t] == if s + i0 + j0 <= t < s + |m| then m[t - s] else old(a[t])
  {
    var n1, n2 := |leftArr|, |rightArr|;
    var i, j, k := i0, j0, s + i0 + j0;
    while i < n1
      invariant i0 <= i <= n1 && j == j0 && k == s + i + j
      invariant i < n1 ==> j == n2
      invariant m[i + j..] == MergeFrom(leftArr, rightArr, i, j)
      invariant forall t :: 0 <= t < a.Length ==> a[t] == if s + i0 + j0 <= t < k then m[t - s] else old(a[t])
    {
      MergeStep(m, leftArr, rightArr, i, j);
      a[k] := leftArr[i];
      k, i := k + 1, i + 1;
    }
    while j < n2
      invariant j0 <= j <= n2 && i == n1 && k == s + i + j
      invariant m[i + j..] == MergeFrom(leftArr, rightArr, i, j)
      invariant forall t :: 0 <= t < a.Length ==> a[t] == if s + i0 + j0 <= t < k then m[t - s] else old(a[t])
    {
      MergeStep(m, leftArr, rightArr, i, j);
      a[k] := rightArr[j];
      k, j := k + 1, j + 1;
    }
  }

  /**
   * `mergeSort(arr, s, e)`: sorts `a[s..e]` in place as a permutation of
   * its old contents; `s >= e` returns at once.
   */
  method MergeSort(a: array<int>, s: int, e: int)
    requires s >= e || (0 <= s && e < a.Length)
    modifies a
    ensures s < e ==> SortedRun(old(a[..]), a[..], s, e + 1)
    ensures s >= e ==> a[..] == old(a[..])
    decreases e - s
  {
    if s >= e {
      return;
    }
    var mid := s + (e - s) / 2;
    ghost var a0 := a[..];
    MergeSort(a, s, mid);
    ghost var a1 := a[..];
    if s == mid {
      ShortRun(a1, s, s + 1);
    }
    MergeSort(a, mid + 1, e);
    ghost var a2 := a[..];
    if mid + 1 == e {
      ShortRun(a2, e, e + 1);
    }
    Merge(a, s, mid, e);
    SortStep(a0, a1, a2, a[..], s, mid, e);
  }

  /**
   * Why `mergeSort` works: two sorted halves, each a permutation of the
   * old half, merge into a sorted permutation of the old range, and the
   * cells outside the range are never touched.
   */
  lemma SortStep(a0: seq<int>, a1: seq<int>, a2: seq<int>, a3: seq<int>, s: nat, mid: nat, e: nat)
    requires s <= mid < e < |a0| == |a1| == |a2| == |a3|
    requires SortedRun(a0, a1, s, mid + 1) && SortedRun(a1, a2, mid + 1, e + 1)
    requires a3[s..e + 1] == MergeFrom(a2[s..mid + 1], a2[mid + 1..e + 1], 0, 0)
    requires a3[..s] == a2[..s] && a3[e + 1..] == a2[e + 1..]
    ensures SortedRun(a0, a3, s, e + 1)
  {
    // The left half as the second call left it is the left half the first call produced.
    PrefixSlice(a2, a1, s, mid + 1, mid + 1);
    // The right half as the first call left it is the old right half.
    SuffixSlice(a1, a0, mid + 1, mid + 1, e + 1);
    MergedRange(a0[s..mid + 1], a0[mid + 1..e + 1], a2[s..mid + 1], a2[mid + 1..e + 1], a3[s..e + 1]);
    SplitMultiset(a0, s, mid + 1, e + 1);
    // Outside the range, each call kept what the previous state had.
    PrefixSlice(a2, a1, s, s, mid + 1);
    SuffixSlice(a1, a0, mid + 1, e + 1, e + 1);
  }

  /** Merging sorted arrangements of two runs arranges both runs. */
  lemma MergedRange(x: seq<int>, y: seq<int>, left: seq<int>, right: seq<int>, merged: seq<int>)
    requires Sorted(left) && multiset(left) == multiset(x)
    requires Sorted(right) && multiset(right) == multiset(y)
    requires merged == MergeFrom(left, right, 0, 0)
    ensures Sorted(merged) && multiset(merged) == multiset(x) + multiset(y)
  {
    MergeSorted(left, right, 0, 0);
    MergePermutes(left, right, 0, 0);
    assert left[0..] == left && right[0..] == right;
  }

  /** The source's demonstration: `{38, 27, 43, 3, 9, 82, 10}` comes out ascending. */
  method Demo() returns (r: seq<int>)
    ensures r == [3, 9, 10, 27, 38, 43, 82]
  {
    var a := new int[7];
    a[0], a[1], a[2], a[3], a[4], a[5], a[6] := 38, 27, 43, 3, 9, 82, 10;
    assert a[..] == [38, 27, 43, 3, 9, 82, 10];
    assert a[0..7] == a[..];
    MergeSort(a, 0, a.Length - 1);
    r := a[..];
    assert r == a[0..7];
    SamplePermutation();
    SampleSorted();
    SortedUnique(r, [3, 9, 10, 27, 38, 43, 82]);
  }
}
