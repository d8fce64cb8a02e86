// Lomuto quick sort on a vector, in place (Recursion/QuickSort.cpp). Ranges
// are inclusive as in the source: `QuickSort(a, s, e)` sorts `a[s..e]`,
// written here as the half-open slice `a[s..e + 1]`.
module QuickSort {
  import opened SortedSeqs

  /**
   * What `partition(arr, s, e)` leaves behind in `after`: the old last
   * element of the range sits at `p`, everything before it in the range is
   * smaller, everything after it is at least as large, the range holds the
   * same elements and nothing outside it changed.
   */
  ghost predicate Partitioned(before: seq<int>, after: seq<int>, s: nat, e: nat, p: nat)
    requires s <= e < |before| == |after|
  {
    s <= p <= e && after[p] == before[e] &&
    (forall t :: s <= t < p ==> after[t] < after[p]) &&
    (forall t :: p < t <= e ==> after[p] <= after[t]) &&
    multiset(after[s..e + 1]) == multiset(before[s..e + 1]) &&
    after[..s] == before[..s] && after[e + 1..] == before[e + 1..]
  }

  /**
   * `partition(arr, s, e)` with `pivot = arr[e]`: cells smaller than the
   * pivot are swapped down behind `i`, then the pivot is swapped into
   * `i + 1`, which is returned.
   */
  method Partition(a: array<int>, s: int, e: int) returns (p: int)
    requires 0 <= s <= e < a.Length
    modifies a
    ensures s <= p <= e && Partitioned(old(a[..]), a[..], s, e, p)
  {
    ghost var A := a[..];
    var pivot := a[e];
    var i := s - 1;
    for j := s to e
      invariant s - 1 <= i < j
      invariant a[e] == pivot
      invariant forall t :: s <= t <= i ==> a[t] < pivot
      invariant forall t :: i < t < j ==> pivot <= a[t]
      invariant multiset(a[..]) == multiset(A)
      invariant forall t :: 0 <= t < a.Length && (t < s || e < t) ==> a[t] == A[t]
    {
      if a[j] < pivot {
        i := i + 1;
        Swap(a, j, i);
      }
    }
    Swap(a, i + 1, e);
    p := i + 1;
    PivotPlaced(A, a[..], s, e, p);
  }

  /**
   * The last swap of `partition`: once the pivot is at `p`, with smaller
   * cells before it and larger or equal ones after it in the range, and
   * only the range permuted, the range is partitioned.
   */
  lemma PivotPlaced(A: seq<int>, C: seq<int>, s: nat, e: nat, p: nat)
    requires s <= p <= e < |A| == |C| && multiset(C) == multiset(A)
    requires C[p] == A[e]
    requires forall t :: s <= t < p ==> C[t] < A[e]
    requires forall t :: p < t <= e ==> A[e] <= C[t]
    requires forall t :: 0 <= t < |C| && (t < s || e < t) ==> C[t] == A[t]
    ensures Partitioned(A, C, s, e, p)
  {
    assert C[..s] == A[..s];
    assert C[e + 1..] == A[e + 1..];
    RangePermuted(C, A, s, e + 1);
  }
  /**
   * `quickSort(arr, s, e)`: sorts `a[s..e]` in place as a permutation of
   * its old contents; `s >= e` returns at once.
   */
  method QuickSort(a: array<int>, s: int, e: int)
    requires s >= e || (0 <= s && e < a.Length)
    modifies a
    ensures s < e ==> SortedRun(old(a[..]), a[..], s, e + 1)
    ensures s >= e ==> a[..] == old(a[..])
    decreases e - s
  {
    if s >= e {
      return;
    }
    ghost var a0 := a[..];
    var p := Partition(a, s, e);
    ghost var a1 := a[..];
    QuickSort(a, s, p - 1);
    ghost var a2 := a[..];
    if s >= p - 1 {
      ShortRun(a2, s, p);
    }
    QuickSort(a, p + 1, e);
    ghost var a3 := a[..];
    if p + 1 >= e {
      ShortRun(a3, p + 1, e + 1);
    }
    QuickStep(a0, a1, a2, a3, s, p, e);
  }

  /**
   * Why `quickSort` works: the sorted part before the pivot holds only
   * smaller elements and the sorted part after it only larger or equal
   * ones, so the whole range is sorted; each step only permutes the range.
   */
  lemma QuickStep(a0: seq<int>, a1: seq<int>, a2: seq<int>, a3: seq<int>, s: nat, p: nat, e: nat)
    requires s <= p <= e < |a0| == |a1| == |a2| == |a3|
    requires Partitioned(a0, a1, s, e, p)
    requires SortedRun(a1, a2, s, p) && SortedRun(a2, a3, p + 1, e + 1)
    ensures SortedRun(a0, a3, s, e + 1)
  {
    Untouched(a1, a2, a3, s, p, e);
    JoinAround(a1, s, p, e, a3[s..p], a3[p + 1..e + 1]);
    AroundPivot(a3, s, p, e);
  }

  /** A range is what lies before a cell, the cell, and what lies after it. */
  lemma AroundPivot(x: seq<int>, s: nat, p: nat, e: nat)
    requires s <= p <= e < |x|
    ensures x[s..e + 1] == x[s..p] + [x[p]] + x[p + 1..e + 1]
  {
  }

  /**
   * What the recursive calls leave alone: the first one writes only before
   * the pivot and the second only after it.
   */
  lemma Untouched(a1: seq<int>, a2: seq<int>, a3: seq<int>, s: nat, p: nat, e: nat)
    requires s <= p <= e < |a1| == |a2| == |a3|
    requires a2[..s] == a1[..s] && a2[p..] == a1[p..]
    requires a3[..p + 1] == a2[..p + 1] && a3[e + 1..] == a2[e + 1..]
    ensures a3[s..p] == a2[s..p] && a3[p] == a1[p] && a2[p + 1..e + 1] == a1[p + 1..e + 1]
    ensures a3[..s] == a1[..s] && a3[e + 1..] == a1[e + 1..]
  {
    PrefixSlice(a3, a2, s, p, p + 1);
    PrefixSlice(a3, a2, s, s, p + 1);
    PrefixSlice(a3, a2, p, p + 1, p + 1);
    SuffixSlice(a2, a1, p, p, p + 1);
    SuffixSlice(a2, a1, p, p + 1, e + 1);
    SuffixSlice(a2, a1, p, e + 1, e + 1);
    assert a3[p] == a3[p..p + 1][0] && a2[p] == a2[p..p + 1][0] && a1[p] == a1[p..p + 1][0];
  }

  /**
   * Sorted arrangements of the two sides of a partition, around the pivot,
   * sort the partitioned range.
   */
  lemma JoinAround(a1: seq<int>, s: nat, p: nat, e: nat, l: seq<int>, r: seq<int>)
    requires s <= p <= e < |a1|
    requires forall t :: s <= t < p ==> a1[t] < a1[p]
    requires forall t :: p < t <= e ==> a1[p] <= a1[t]
    requires Sorted(l) && multiset(l) == multiset(a1[s..p])
    requires Sorted(r) && multiset(r) == multiset(a1[p + 1..e + 1])
    ensures Sorted(l + [a1[p]] + r) && multiset(l + [a1[p]] + r) == multiset(a1[s..e + 1])
  {
    var left, right := a1[s..p], a1[p + 1..e + 1];
    assert forall t :: 0 <= t < |left| ==> left[t] == a1[s + t];
    assert forall t :: 0 <= t < |right| ==> right[t] == a1[p + 1 + t];
    BelowCarries(left, l, a1[p]);
    AtLeastCarries(right, r, a1[p]);
    SortedAround(l, a1[p], r);
    AroundPivot(a1, s, p, e);
  }

  /** A sorted run of smaller elements, a middle one, and a sorted run of larger or equal ones. */
  lemma SortedAround(l: seq<int>, m: int, r: seq<int>)
    requires Sorted(l) && Sorted(r)
    requires forall t :: 0 <= t < |l| ==> l[t] < m
    requires forall t :: 0 <= t < |r| ==> m <= r[t]
    ensures Sorted(l + [m] + r)
  {
    var w := l + [m] + r;
    forall i, j | 0 <= i < j < |w|
      ensures w[i] <= w[j]
    {
      if j < |l| {
      } else if i < |l| {
        assert w[i] == l[i];
        if j > |l| {
          assert w[j] == r[j - |l| - 1];
        }
      } else if i == |l| {
        assert w[j] == r[j - |l| - 1];
      } else {
        assert w[i] == r[i - |l| - 1] && w[j] == r[j - |l| - 1];
      }
    }
  }

  /**
   * `sort(v.begin(), v.end())` of the standard library, as the routines
   * that sort their input first use it, modelled by `quickSort` on the
   * whole vector.
   */
  method SortWhole(a: array<int>)
    modifies a
    ensures Sorted(a[..]) && multiset(a[..]) == multiset(old(a[..]))
  {
    QuickSort(a, 0, a.Length - 1);
    if a.Length > 1 {
      assert a[0..a.Length] == a[..];
      assert old(a[..])[0..a.Length] == old(a[..]);
    }
  }

  /** The source's demonstration: `{38, 27, 43, 3, 9, 82, 10}` comes out ascending. */
  method Demo() returns (r: seq<int>)
    ensures r == [3, 9, 10, 27, 38, 43, 82]
  {
    var a := new int[7];
    a[0], a[1], a[2], a[3], a[4], a[5], a[6] := 38, 27, 43, 3, 9, 82, 10;
    assert a[..] == [38, 27, 43, 3, 9, 82, 10];
    assert a[0..7] == a[..];
    QuickSort(a, 0, a.Length - 1);
    r := a[..];
    assert r == a[0..7];
    SamplePermutation();
    SampleSorted();
    SortedUnique(r, [3, 9, 10, 27, 38, 43, 82]);
  }
}
