// The exchange sort of Sort/Bubblesort.cpp, in place. Pass `i` compares
// `arr[i]` with every later cell and swaps whenever `arr[i]` is larger, so
// that it leaves the least remaining element at `i`; a pass that swaps
// nothing ends the sort. That early exit is only sound for a bubble sort
// of adjacent cells: here a pass without swaps says nothing about the
// cells after `i`, and the sort can stop unsorted. `BubbleSort` models the
// code as written; `ExchangeSort` is the same sort without the early exit.
module BubbleSort {
  import opened SortedSeqs

  /**
   * The inner loop of pass `i` from `j` on: the cells after it, and
   * whether it swapped at all.
   */
  function PassFrom(s: seq<int>, i: nat, j: nat): (r: (seq<int>, bool))
    requires i < j <= |s|
    ensures |r.0| == |s|
    decreases |s| - j
  {
    if j == |s| then (s, false)
    else if s[i] > s[j] then (PassFrom(s[i := s[j]][j := s[i]], i, j + 1).0, true)
    else PassFrom(s, i, j + 1)
  }

  /**
   * The outer loop as written, from pass `i` on: the final cells and the
   * pass that found nothing to swap and broke out (`|s|` when the loop ran
   * to its end, which happens only for an empty vector).
   */
  function SortFrom(s: seq<int>, i: nat): (r: (seq<int>, nat))
    requires i <= |s|
    ensures |r.0| == |s| && i <= r.1 <= |s|
    decreases |s| - i
  {
    if i == |s| then (s, |s|)
    else
      var (t, swapped) := PassFrom(s, i, i + 1);
      if !swapped then (t, i) else SortFrom(t, i + 1)
  }

  /** The outer loop without the early exit: every pass runs. */
  function SortAll(s: seq<int>, i: nat): (r: seq<int>)
    requires i <= |s|
    ensures |r| == |s|
    decreases |s| - i
  {
    if i == |s| then s else SortAll(PassFrom(s, i, i + 1).0, i + 1)
  }

  /**
   * The cells before `i` are in their final order: they are sorted and
   * none is larger than a cell from `i` on.
   */
  ghost predicate Settled(s: seq<int>, i: nat)
    requires i <= |s|
  {
    (forall k, l :: 0 <= k < l < i ==> s[k] <= s[l]) &&
    (forall k, l :: 0 <= k < i <= l < |s| ==> s[k] <= s[l])
  }

  /** A pass only swaps, so it keeps the elements, and it never touches the cells before `i`. */
  lemma {:induction false} PassPermutes(s: seq<int>, i: nat, j: nat)
    requires i < j <= |s|
    ensures multiset(PassFrom(s, i, j).0) == multiset(s)
    ensures forall t :: 0 <= t < i ==> PassFrom(s, i, j).0[t] == s[t]
    decreases |s| - j
  {
    if j < |s| {
      if s[i] > s[j] {
        var u := s[i := s[j]][j := s[i]];
        PassPermutes(u, i, j + 1);
        SwapPermutes(s, i, j);
      } else {
        PassPermutes(s, i, j + 1);
      }
    }
  }

  /** A pass that swaps nothing leaves the cells as they are. */
  lemma {:induction false} PassWithoutSwap(s: seq<int>, i: nat, j: nat)
    requires i < j <= |s| && !PassFrom(s, i, j).1
    ensures PassFrom(s, i, j).0 == s
    decreases |s| - j
  {
    if j < |s| {
      PassWithoutSwap(s, i, j + 1);
    }
  }

  /**
   * Once `s[i]` is no larger than the cells `i + 1..j`, the rest of the pass
   * leaves at `i` a value no larger than any later cell.
   */
  lemma {:induction false} PassLeavesLeast(s: seq<int>, i: nat, j: nat)
    requires i < j <= |s|
    requires forall t :: i < t < j ==> s[i] <= s[t]
    ensures forall t :: i < t < |s| ==> PassFrom(s, i, j).0[i] <= PassFrom(s, i, j).0[t]
    decreases |s| - j
  {
    if j < |s| {
      if s[i] > s[j] {
        var u := s[i := s[j]][j := s[i]];
        PassLeavesLeast(u, i, j + 1);
      } else {
        PassLeavesLeast(s, i, j + 1);
      }
    }
  }

  /** A whole pass `i` turns cells settled up to `i` into cells settled up to `i + 1`. */
  lemma PassSettles(s: seq<int>, i: nat)
    requires i < |s| && Settled(s, i)
    ensures Settled(PassFrom(s, i, i + 1).0, i + 1)
  {
    var r := PassFrom(s, i, i + 1).0;
    PassPermutes(s, i, i + 1);
    PassLeavesLeast(s, i, i + 1);
    assert r[..i] == s[..i];
    // The cells from `i` on are a permutation of the old ones.
    RangePermuted(r, s, i, |s|);
    assert r[i..] == r[i..|s|] && s[i..] == s[i..|s|];
    forall k, l | 0 <= k < i <= l < |r|
      ensures r[k] <= r[l]
    {
      var m := Origin(r[i..], s[i..], l - i);
      assert s[k] <= s[i + m];
    }
  }

  /** Cells settled one short of the end are sorted. */
  lemma SettledSorted(s: seq<int>)
    requires s != [] && Settled(s, |s| - 1)
    ensures Sorted(s)
  {
  }

  /** The sort as written only permutes the cells. */
  lemma {:induction false} SortFromPermutes(s: seq<int>, i: nat)
    requires i <= |s|
    ensures multiset(SortFrom(s, i).0) == multiset(s)
    decreases |s| - i
  {
    if i < |s| {
      PassPermutes(s, i, i + 1);
      var (t, swapped) := PassFrom(s, i, i + 1);
      if swapped {
        SortFromPermutes(t, i + 1);
      }
    }
  }

  /**
   * Where the sort as written stops, at pass `k`, the cells up to and
   * including `k` are in their final order and the rest are exactly as
   * the earlier passes left them.
   */
  lemma {:induction false} SortFromSettles(s: seq<int>, i: nat)
    requires i <= |s| && Settled(s, i)
    ensures SortFrom(s, i).1 < |s| ==> Settled(SortFrom(s, i).0, SortFrom(s, i).1 + 1)
    decreases |s| - i
  {
    if i < |s| {
      var (t, swapped) := PassFrom(s, i, i + 1);
      PassSettles(s, i);
      if swapped {
        SortFromSettles(t, i + 1);
      }
    }
  }

  /**
   * The sort as written ends sorted exactly when the cells after the pass
   * that stopped it were already sorted: the early exit checks only the
   * cell at that pass.
   */
  lemma SortedExactlyWhenTailSorted(s: seq<int>)
    requires s != []
    ensures SortFrom(s, 0).1 < |s|
    ensures var (r, k) := SortFrom(s, 0); Sorted(r) <==> Sorted(r[k + 1..])
  {
    var (r, k) := SortFrom(s, 0);
    StopsBeforeEnd(s, 0);
    SortFromSettles(s, 0);
    if Sorted(r[k + 1..]) {
      SettledWithSortedRest(r, k + 1);
    }
    if Sorted(r) {
      SortedSuffix(r, k + 1);
    }
  }

  /** Cells settled up to `i`, followed by sorted cells, are sorted. */
  lemma SettledWithSortedRest(r: seq<int>, i: nat)
    requires i <= |r| && Settled(r, i) && Sorted(r[i..])
    ensures Sorted(r)
  {
    forall p, q | 0 <= p < q < |r|
      ensures r[p] <= r[q]
    {
      if i <= p {
        assert r[p] == r[i..][p - i] && r[q] == r[i..][q - i];
      }
    }
  }

  /** On a non-empty vector the last pass has nothing to compare, so the loop always breaks. */
  lemma {:induction false} StopsBeforeEnd(s: seq<int>, i: nat)
    requires i < |s|
    ensures SortFrom(s, i).1 < |s|
    decreases |s| - i
  {
    var (t, swapped) := PassFrom(s, i, i + 1);
    if swapped && i + 1 < |s| {
      StopsBeforeEnd(t, i + 1);
    }
  }

  /** `[1, 3, 2]`: pass 0 finds nothing smaller than 1 and breaks, leaving the vector unsorted. */
  lemma EarlyExitLeavesUnsorted()
    ensures SortFrom([1, 3, 2], 0) == ([1, 3, 2], 0)
    ensures !Sorted(SortFrom([1, 3, 2], 0).0)
  {
    assert PassFrom([1, 3, 2], 0, 3) == ([1, 3, 2], false);
    assert PassFrom([1, 3, 2], 0, 2) == ([1, 3, 2], false);
    assert PassFrom([1, 3, 2], 0, 1) == ([1, 3, 2], false);
    assert [1, 3, 2][1] > [1, 3, 2][2];
  }

  /** Without the early exit every pass settles one more cell, so the result is sorted. */
  lemma {:induction false} SortAllSettles(s: seq<int>, i: nat)
    requires i <= |s| && Settled(s, i)
    ensures Settled(SortAll(s, i), |s|)
    decreases |s| - i
  {
    if i < |s| {
      PassSettles(s, i);
      SortAllSettles(PassFrom(s, i, i + 1).0, i + 1);
    }
  }

  /** The corrected sort puts the cells in ascending order as a permutation of them. */
  lemma SortAllSorts(s: seq<int>)
    ensures Sorted(SortAll(s, 0)) && multiset(SortAll(s, 0)) == multiset(s)
  {
    SortAllSettles(s, 0);
    SortAllPermutes(s, 0);
  }

  lemma {:induction false} SortAllPermutes(s: seq<int>, i: nat)
    requires i <= |s|
    ensures multiset(SortAll(s, i)) == multiset(s)
    decreases |s| - i
  {
    if i < |s| {
      PassPermutes(s, i, i + 1);
      SortAllPermutes(PassFrom(s, i, i + 1).0, i + 1);
    }
  }

  /**
   * One pass of the nested loops: `arr[i]` is compared with each later
   * cell and swapped with it when larger. Returns whether it swapped.
   */
  method Pass(a: array<int>, i: int) returns (swapped: bool)
    requires 0 <= i < a.Length
    modifies a
    ensures (a[..], swapped) == PassFrom(old(a[..]), i, i + 1)
  {
    ghost var P := a[..];
    swapped := false;
    for j := i + 1 to a.Length
      invariant PassFrom(P, i, i + 1) == (PassFrom(a[..], i, j).0, swapped || PassFrom(a[..], i, j).1)
    {
      if a[i] > a[j] {
        Swap(a, i, j);
        swapped := true;
      }
    }
  }

  /** `Solution::bubbleSort` as written, with the break after a pass without swaps. */
  method BubbleSort(a: array<int>)
    modifies a
    ensures a[..] == SortFrom(old(a[..]), 0).0
    ensures multiset(a[..]) == multiset(old(a[..]))
    ensures a.Length <= 1 ==> a[..] == old(a[..])
  {
    var n := a.Length;
    for i := 0 to n
      invariant SortFrom(old(a[..]), 0) == SortFrom(a[..], i)
    {
      var swapped := Pass(a, i);
      if !swapped {
        break;
      }
    }
    SortFromPermutes(old(a[..]), 0);
  }

  /** The same sort without the early exit. */
  method ExchangeSort(a: array<int>)
    modifies a
    ensures a[..] == SortAll(old(a[..]), 0)
    ensures Sorted(a[..]) && multiset(a[..]) == multiset(old(a[..]))
  {
    var n := a.Length;
    for i := 0 to n
      invariant SortAll(old(a[..]), 0) == SortAll(a[..], i)
    {
      var _ := Pass(a, i);
    }
    SortAllSorts(old(a[..]));
  }
}
