// `Sort01` of Sort01.cpp: two pointers close in on each other, skipping
// zeros from the left and ones from the right, and swap the first one with
// the last zero. The array holds only zeros and ones.
module Sort01 {
  import opened SortedSeqs

  ghost predicate Binary(s: seq<int>)
  {
    forall t :: 0 <= t < |s| ==> s[t] == 0 || s[t] == 1
  }

  /**
   * `Sort01(arr, n)`: the zeros end up before the ones, as a permutation of
   * the old cells (so the number of zeros is kept); an array of at most one
   * cell is left as it is.
   */
  method Sort01(a: array<int>)
    requires Binary(a[..])
    modifies a
    ensures Sorted(a[..]) && multiset(a[..]) == multiset(old(a[..]))
    ensures a.Length <= 1 ==> a[..] == old(a[..])
  {
    var n := a.Length;
    var l, r := 0, n - 1;
    // Cells before `l` (and up to `r`) are zeros, cells after `r` (and from
    // `l` on) are ones; when the pointers cross by two, the cell between
    // them is the one the last swap exchanged with itself.
    while l < r
      invariant 0 <= l <= r + 2 && r < n
      invariant forall t :: 0 <= t < l && t <= r ==> a[t] == 0
      invariant forall t :: r < t < n && l <= t ==> a[t] == 1
      invariant forall t :: 0 <= t < n ==> a[t] == 0 || a[t] == 1
      invariant multiset(a[..]) == multiset(old(a[..]))
      invariant n <= 1 ==> a[..] == old(a[..])
    {
      while a[l] == 0 && l < r
        invariant 0 <= l <= r < n
        invariant forall t :: 0 <= t < l ==> a[t] == 0
      {
        l := l + 1;
      }
      while a[r] == 1 && l < r
        invariant 0 <= l <= r < n
        invariant forall t :: r < t < n ==> a[t] == 1
      {
        r := r - 1;
      }
      Swap(a, l, r);
      l, r := l + 1, r - 1;
    }
    ZerosThenOnes(a[..], l, r);
  }

  /**
   * Zeros below both pointers and ones above both, around at most one
   * cell of either kind, are in ascending order.
   */
  lemma ZerosThenOnes(s: seq<int>, l: int, r: int)
    requires Binary(s) && 0 <= l && r < |s| && r <= l <= r + 2
    requires forall t :: 0 <= t < l && t <= r ==> s[t] == 0
    requires forall t :: r < t < |s| && l <= t ==> s[t] == 1
    ensures Sorted(s)
  {
  }
}
