// `BinarySearch` of BinarySearch.cpp. The array is only read, so it is
// modelled as a sequence value.
module BinarySearch {
  import opened SortedSeqs

  /**
   * `BinarySearch(arr, n, key)`: an index holding `key`, or -1. Any index
   * returned holds `key`; on sorted input -1 means that `key` does not
   * occur at all.
   *
   * The source recomputes `mid` at the end of each round, also when the
   * range has just become empty; that last value is never read, and there
   * C's division of the negative `r - l` would differ from Dafny's, so
   * here `mid` is computed at the head of each round instead.
   */
  method BinarySearch(arr: seq<int>, key: int) returns (r: int)
    ensures -1 <= r < |arr|
    ensures r != -1 ==> arr[r] == key
    ensures Sorted(arr) ==> (r == -1 <==> key !in arr)
  {
    var l, h := 0, |arr| - 1;
    while l <= h
      invariant 0 <= l <= h + 1 <= |arr|
      invariant Sorted(arr) ==> forall t :: 0 <= t < |arr| && arr[t] == key ==> l <= t <= h
      decreases h - l
    {
      var mid := l + (h - l) / 2;
      if arr[mid] == key {
        return mid;
      } else if arr[mid] > key {
        h := mid - 1;
      } else {
        l := mid + 1;
      }
    }
    r := -1;
  }
}
