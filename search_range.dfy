// First and last position of a value in a sorted vector (leetcode/34.cpp).
// The vector is only read, so it is modelled as a sequence value; as in
// `BinarySearch`, `mid` is computed at the head of each round.
module SearchRange {
  import opened SortedSeqs

  /**
   * `firstOccurence(nums, n, key)`: an index holding `key`, or -1; on
   * sorted input it is the smallest such index, and -1 exactly when `key`
   * does not occur.
   */
  method FirstOccurrence(nums: seq<int>, key: int) returns (ans: int)
    ensures -1 <= ans < |nums|
    ensures ans != -1 ==> nums[ans] == key
    ensures Sorted(nums) ==> (ans == -1 <==> key !in nums)
    ensures Sorted(nums) && ans != -1 ==> forall t :: 0 <= t < ans ==> nums[t] != key
  {
    var s, e := 0, |nums| - 1;
    ans := -1;
    while s <= e
      invariant 0 <= s <= e + 1 <= |nums|
      invariant -1 <= ans < |nums| && (ans != -1 ==> nums[ans] == key)
      invariant Sorted(nums) && ans != -1 ==> ans == e + 1
      invariant Sorted(nums) ==> forall t :: 0 <= t < s ==> nums[t] < key
      invariant Sorted(nums) && ans == -1 ==> forall t :: e < t < |nums| ==> nums[t] != key
      decreases e - s
    {
      var mid := s + (e - s) / 2;
      if nums[mid] == key {
        ans := mid;
        e := mid - 1;
      } else if nums[mid] < key {
        s := mid + 1;
      } else {
        e := mid - 1;
      }
    }
  }

  /**
   * `lastOccurence(nums, n, key)`: an index holding `key`, or -1; on
   * sorted input it is the largest such index, and -1 exactly when `key`
   * does not occur.
   */
  method LastOccurrence(nums: seq<int>, key: int) returns (ans: int)
    ensures -1 <= ans < |nums|
    ensures ans != -1 ==> nums[ans] == key
    ensures Sorted(nums) ==> (ans == -1 <==> key !in nums)
    ensures Sorted(nums) && ans != -1 ==> forall t :: ans < t < |nums| ==> nums[t] != key
  {
    var s, e := 0, |nums| - 1;
    ans := -1;
    while s <= e
      invariant 0 <= s <= e + 1 <= |nums|
      invariant -1 <= ans < |nums| && (ans != -1 ==> nums[ans] == key)
      invariant Sorted(nums) && ans != -1 ==> ans == s - 1
      invariant Sorted(nums) ==> forall t :: e < t < |nums| ==> key < nums[t]
      invariant Sorted(nums) && ans == -1 ==> forall t :: 0 <= t < s ==> nums[t] != key
      decreases e - s
    {
      var mid := s + (e - s) / 2;
      if nums[mid] == key {
        ans := mid;
        s := mid + 1;
      } else if nums[mid] < key {
        s := mid + 1;
      } else {
        e := mid - 1;
      }
    }
  }

  /**
   * `searchRange(nums, target)`: `[first, last]`. Both are -1 together,
   * and on sorted input exactly when `target` is absent; otherwise the
   * cells from `first` to `last` are exactly the cells holding `target`.
   */
  method SearchRange(nums: seq<int>, target: int) returns (ans: seq<int>)
    ensures |ans| == 2 && -1 <= ans[0] < |nums| && -1 <= ans[1] < |nums|
    ensures Sorted(nums) ==> (ans[0] == -1 <==> ans[1] == -1) && (ans[0] == -1 <==> target !in nums)
    ensures Sorted(nums) && ans[0] != -1 ==> ans[0] <= ans[1]
    ensures Sorted(nums) ==> forall t :: 0 <= t < |nums| ==> (nums[t] == target <==> ans[0] <= t <= ans[1])
  {
    var first := FirstOccurrence(nums, target);
    var last := LastOccurrence(nums, target);
    ans := [first, last];
  }
}
