// `pivotIndex` of leetcode/724.cpp: the first index where the sum of the
// cells to its left equals the sum of the cells to its right, found from a
// running left sum and the total.
module PivotIndex {

  /** The sum of the cells of `s`. */
  function Sum(s: seq<int>): int
  {
    if s == [] then 0 else Sum(s[..|s| - 1]) + s[|s| - 1]
  }

  /** A sum splits at any cut into the sums of the two parts. */
  lemma {:induction false} SumSplit(s: seq<int>, k: nat)
    requires k <= |s|
    ensures Sum(s) == Sum(s[..k]) + Sum(s[k..])
    decreases |s|
  {
    if k < |s| {
      var t := s[..|s| - 1];
      SumSplit(t, k);
      assert t[..k] == s[..k];
      assert s[k..] == t[k..] + [s[|s| - 1]];
      assert s[k..][..|s[k..]| - 1] == t[k..];
    } else {
      assert s[..k] == s;
    }
  }

  /** Index `i` balances the cells before it against the cells after it. */
  ghost predicate IsPivot(nums: seq<int>, i: int)
    requires 0 <= i < |nums|
  {
    Sum(nums[..i]) == Sum(nums[i + 1..])
  }

  /** The right sum at `i` is what the total leaves after the left sum and the cell. */
  lemma RightSum(nums: seq<int>, i: nat)
    requires i < |nums|
    ensures Sum(nums[i + 1..]) == Sum(nums) - Sum(nums[..i]) - nums[i]
  {
    SumSplit(nums, i + 1);
    assert nums[..i + 1][..i] == nums[..i];
  }

  /**
   * `pivotIndex(nums)`: the smallest pivot, or -1 exactly when there is
   * none (in particular for an empty array).
   */
  method PivotIndexOf(nums: seq<int>) returns (r: int)
    ensures -1 <= r < |nums|
    ensures r >= 0 ==> IsPivot(nums, r)
    ensures forall k :: 0 <= k < |nums| && (r == -1 || k < r) ==> !IsPivot(nums, k)
  {
    var n := |nums|;
    var totalSum := 0;
    for k := 0 to n
      invariant totalSum == Sum(nums[..k])
    {
      assert nums[..k + 1][..k] == nums[..k];
      totalSum := totalSum + nums[k];
    }
    assert nums[..n] == nums;
    var leftSum := 0;
    for i := 0 to n
      invariant leftSum == Sum(nums[..i])
      invariant forall k :: 0 <= k < i ==> !IsPivot(nums, k)
    {
      var rightSum := totalSum - leftSum - nums[i];
      RightSum(nums, i);
      if leftSum == rightSum {
        return i;
      }
      assert nums[..i + 1][..i] == nums[..i];
      leftSum := leftSum + nums[i];
    }
    return -1;
  }

  /** `[1, 7, 3, 6, 5, 6]` balances at index 3: 1 + 7 + 3 on the left, 5 + 6 on the right. */
  lemma SamplePivot()
    ensures IsPivot([1, 7, 3, 6, 5, 6], 3)
  {
    var s := [1, 7, 3, 6, 5, 6];
    assert s[..3] == [1, 7, 3];
    assert s[4..] == [5, 6];
    assert [1, 7, 3][..2] == [1, 7] && [1, 7][..1] == [1] && [1][..0] == [];
    assert [5, 6][..1] == [5] && [5][..0] == [];
  }
}
