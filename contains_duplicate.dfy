// `containsDuplicate` of leetcode/217.cpp: count every value in a hash
// map, then look for a key whose count is above one. The map's iteration
// order is unspecified, so the keys are visited in an arbitrary order here.
module ContainsDuplicate {
  import opened Occurrences

  /**
   * `containsDuplicate(nums)`: true exactly when some value occurs at least
   * twice, which is when there are fewer distinct values than cells.
   */
  method ContainsDuplicateOf(nums: seq<int>) returns (r: bool)
    ensures r <==> HasRepeat(nums)
    ensures r <==> |Elements(nums)| < |nums|
  {
    DistinctCount(nums);
    var mp := Tally(nums);
    var unseen := mp.Keys;
    while unseen != {}
      invariant unseen <= mp.Keys
      invariant forall x :: x in mp.Keys - unseen ==> mp[x] <= 1
      decreases |unseen|
    {
      var key := Pick(unseen);
      if mp[key] > 1 {
        return true;
      }
      unseen := unseen - {key};
    }
    return false;
  }

  /** An array of at most one cell holds no repeat. */
  lemma ShortHasNone(nums: seq<int>)
    requires |nums| <= 1
    ensures !HasRepeat(nums)
  {
    DistinctCount(nums);
    if nums != [] {
      assert Elements(nums) == {nums[0]};
    }
  }
}
