// `twoSum` of leetcode/1.cpp: one pass over `nums`, remembering for every
// value seen the latest index that held it; the first index whose
// complement has been seen before answers.
module TwoSum {

  /** Some earlier index `p < q` pairs up with `q` to make `target`. */
  ghost predicate HasPartner(nums: seq<int>, target: int, q: int)
    requires 0 <= q < |nums|
  {
    exists p :: 0 <= p < q && nums[p] + nums[q] == target
  }

  /** No two indices below `bound` make `target`. */
  ghost predicate NoPairBelow(nums: seq<int>, target: int, bound: int)
    requires bound <= |nums|
  {
    forall q :: 0 <= q < bound ==> !HasPartner(nums, target, q)
  }

  /**
   * What the map holds after the first `i` cells: every value seen, mapped
   * to the latest index that held it.
   */
  ghost predicate LatestIndex(nums: seq<int>, i: int, mp: map<int, int>)
    requires 0 <= i <= |nums|
  {
    (forall k :: 0 <= k < i ==> nums[k] in mp) &&
    forall v :: v in mp ==>
      0 <= mp[v] < i && nums[mp[v]] == v && forall k :: mp[v] < k < i ==> nums[k] != v
  }

  /** Recording `nums[i]` at index `i` keeps the map up to date. */
  lemma Record(nums: seq<int>, i: int, mp: map<int, int>)
    requires 0 <= i < |nums| && LatestIndex(nums, i, mp)
    ensures LatestIndex(nums, i + 1, mp[nums[i] := i])
  {
  }

  /**
   * `twoSum(nums, target)`: empty exactly when no two indices make
   * `target`; otherwise `[a, b]` with `a < b` and `nums[a] + nums[b] ==
   * target`, where `b` is the first index with an earlier partner and `a`
   * the latest such partner.
   */
  method TwoSumOf(nums: seq<int>, target: int) returns (r: seq<int>)
    ensures r == [] <==> NoPairBelow(nums, target, |nums|)
    ensures r != [] ==> |r| == 2 && 0 <= r[0] < r[1] < |nums| && nums[r[0]] + nums[r[1]] == target
    ensures r != [] ==> NoPairBelow(nums, target, r[1])
    ensures r != [] ==> forall p :: r[0] < p < r[1] ==> nums[p] + nums[r[1]] != target
  {
    var mp: map<int, int> := map[];
    var n := |nums|;
    for i := 0 to n
      invariant LatestIndex(nums, i, mp)
      invariant NoPairBelow(nums, target, i)
    {
      var complement := target - nums[i];
      if complement in mp {
        assert nums[mp[complement]] + nums[i] == target;
        assert HasPartner(nums, target, i);
        return [mp[complement], i];
      }
      assert !HasPartner(nums, target, i);
      Record(nums, i, mp);
      mp := mp[nums[i] := i];
    }
    return [];
  }

  /** A sample: in `[2, 7, 11, 15]` the cells 0 and 1 make 9. */
  method Sample() returns (r: seq<int>)
    ensures r == [0, 1]
  {
    var nums := [2, 7, 11, 15];
    r := TwoSumOf(nums, 9);
    assert nums[0] + nums[1] == 9;
    assert HasPartner(nums, 9, 1);
    assert NoPairBelow(nums, 9, 1) by {
      assert !HasPartner(nums, 9, 0);
    }
  }
}
