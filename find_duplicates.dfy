// `findDuplicates` of leetcode/442.cpp: count every value in a hash map,
// then report each key whose count is above one. The map's iteration order
// is unspecified, so the keys are visited in an arbitrary order here.
module FindDuplicates {
  import opened Occurrences

  /**
   * `findDuplicates(nums)`: every value occurring more than once, each
   * exactly once, in some order.
   */
  method FindDuplicatesOf(nums: seq<int>) returns (ans: seq<int>)
    ensures forall x :: x in ans <==> multiset(nums)[x] > 1
    ensures Distinct(ans)
  {
    var mp := Tally(nums);
    ans := [];
    var unseen := mp.Keys;
    while unseen != {}
      invariant unseen <= mp.Keys
      invariant forall x :: x in ans <==> x in mp.Keys - unseen && mp[x] > 1
      invariant Distinct(ans)
      decreases |unseen|
    {
      var key := Pick(unseen);
      if mp[key] > 1 {
        ans := ans + [key];
      }
      unseen := unseen - {key};
    }
    forall x
      ensures x in ans <==> multiset(nums)[x] > 1
    {
      assert x in mp <==> x in multiset(nums);
    }
  }
}
