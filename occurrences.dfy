// Counting occurrences with a hash map, as `map[nums[i]]++` does in
// leetcode/442.cpp and leetcode/217.cpp, and what the counts say about
// repeated values.
module Occurrences {

  /** `mp` maps exactly the values of `s` to how often each occurs. */
  ghost predicate Counts(mp: map<int, int>, s: seq<int>)
  {
    (forall v :: v in mp <==> v in s) &&
    forall v :: v in mp ==> mp[v] == multiset(s)[v]
  }

  /** `map[v]++`: a missing key starts from zero. */
  function Bump(mp: map<int, int>, v: int): (r: map<int, int>)
    ensures r.Keys == mp.Keys + {v}
    ensures r[v] == (if v in mp then mp[v] else 0) + 1
    ensures forall u :: u in mp && u != v ==> r[u] == mp[u]
  {
    mp[v := (if v in mp then mp[v] else 0) + 1]
  }

  /** Counting one more cell keeps the map exact. */
  lemma CountStep(mp: map<int, int>, s: seq<int>, i: nat)
    requires i < |s| && Counts(mp, s[..i])
    ensures Counts(Bump(mp, s[i]), s[..i + 1])
  {
    assert s[..i + 1] == s[..i] + [s[i]];
    forall v
      ensures v in Bump(mp, s[i]) <==> v in s[..i + 1]
    {
      assert v in s[..i + 1] <==> v in s[..i] || v == s[i];
    }
  }

  /** The counting loop: `for i in 0..n: map[nums[i]]++`, from an empty map. */
  method Tally(nums: seq<int>) returns (mp: map<int, int>)
    ensures Counts(mp, nums)
  {
    mp := map[];
    for i := 0 to |nums|
      invariant Counts(mp, nums[..i])
    {
      CountStep(mp, nums, i);
      mp := Bump(mp, nums[i]);
    }
    assert nums[..|nums|] == nums;
  }

  /** One key of a non-empty key set, whichever the map's iteration reaches first. */
  method Pick(keys: set<int>) returns (key: int)
    requires keys != {}
    ensures key in keys
  {
    if forall x :: x !in keys {
      assert false;
    }
    key :| key in keys;
  }

  /** The distinct values of `s`. */
  ghost function Elements(s: seq<int>): set<int>
  {
    set v | v in s
  }

  /** Some value occurs at least twice. */
  ghost predicate HasRepeat(s: seq<int>)
  {
    exists v :: multiset(s)[v] >= 2
  }

  /**
   * There are never more distinct values than cells, and there are fewer
   * exactly when some value repeats.
   */
  lemma {:induction false} DistinctCount(s: seq<int>)
    ensures |Elements(s)| <= |s|
    ensures |Elements(s)| < |s| <==> HasRepeat(s)
  {
    if s != [] {
      var t, x := s[..|s| - 1], s[|s| - 1];
      assert s == t + [x];
      DistinctCount(t);
      assert Elements(s) == Elements(t) + {x};
      if x in t {
        assert x in Elements(t);
        assert multiset(s)[x] >= 2;
      } else {
        assert x !in Elements(t);
        if HasRepeat(s) {
          var v :| multiset(s)[v] >= 2;
          assert v != x;
          assert multiset(t)[v] >= 2;
        }
        if HasRepeat(t) {
          var v :| multiset(t)[v] >= 2;
          assert multiset(s)[v] >= 2;
        }
      }
    }
  }

  /** No value appears twice in `s`. */
  ghost predicate Distinct(s: seq<int>)
  {
    forall i, j :: 0 <= i < j < |s| ==> s[i] != s[j]
  }

  /** Two different cells hold the same value. */
  ghost predicate HasEqualPair(s: seq<int>)
  {
    exists k, l :: 0 <= k < l < |s| && s[k] == s[l]
  }

  /** Two equal cells are a value counted at least twice, and the converse. */
  lemma PairIsRepeat(s: seq<int>)
    ensures HasEqualPair(s) <==> HasRepeat(s)
  {
    if HasEqualPair(s) {
      var k, l :| 0 <= k < l < |s| && s[k] == s[l];
      PairCounted(s, k, l);
    }
    if HasRepeat(s) {
      var v :| multiset(s)[v] >= 2;
      RepeatPlaced(s, v);
    }
  }

  lemma PairCounted(s: seq<int>, k: int, l: int)
    requires 0 <= k < l < |s| && s[k] == s[l]
    ensures multiset(s)[s[l]] >= 2
  {
    var front := s[..l];
    assert s == front + [s[l]] + s[l + 1..];
    assert s[k] == front[k];
    assert s[l] in multiset(front);
  }

  lemma RepeatPlaced(s: seq<int>, v: int)
    requires multiset(s)[v] >= 2
    ensures HasEqualPair(s)
  {
    assert v in multiset(s);
    var k :| 0 <= k < |s| && s[k] == v;
    var rest := s[..k] + s[k + 1..];
    assert s == s[..k] + [v] + s[k + 1..];
    assert multiset(s) == multiset(rest) + multiset{v};
    assert v in multiset(rest);
    var j :| 0 <= j < |rest| && rest[j] == v;
    if j < k {
      assert s[j] == rest[j];
      assert 0 <= j < k < |s| && s[j] == s[k];
    } else {
      assert s[j + 1] == rest[j];
      assert 0 <= k < j + 1 < |s| && s[k] == s[j + 1];
    }
  }

  /** In sorted order, equal values sit side by side. */
  lemma SortedPairAdjacent(s: seq<int>)
    requires forall i, j :: 0 <= i < j < |s| ==> s[i] <= s[j]
    requires HasEqualPair(s)
    ensures exists i :: 0 < i < |s| && s[i - 1] == s[i]
  {
    var k, l :| 0 <= k < l < |s| && s[k] == s[l];
    assert s[k] <= s[k + 1] <= s[l];
    assert s[k] == s[k + 1];
  }
}
