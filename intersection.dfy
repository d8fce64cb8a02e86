// `intersection` of leetcode/349.cpp: both inputs are sorted in place, two
// indices walk through them in step, and every value met in both goes into
// an ordered set, which is then copied out in ascending order.
module Intersection {
  import opened SortedSeqs
  import QuickSort

  /** The values that occur in both `x` and `y`. */
  ghost function Common(x: seq<int>, y: seq<int>): set<int>
  {
    set v | v in x && v in y
  }

  /** The values held by `s`. */
  ghost function Elements(s: seq<int>): set<int>
  {
    set v | v in s
  }

  /**
   * `set<int>::insert` on a set kept as a strictly increasing sequence:
   * `x` goes into its place unless it is already there.
   */
  function SetInsert(s: seq<int>, x: int): (r: seq<int>)
    ensures forall v :: v in r <==> v in s || v == x
  {
    if s == [] then [x]
    else if x < s[0] then [x] + s
    else if x == s[0] then s
    else [s[0]] + SetInsert(s[1..], x)
  }

  /** The set stays in strictly increasing order. */
  lemma {:induction false} InsertIncreasing(s: seq<int>, x: int)
    requires StrictlyIncreasing(s)
    ensures StrictlyIncreasing(SetInsert(s, x))
  {
    if s != [] && x > s[0] {
      var t := SetInsert(s[1..], x);
      InsertIncreasing(s[1..], x);
      forall k | 0 <= k < |t|
        ensures s[0] < t[k]
      {
        assert t[k] in t;
      }
    }
  }

  /** Inserting a value already in the set changes nothing. */
  lemma {:induction false} InsertPresent(s: seq<int>, x: int)
    requires StrictlyIncreasing(s) && x in s
    ensures SetInsert(s, x) == s
  {
    if x != s[0] {
      assert x in s[1..];
      InsertPresent(s[1..], x);
      assert s == [s[0]] + s[1..];
    }
  }

  /** A head in `a` smaller than the head of `b`, sorted, is in no common value. */
  lemma SkipLeft(a: seq<int>, b: seq<int>, i: nat, j: nat)
    requires i < |a| && j < |b| && Sorted(b) && a[i] < b[j]
    ensures Common(a[i..], b[j..]) == Common(a[i + 1..], b[j..])
  {
    assert a[i] !in b[j..];
    assert a[i..] == [a[i]] + a[i + 1..];
  }

  /** The same with the roles of the two inputs exchanged. */
  lemma SkipRight(a: seq<int>, b: seq<int>, i: nat, j: nat)
    requires i < |a| && j < |b| && Sorted(a) && b[j] < a[i]
    ensures Common(a[i..], b[j..]) == Common(a[i..], b[j + 1..])
  {
    assert b[j] !in a[i..];
    assert b[j..] == [b[j]] + b[j + 1..];
  }

  /** Equal heads are a common value; the rest is found in both tails. */
  lemma TakeBoth(a: seq<int>, b: seq<int>, i: nat, j: nat)
    requires i < |a| && j < |b| && a[i] == b[j]
    ensures Common(a[i..], b[j..]) == {a[i]} + Common(a[i + 1..], b[j + 1..])
  {
    assert a[i..] == [a[i]] + a[i + 1..];
    assert b[j..] == [b[j]] + b[j + 1..];
  }

  /** Sorting keeps the values of a sequence. */
  lemma SameValues(x: seq<int>, y: seq<int>, v: int)
    requires multiset(x) == multiset(y)
    ensures v in x <==> v in y
  {
    assert v in x <==> v in multiset(x);
    assert v in y <==> v in multiset(y);
  }

  /**
   * The two-index walk of `intersection` over the sorted inputs: every value
   * met in both goes into the set, which ends up holding exactly the common
   * values.
   */
  method Walk(nums1: array<int>, nums2: array<int>) returns (s: seq<int>)
    requires Sorted(nums1[..]) && Sorted(nums2[..])
    ensures StrictlyIncreasing(s)
    ensures Elements(s) == Common(nums1[..], nums2[..])
  {
    ghost var A, B := nums1[..], nums2[..];
    var m, n := nums1.Length, nums2.Length;
    s := [];
    var i, j := 0, 0;
    assert A[0..] == A && B[0..] == B;
    while i < m && j < n
      invariant 0 <= i <= m && 0 <= j <= n
      invariant StrictlyIncreasing(s)
      invariant Common(A, B) == Elements(s) + Common(A[i..], B[j..])
    {
      var x, y := nums1[i], nums2[j];
      assert x == A[i] && y == B[j];
      if x == y {
        TakeBoth(A, B, i, j);
        InsertIncreasing(s, x);
        ghost var before := Elements(s);
        s := SetInsert(s, x);
        assert Elements(s) == before + {x};
        i, j := i + 1, j + 1;
      } else if x < y {
        SkipLeft(A, B, i, j);
        i := i + 1;
      } else {
        SkipRight(A, B, i, j);
        j := j + 1;
      }
    }
    assert Common(A[i..], B[j..]) == {};
  }

  /** Copies the set out, in its ascending order, into the answer. */
  method CopyOut(s: seq<int>) returns (ans: seq<int>)
    ensures ans == s
  {
    ans := [];
    for k := 0 to |s|
      invariant ans == s[..k]
    {
      ans := ans + [s[k]];
    }
  }

  /**
   * `intersection(nums1, nums2)`: the values found in both inputs, each once,
   * in ascending order. Both inputs are left sorted.
   */
  method IntersectionOf(nums1: array<int>, nums2: array<int>) returns (ans: seq<int>)
    requires nums1 != nums2
    modifies nums1, nums2
    ensures StrictlyIncreasing(ans)
    ensures forall v :: v in ans <==> v in old(nums1[..]) && v in old(nums2[..])
    ensures Sorted(nums1[..]) && multiset(nums1[..]) == multiset(old(nums1[..]))
    ensures Sorted(nums2[..]) && multiset(nums2[..]) == multiset(old(nums2[..]))
  {
    ghost var O1, O2 := nums1[..], nums2[..];
    QuickSort.SortWhole(nums1);
    assert nums2[..] == O2;
    QuickSort.SortWhole(nums2);
    assert multiset(nums1[..]) == multiset(O1);
    var s := Walk(nums1, nums2);
    ans := CopyOut(s);
    forall v
      ensures v in ans <==> v in O1 && v in O2
    {
      assert v in ans <==> v in Common(nums1[..], nums2[..]);
      SameValues(nums1[..], O1, v);
      SameValues(nums2[..], O2, v);
    }
  }
}
