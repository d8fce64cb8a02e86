// `uniqueOccurrences` of 1207.cpp: sort the array, walk over its runs of
// equal values recording for each run its length less one, sort those
// numbers and look for two equal neighbours.
module UniqueOccurrences {
  import opened SortedSeqs
  import opened Occurrences
  import QuickSort

  /** No two different values of `s` occur equally often. */
  ghost predicate UniqueCounts(s: seq<int>)
  {
    forall x, y :: x in s && y in s && x != y ==> multiset(s)[x] != multiset(s)[y]
  }

  /** An empty array, or one of a single repeated value, has unique counts. */
  lemma OneValueUnique(s: seq<int>)
    requires forall i :: 0 <= i < |s| ==> s[i] == s[0]
    ensures UniqueCounts(s)
  {
    forall x, y | x in s && y in s
      ensures x == y
    {
      var i :| 0 <= i < |s| && s[i] == x;
      var j :| 0 <= j < |s| && s[j] == y;
    }
  }

  /**
   * What `v` holds once the runs of `A[..i]` have been walked: one entry per
   * distinct value `d[k]`, equal to its number of occurrences less one.
   */
  ghost predicate RunTable(A: seq<int>, i: int, v: seq<int>, d: seq<int>)
    requires 0 <= i <= |A|
  {
    |d| == |v| && Distinct(d) && (forall x :: x in d <==> x in A[..i]) &&
    forall k :: 0 <= k < |v| ==> v[k] + 1 == multiset(A)[d[k]]
  }

  /** A stretch of copies of `c` counts `c` once per cell. */
  lemma {:induction false} AllSameCount(t: seq<int>, c: int)
    requires forall k :: 0 <= k < |t| ==> t[k] == c
    ensures multiset(t)[c] == |t|
  {
    if t != [] {
      var u := t[..|t| - 1];
      assert t == u + [c];
      AllSameCount(u, c);
    }
  }

  /**
   * In a sorted sequence a maximal run `A[s..e]` holds every copy of its
   * value, and the value does not occur before it.
   */
  lemma RunCount(A: seq<int>, s: int, e: int)
    requires Sorted(A) && 0 <= s < e <= |A|
    requires forall k :: s <= k < e ==> A[k] == A[s]
    requires s == 0 || A[s - 1] != A[s]
    requires e == |A| || A[e] != A[s]
    ensures multiset(A)[A[s]] == e - s
    ensures A[s] !in A[..s]
  {
    NoneBefore(A, s);
    NoneAfter(A, s, e);
    AllSameCount(A[s..e], A[s]);
    OnlyInRun(A, s, e, A[s]);
  }

  /** A value found neither before nor after `A[s..e]` is counted there alone. */
  lemma OnlyInRun(A: seq<int>, s: int, e: int, c: int)
    requires 0 <= s <= e <= |A| && c !in A[..s] && c !in A[e..]
    ensures multiset(A)[c] == multiset(A[s..e])[c]
  {
    assert A == A[..s] + A[s..e] + A[e..];
  }

  lemma NoneBefore(A: seq<int>, s: int)
    requires Sorted(A) && 0 <= s < |A| && (s == 0 || A[s - 1] != A[s])
    ensures A[s] !in A[..s]
  {
    forall k | 0 <= k < s
      ensures A[..s][k] != A[s]
    {
      assert A[k] <= A[s - 1] <= A[s];
    }
  }

  lemma NoneAfter(A: seq<int>, s: int, e: int)
    requires Sorted(A) && 0 <= s < e <= |A| && A[e - 1] == A[s] && (e == |A| || A[e] != A[s])
    ensures A[s] !in A[e..]
  {
    forall k | 0 <= k < |A| - e
      ensures A[e..][k] != A[s]
    {
      assert A[s] <= A[e] <= A[e + k];
    }
  }

  /** Walking one more run adds its value to `d` and its count less one to `v`. */
  lemma RunStep(A: seq<int>, s: int, e: int, v: seq<int>, d: seq<int>)
    requires Sorted(A) && 0 <= s < e <= |A| && RunTable(A, s, v, d)
    requires forall k :: s <= k < e ==> A[k] == A[s]
    requires s == 0 || A[s - 1] != A[s]
    requires e == |A| || A[e] != A[s]
    ensures RunTable(A, e, v + [e - s - 1], d + [A[s]])
  {
    RunCount(A, s, e);
    assert A[..e] == A[..s] + A[s..e];
    forall x
      ensures x in d + [A[s]] <==> x in A[..e]
    {
      assert x in A[s..e] <==> x == A[s];
    }
  }

  /**
   * The run walk of `uniqueOccurrences`: for each run of equal values of
   * the sorted array, the run's length less one.
   */
  method RunCounts(arr: array<int>) returns (v: seq<int>, ghost d: seq<int>)
    requires Sorted(arr[..])
    ensures RunTable(arr[..], arr.Length, v, d)
  {
    ghost var A := arr[..];
    var n := arr.Length;
    v, d := [], [];
    var i := 0;
    while i < n
      invariant 0 <= i <= n
      invariant i == 0 || i == n || A[i - 1] != A[i]
      invariant RunTable(A, i, v, d)
    {
      ghost var s := i;
      var count := 0;
      while i + 1 < n && arr[i] == arr[i + 1]
        invariant s <= i < n && count == i - s
        invariant forall k :: s <= k <= i ==> A[k] == A[s]
      {
        count := count + 1;
        i := i + 1;
      }
      RunStep(A, s, i + 1, v, d);
      v, d := v + [count], d + [A[s]];
      i := i + 1;
    }
    assert A[..n] == A;
  }

  /** The table decides the question: counts are unique exactly when `v` has no repeat. */
  lemma TableDecides(A: seq<int>, v: seq<int>, d: seq<int>)
    requires RunTable(A, |A|, v, d)
    ensures UniqueCounts(A) <==> !HasEqualPair(v)
  {
    assert A[..|A|] == A;
    if HasEqualPair(v) {
      var k, l :| 0 <= k < l < |v| && v[k] == v[l];
      assert d[k] in A && d[l] in A && d[k] != d[l];
    }
    if !UniqueCounts(A) {
      var x, y :| x in A && y in A && x != y && multiset(A)[x] == multiset(A)[y];
      assert x in d && y in d;
      var k :| 0 <= k < |d| && d[k] == x;
      var l :| 0 <= l < |d| && d[l] == y;
      if k < l {
        assert v[k] == v[l];
      } else {
        assert v[l] == v[k];
      }
    }
  }

  /** Permuting the array does not change which values occur how often. */
  lemma PermutedCounts(x: seq<int>, y: seq<int>)
    requires multiset(x) == multiset(y)
    ensures UniqueCounts(x) <==> UniqueCounts(y)
  {
    forall v
      ensures v in x <==> v in y
    {
      assert v in x <==> v in multiset(x);
      assert v in y <==> v in multiset(y);
    }
  }

  /** Two neighbouring cells are equal. */
  ghost predicate AdjacentPair(w: seq<int>)
  {
    exists i :: 0 < i < |w| && w[i - 1] == w[i]
  }

  /** The last loop: are two neighbouring cells of the sorted counts equal? */
  method AdjacentEqual(w: array<int>) returns (found: bool)
    ensures found <==> AdjacentPair(w[..])
  {
    var i := 1;
    while i < w.Length
      invariant 1 <= i <= w.Length || w.Length == 0
      invariant forall j :: 0 < j < i && j < w.Length ==> w[j - 1] != w[j]
    {
      if w[i] == w[i - 1] {
        assert w[..][i - 1] == w[..][i];
        return true;
      }
      i := i + 1;
    }
    return false;
  }

  /**
   * Why the answer is right: the sorted table `W` of counts less one has two
   * equal neighbours exactly when two different values of the input occur
   * equally often.
   */
  lemma Decide(O: seq<int>, A: seq<int>, v: seq<int>, d: seq<int>, W: seq<int>)
    requires multiset(O) == multiset(A) && RunTable(A, |A|, v, d)
    requires Sorted(W) && multiset(W) == multiset(v)
    ensures UniqueCounts(O) <==> !AdjacentPair(W)
  {
    TableDecides(A, v, d);
    PermutedCounts(O, A);
    PairIsRepeat(v);
    PairIsRepeat(W);
    if HasEqualPair(W) {
      SortedPairAdjacent(W);
    }
    if AdjacentPair(W) {
      var i :| 0 < i < |W| && W[i - 1] == W[i];
      assert HasEqualPair(W);
    }
  }

  /**
   * `uniqueOccurrences(arr)`: true exactly when no two different values
   * occur the same number of times; `arr` is left sorted.
   */
  method UniqueOccurrencesOf(arr: array<int>) returns (r: bool)
    modifies arr
    ensures r <==> UniqueCounts(old(arr[..]))
    ensures Sorted(arr[..]) && multiset(arr[..]) == multiset(old(arr[..]))
  {
    ghost var O := arr[..];
    QuickSort.SortWhole(arr);
    var v, d := RunCounts(arr);
    var w := new int[|v|](k => if 0 <= k < |v| then v[k] else 0);
    assert w[..] == v;
    QuickSort.SortWhole(w);
    var found := AdjacentEqual(w);
    Decide(O, arr[..], v, d, w[..]);
    return !found;
  }
}
