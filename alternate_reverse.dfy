// `alternatereverse` of alternatereversearray.cpp: exchange the cells of
// every pair (0, 1), (2, 3), ... in place; an odd last cell stays put.
module AlternateReverse {
  import opened SortedSeqs

  /** The cell whose old value cell `i` receives in an array of `n` cells. */
  function Partner(i: int, n: int): int
  {
    if i % 2 == 0 then (if i + 1 < n then i + 1 else i) else i - 1
  }

  /** `s` with the cells of every pair exchanged. */
  function Alternated(s: seq<int>): (r: seq<int>)
    ensures |r| == |s|
  {
    seq(|s|, i requires 0 <= i < |s| => if 0 <= Partner(i, |s|) < |s| then s[Partner(i, |s|)] else s[i])
  }

  /** Partners stay inside the array, and the partner of a partner is the cell itself. */
  lemma PartnerInvolution(i: int, n: int)
    requires 0 <= i < n
    ensures 0 <= Partner(i, n) < n && Partner(Partner(i, n), n) == i
  {
  }

  /** Exchanging the pairs twice gives the array back. */
  lemma AlternatedTwice(s: seq<int>)
    ensures Alternated(Alternated(s)) == s
  {
    forall i | 0 <= i < |s|
      ensures Alternated(Alternated(s))[i] == s[i]
    {
      PartnerInvolution(i, |s|);
    }
  }

  /** The first pair comes out exchanged, in front of the rest done alike. */
  lemma AlternatedFront(s: seq<int>)
    requires |s| >= 2
    ensures Alternated(s) == [s[1], s[0]] + Alternated(s[2..])
  {
    var r := [s[1], s[0]] + Alternated(s[2..]);
    forall i | 2 <= i < |s|
      ensures Alternated(s)[i] == r[i]
    {
      PartnerInvolution(i, |s|);
      PartnerInvolution(i - 2, |s| - 2);
      assert Partner(i, |s|) == Partner(i - 2, |s| - 2) + 2;
    }
  }

  /** Exchanging the pairs only rearranges the cells. */
  lemma {:induction false} AlternatedPermutes(s: seq<int>)
    ensures multiset(Alternated(s)) == multiset(s)
    decreases |s|
  {
    if |s| >= 2 {
      AlternatedFront(s);
      AlternatedPermutes(s[2..]);
      assert s == [s[0], s[1]] + s[2..];
    } else {
      assert Alternated(s) == s;
    }
  }

  /**
   * `alternatereverse(arr, n)` with `n` the length of the array: cell `i`
   * ends up holding the old value of its partner.
   */
  method AlternateReverseOf(a: array<int>)
    modifies a
    ensures a[..] == Alternated(old(a[..]))
  {
    ghost var A := a[..];
    var n := a.Length;
    var i := 0;
    while i < n - 1
      invariant 0 <= i <= n && i % 2 == 0
      invariant forall k :: 0 <= k < i ==> a[k] == A[Partner(k, n)]
      invariant forall k :: i <= k < n ==> a[k] == A[k]
    {
      Swap(a, i, i + 1);
      i := i + 2;
    }
    assert forall k :: 0 <= k < n ==> a[k] == Alternated(A)[k];
  }

  /** The cells `1, 2, 3, 4, 5` become `2, 1, 4, 3, 5`. */
  lemma Sample()
    ensures Alternated([1, 2, 3, 4, 5]) == [2, 1, 4, 3, 5]
  {
  }
}
