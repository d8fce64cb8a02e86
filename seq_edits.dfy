// Sequence edits used to state what the linked-list operations do to the
// abstract contents of a list: insertion at an index, removal at an index,
// and the first index holding a value.
module SeqEdits {

  /** `s` with `x` placed at 0-based index `i`; elements from `i` on shift right. */
  function InsertAt(s: seq<int>, i: nat, x: int): (r: seq<int>)
    requires i <= |s|
    ensures |r| == |s| + 1 && r[i] == x
    ensures forall k :: 0 <= k < i ==> r[k] == s[k]
    ensures forall k :: i < k < |r| ==> r[k] == s[k - 1]
  {
    s[..i] + [x] + s[i..]
  }

  /** `s` without its element at 0-based index `i`. */
  function RemoveAt(s: seq<int>, i: nat): (r: seq<int>)
    requires i < |s|
    ensures |r| == |s| - 1
    ensures forall k :: 0 <= k < i ==> r[k] == s[k]
    ensures forall k :: i <= k < |r| ==> r[k] == s[k + 1]
  {
    s[..i] + s[i + 1..]
  }

  /** The first index holding `x`, or `|s|` when `x` does not occur. */
  function FirstIndexOf(s: seq<int>, x: int): (k: nat)
    ensures k <= |s|
    ensures k < |s| ==> s[k] == x
    ensures forall j :: 0 <= j < k ==> s[j] != x
  {
    if s == [] then 0
    else if s[0] == x then 0
    else 1 + FirstIndexOf(s[1..], x)
  }

  lemma {:induction false} FirstIndexOfAbsent(s: seq<int>, x: int)
    ensures FirstIndexOf(s, x) == |s| <==> x !in s
  {
    if s != [] && s[0] != x {
      FirstIndexOfAbsent(s[1..], x);
      assert x in s <==> x in s[1..];
    }
  }

  /**
   * The index a scan finds when it looks at the last element first and then
   * at the others from the front, as the circular lists do when they start
   * at their tail; `|s|` when `x` does not occur.
   */
  function TailFirstIndexOf(s: seq<int>, x: int): (k: nat)
    ensures k <= |s|
    ensures k < |s| ==> s[k] == x
    ensures k == |s| <==> x !in s
    ensures k < |s| - 1 ==> k == FirstIndexOf(s, x) && s[|s| - 1] != x
  {
    FirstIndexOfAbsent(s, x);
    if s != [] && s[|s| - 1] == x then |s| - 1 else FirstIndexOf(s, x)
  }

  /** Removing what was just inserted at the same index gives back the original. */
  lemma InsertThenRemove(s: seq<int>, i: nat, x: int)
    requires i <= |s|
    ensures RemoveAt(InsertAt(s, i, x), i) == s
  {
  }

  /** Inserting adds exactly one occurrence of `x`. */
  lemma InsertAtMultiset(s: seq<int>, i: nat, x: int)
    requires i <= |s|
    ensures multiset(InsertAt(s, i, x)) == multiset(s) + multiset{x}
  {
    assert s == s[..i] + s[i..];
  }

  /** Removing drops exactly one occurrence of the removed element. */
  lemma RemoveAtMultiset(s: seq<int>, i: nat)
    requires i < |s|
    ensures multiset(RemoveAt(s, i)) == multiset(s) - multiset{s[i]}
  {
    assert s == s[..i] + [s[i]] + s[i + 1..];
  }
}
