// Circular singly linked list (LinkedList/SinglyCircularLinkedList.cpp).
//
// The list is reached through `tail` alone; `tail.next` is the first node.
// The ghost sequence `Nodes` lists the ring starting at `tail.next` and
// ending at `tail`, so the last node links back to the first. Unlike a
// linear list the links alone do not rule out a node being listed twice;
// `Valid` says that no node before the last is `tail`, and lemma `Acyclic`
// derives from it that all listed nodes differ. The source prints the ring
// starting at `tail`, that is the last element of `Contents` first.
module SinglyCircularList {
  import opened SeqEdits

  /** A node; its payload is set once, by the constructor. */
  class Node {
    const data: int
    var next: Node?

    constructor (d: int)
      ensures data == d && next == null
    {
      data := d;
      next := null;
    }
  }

  /** The payloads of `ns`, in order. */
  ghost function Values(ns: seq<Node>): (r: seq<int>)
    ensures |r| == |ns|
  {
    seq(|ns|, i requires 0 <= i < |ns| => ns[i].data)
  }

  /** Taking a node out takes its payload out. */
  lemma ValuesRemove(ns: seq<Node>, k: nat)
    requires k < |ns|
    ensures Values(ns[..k] + ns[k + 1..]) == Values(ns)[..k] + Values(ns)[k + 1..]
  {
  }

  /** Putting a node in puts its payload in. */
  lemma ValuesInsert(ns: seq<Node>, k: nat, x: Node)
    requires k <= |ns|
    ensures Values(ns[..k] + [x] + ns[k..]) == Values(ns)[..k] + [x.data] + Values(ns)[k..]
  {
  }

  /** The node reached from `x` by following `next` `k` times; NULL once the chain breaks off. */
  ghost function Follow(x: Node, k: nat): Node?
    reads *
  {
    if k == 0 then x
    else
      var y := Follow(x, k - 1);
      if y == null then null else y.next
  }

  /**
   * What `insertNode(ele, d)` does to the contents: the scan starts at the
   * tail (the last element) and goes on from the first; `d` follows the
   * first match. A node placed after the tail becomes the new first node,
   * since `tail` does not move. Without a match nothing changes.
   */
  function InsertAfterValue(c: seq<int>, ele: int, d: int): seq<int>
  {
    if c == [] then [d]
    else if c[|c| - 1] == ele then [d] + c
    else if FirstIndexOf(c, ele) < |c| then InsertAt(c, FirstIndexOf(c, ele) + 1, d)
    else c
  }

  /** What `deleteNode(ele)` does to the contents: the first occurrence, from the first node on, goes. */
  function DeleteValue(c: seq<int>, ele: int): seq<int>
  {
    if FirstIndexOf(c, ele) < |c| then RemoveAt(c, FirstIndexOf(c, ele)) else c
  }

  /** An insertion adds one `d` to a ring that is empty or holds `ele`, and nothing otherwise. */
  lemma InsertAfterValueAdds(c: seq<int>, ele: int, d: int)
    ensures multiset(InsertAfterValue(c, ele, d)) ==
      if c == [] || ele in c then multiset(c) + multiset{d} else multiset(c)
  {
    FirstIndexOfAbsent(c, ele);
    if c != [] && c[|c| - 1] != ele && FirstIndexOf(c, ele) < |c| {
      InsertAtMultiset(c, FirstIndexOf(c, ele) + 1, d);
    }
  }

  /** A deletion drops one copy of `ele` when there is one, and nothing otherwise. */
  lemma DeleteValueDropsOne(c: seq<int>, ele: int)
    ensures multiset(DeleteValue(c, ele)) == multiset(c) - multiset{ele}
  {
    FirstIndexOfAbsent(c, ele);
    if FirstIndexOf(c, ele) < |c| {
      RemoveAtMultiset(c, FirstIndexOf(c, ele));
    } else {
      assert multiset(c)[ele] == 0;
      assert multiset(c) - multiset{ele} == multiset(c);
    }
  }

  class List {
    var tail: Node?
    ghost var Contents: seq<int>
    ghost var Nodes: seq<Node>
    ghost var Repr: set<object>

    ghost predicate Valid()
      reads this, Repr
    {
      this in Repr &&
      (forall i :: 0 <= i < |Nodes| ==> Nodes[i] in Repr) &&
      Contents == Values(Nodes) &&
      tail == (if Nodes == [] then null else Nodes[|Nodes| - 1]) &&
      (forall i :: 0 <= i < |Nodes| - 1 ==> Nodes[i] != tail) &&
      (forall i :: 0 <= i < |Nodes| - 1 ==> Nodes[i].next == Nodes[i + 1]) &&
      (Nodes != [] ==> Nodes[|Nodes| - 1].next == Nodes[0])
    }

    /** The successor of the node at `k`, wrapping from the last node to the first. */
    lemma NextOf(k: nat)
      requires Valid() && k < |Nodes|
      ensures Nodes[k].next == Nodes[if k + 1 < |Nodes| then k + 1 else 0]
    {
      if k + 1 < |Nodes| {
        assert Nodes[k].next == Nodes[k + 1];
      }
    }

    /**
     * No node is listed twice: two equal nodes would reach `tail` in the
     * same number of steps, but only the last listed node is `tail`.
     */
    lemma {:induction false} Acyclic(i: nat, j: nat)
      requires Valid() && i < j < |Nodes|
      ensures Nodes[i] != Nodes[j]
      decreases |Nodes| - j
    {
      if j < |Nodes| - 1 {
        Acyclic(i + 1, j + 1);
        assert Nodes[i].next == Nodes[i + 1] && Nodes[j].next == Nodes[j + 1];
      }
    }

    /** The node at `k` differs from every other listed node. */
    lemma Apart(k: nat)
      requires Valid() && k < |Nodes|
      ensures forall j :: 0 <= j < |Nodes| && j != k ==> Nodes[j] != Nodes[k]
    {
      forall j | 0 <= j < |Nodes| && j != k
        ensures Nodes[j] != Nodes[k]
      {
        if j < k { Acyclic(j, k); } else { Acyclic(k, j); }
      }
    }

    /** `k` steps from `tail` reach the node listed at `k - 1`. */
    lemma {:induction false} FollowFromTail(k: nat)
      requires Valid() && Nodes != [] && k <= |Nodes|
      ensures Follow(tail, k) == if k == 0 then tail else Nodes[k - 1]
    {
      if k > 0 {
        FollowFromTail(k - 1);
        NextOf(if k == 1 then |Nodes| - 1 else k - 2);
      }
    }

    /** The ring closes: `next` leads from `tail` back to `tail` in exactly `|Contents|` steps. */
    lemma RingCloses()
      requires Valid() && Nodes != []
      ensures Follow(tail, |Contents|) == tail
      ensures forall k :: 0 < k < |Contents| ==> Follow(tail, k) != tail
    {
      FollowFromTail(|Nodes|);
      Apart(|Nodes| - 1);
      forall k | 0 < k < |Nodes|
        ensures Follow(tail, k) != tail
      {
        FollowFromTail(k);
      }
    }

    /** An empty ring: `tail` is NULL. */
    constructor ()
      ensures Valid() && fresh(Repr)
      ensures Contents == [] && tail == null
    {
      tail := null;
      Contents, Nodes := [], [];
      Repr := {this};
    }

    /**
     * Inserts `d` after the first node holding `ele`, scanning from `tail`;
     * an empty ring becomes the one-node ring `d`.
     */
    method InsertNode(ele: int, d: int)
      requires Valid()
      modifies Repr
      ensures Valid() && fresh(Repr - old(Repr))
      ensures Contents == InsertAfterValue(old(Contents), ele, d)
    {
      if tail == null {
        var newNode := new Node(d);
        tail := newNode;
        newNode.next := newNode;
        Nodes, Contents := [newNode], [d];
        Repr := Repr + {newNode};
        return;
      }
      var curr, found, k := FindFromTail(ele);
      if found {
        // The splice is the same three steps wherever the match is; the two
        // cases are proved apart.
        if curr == tail {
          InsertAfterTail(d);
        } else {
          InsertAfter(curr, k, d);
        }
      }
    }

    /**
     * The do-while scan of `insertNode`: it looks at `tail` first, then
     * follows `next` from the first node until it is back at `tail`.
     */
    method FindFromTail(ele: int) returns (curr: Node, found: bool, ghost k: nat)
      requires Valid() && Nodes != []
      ensures found <==> ele in Contents
      ensures found ==> k == TailFirstIndexOf(Contents, ele) && curr == Nodes[k]
    {
      curr := tail;
      found, k := false, 0;
      ghost var s: nat := 0;
      while true
        invariant 0 <= s < |Nodes|
        invariant s == 0 ==> curr == tail
        invariant s > 0 ==> curr == Nodes[s - 1] && Contents[|Nodes| - 1] != ele
        invariant forall j :: 0 <= j < s - 1 ==> Contents[j] != ele
        decreases |Nodes| - s
      {
        if curr.data == ele {
          found := true;
          k := if s == 0 then |Nodes| - 1 else s - 1;
          assert Contents[k] == ele;
          return;
        }
        NextOf(if s == 0 then |Nodes| - 1 else s - 1);
        Apart(|Nodes| - 1);
        curr := curr.next;
        s := s + 1;
        if curr == tail {
          FirstIndexOfAbsent(Contents, ele);
          return;
        }
      }
    }

    /**
     * The splice of `insertNode` when the match is `tail`: the new node goes
     * between `tail` and the first node and becomes the first node.
     */
    method InsertAfterTail(d: int)
      requires Valid() && Nodes != []
      modifies Repr
      ensures Valid() && fresh(Repr - old(Repr))
      ensures Contents == [d] + old(Contents)
    {
      ghost var before := Nodes;
      Apart(|Nodes| - 1);
      var temp := new Node(d);
      assert temp !in Nodes;
      temp.next := tail.next;
      tail.next := temp;
      Nodes, Contents := [temp] + Nodes, [d] + Contents;
      Repr := Repr + {temp};
      assert forall j :: 0 < j < |Nodes| ==> Nodes[j] == before[j - 1];
      forall j | 0 < j < |Nodes| - 1
        ensures Nodes[j].next == Nodes[j + 1]
      {
        assert before[j - 1].next == before[j];
      }
    }

    /** The splice of `insertNode` after `curr`, at index `k` before the last; `tail` stays. */
    method InsertAfter(curr: Node, ghost k: nat, d: int)
      requires Valid() && k < |Nodes| - 1 && curr == Nodes[k]
      modifies Repr
      ensures Valid() && fresh(Repr - old(Repr))
      ensures Contents == InsertAt(old(Contents), k + 1, d)
    {
      ghost var before := Nodes;
      Apart(k);
      var temp := new Node(d);
      assert temp !in Nodes;
      temp.next := curr.next;
      curr.next := temp;
      Nodes := Nodes[..k + 1] + [temp] + Nodes[k + 1..];
      Contents := Contents[..k + 1] + [d] + Contents[k + 1..];
      Repr := Repr + {temp};
      ValuesInsert(before, k + 1, temp);
      assert forall j :: 0 <= j <= k ==> Nodes[j] == before[j];
      assert forall j :: k + 1 < j < |Nodes| ==> Nodes[j] == before[j - 1];
      forall j | 0 <= j < |Nodes| - 1
        ensures Nodes[j].next == Nodes[j + 1]
      {
        if j < k {
          assert before[j].next == before[j + 1];
        } else if k + 1 < j {
          assert before[j - 1].next == before[j];
        }
      }
    }

    /** Unlinks the first node, from `tail.next` on, holding `ele`; without one nothing changes. */
    method DeleteNode(ele: int)
      requires Valid()
      modifies Repr
      ensures Valid() && Repr <= old(Repr)
      ensures Contents == DeleteValue(old(Contents), ele)
    {
      if tail == null {
        return;
      }
      var prev := tail;
      var curr := prev.next;
      NextOf(|Nodes| - 1);
      Apart(0);
      if curr == tail && curr.data == ele {
        tail := null;
        Nodes, Contents := [], [];
        Repr := Repr - {curr};
        return;
      }
      var found;
      ghost var k;
      prev, curr, found, k := FindFromFirst(ele);
      if found {
        // `prev.next := curr.next`, then `tail := prev` when `curr` is the
        // tail: the two cases are proved apart.
        Apart(|Nodes| - 1);
        if curr == tail {
          UnlinkTail(prev);
        } else {
          Unlink(prev, curr, k);
        }
      } else {
        FirstIndexOfAbsent(Contents, ele);
      }
    }

    /**
     * The search loop of `deleteNode`: from the first node on, with `prev`
     * one step behind, until `ele` is found or the scan is back at the first node.
     */
    method FindFromFirst(ele: int) returns (prev: Node, curr: Node, found: bool, ghost k: nat)
      requires Valid() && Nodes != []
      ensures found <==> ele in Contents
      ensures found ==> k == FirstIndexOf(Contents, ele) && curr == Nodes[k]
      ensures found ==> prev == Nodes[if k == 0 then |Nodes| - 1 else k - 1]
    {
      prev := tail;
      curr := prev.next;
      NextOf(|Nodes| - 1);
      Apart(0);
      k := 0;
      while curr.data != ele
        invariant 0 <= k < |Nodes|
        invariant curr == Nodes[k] && prev == Nodes[if k == 0 then |Nodes| - 1 else k - 1]
        invariant forall j :: 0 <= j < k ==> Contents[j] != ele
        decreases |Nodes| - k
      {
        NextOf(k);
        prev := curr;
        curr := curr.next;
        k := k + 1;
        if curr == tail.next {
          FirstIndexOfAbsent(Contents, ele);
          found := false;
          return;
        }
      }
      assert Contents[k] == ele;
      found := true;
    }

    /**
     * The unlink of `deleteNode` when the node found is `tail`, on a ring of
     * two or more: `prev`, the node before it, becomes the tail.
     */
    method UnlinkTail(prev: Node)
      requires Valid() && 2 <= |Nodes| && prev == Nodes[|Nodes| - 2]
      modifies Repr
      ensures Valid() && Repr == old(Repr) - {old(tail)}
      ensures Contents == old(Contents)[..|old(Contents)| - 1]
    {
      ghost var k := |Nodes| - 1;
      Apart(k);
      Apart(k - 1);
      assert Nodes[..k] + Nodes[k + 1..] == Nodes[..k];
      NextOf(k);
      var curr := tail;
      prev.next := curr.next;
      tail := prev;
      curr.next := null;
      Nodes, Contents := Nodes[..k], Contents[..k];
      Repr := Repr - {curr};
    }

    /** The unlink of `deleteNode` for a node `curr` at index `k` other than `tail`; `prev` is before it. */
    method Unlink(prev: Node, curr: Node, ghost k: nat)
      requires Valid() && k < |Nodes| - 1 && curr == Nodes[k]
      requires prev == Nodes[if k == 0 then |Nodes| - 1 else k - 1]
      modifies Repr
      ensures Valid() && Repr == old(Repr) - {curr}
      ensures Contents == RemoveAt(old(Contents), k)
    {
      ghost var before := Nodes;
      Apart(k);
      Apart(if k == 0 then |Nodes| - 1 else k - 1);
      NextOf(k);
      prev.next := curr.next;
      curr.next := null;
      Nodes := Nodes[..k] + Nodes[k + 1..];
      Contents := Contents[..k] + Contents[k + 1..];
      Repr := Repr - {curr};
      ValuesRemove(before, k);
      assert forall j :: 0 <= j < k ==> Nodes[j] == before[j];
      assert forall j :: k <= j < |Nodes| ==> Nodes[j] == before[j + 1];
      forall j | 0 <= j < |Nodes| - 1
        ensures Nodes[j].next == Nodes[j + 1]
      {
        if j < k - 1 {
          assert before[j].next == before[j + 1];
        } else if k <= j {
          assert before[j + 1].next == before[j + 2];
        }
      }
    }
  }

  /** The insertions of the source's demonstration, from an empty ring. */
  method DemoInserts() returns (l: List)
    ensures l.Valid() && fresh(l.Repr)
    ensures l.Contents == [2, 3, 4, 5, 1]
  {
    l := new List();
    l.InsertNode(5, 1);
    assert l.Contents == [1];
    l.InsertNode(1, 3);
    assert l.Contents == [3, 1];
    l.InsertNode(3, 5);
    assert l.Contents == [3, 5, 1] by {
      assert FirstIndexOf([3, 1], 3) == 0;
    }
    l.InsertNode(1, 2);
    assert l.Contents == [2, 3, 5, 1];
    l.InsertNode(3, 4);
    assert l.Contents == [2, 3, 4, 5, 1] by {
      assert FirstIndexOf([2, 3, 5, 1], 3) == 1;
    }
  }

  /** The first two deletions of the demonstration: 3, then 2. */
  method DemoFirstDeletes() returns (l: List)
    ensures l.Valid() && fresh(l.Repr)
    ensures l.Contents == [4, 5, 1]
  {
    l := DemoInserts();
    l.DeleteNode(3);
    assert l.Contents == [2, 4, 5, 1] by {
      assert FirstIndexOf([2, 3, 4, 5, 1], 3) == 1;
    }
    l.DeleteNode(2);
    assert FirstIndexOf([2, 4, 5, 1], 2) == 0;
  }

  /** Deleting 1, 4 and 5 then empties the ring. */
  method DemoDeletes() returns (l: List)
    ensures l.Valid() && fresh(l.Repr)
    ensures l.Contents == [] && l.tail == null
  {
    l := DemoFirstDeletes();
    l.DeleteNode(1);
    assert l.Contents == [4, 5] by {
      assert FirstIndexOf([4, 5, 1], 1) == 2;
    }
    l.DeleteNode(4);
    assert l.Contents == [5] by {
      assert FirstIndexOf([4, 5], 4) == 0;
    }
    l.DeleteNode(5);
    assert l.Contents == [] && l.tail == null;
  }
}
