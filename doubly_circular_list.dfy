// Circular doubly linked list (LinkedList/DoublyCircularLinkedList.cpp).
//
// The ring is reached through `tail`; `tail.next` is the first node. As in
// the singly linked ring, `Nodes` lists the ring from `tail.next` to `tail`,
// `next` leads forward and wraps from the last node to the first, and `prev`
// leads back the same way. No node before the last is `tail`, which is
// enough to show that no node is listed twice (lemma `Acyclic`).
module DoublyCircularList {
  import opened SeqEdits

  /** A node; its payload is set once, by the constructor. */
  class Node {
    const data: int
    var next: Node?
    var prev: Node?

    constructor (d: int)
      ensures data == d && next == null && prev == null
    {
      data := d;
      next := null;
      prev := null;
    }
  }

  /** The payloads of `ns`, in order. */
  ghost function Values(ns: seq<Node>): (r: seq<int>)
    ensures |r| == |ns|
  {
    seq(|ns|, i requires 0 <= i < |ns| => ns[i].data)
  }

  /** Taking a node out takes its payload out. */
  lemma ValuesRemove(ns: seq<Node>, k: nat)
    requires k < |ns|
    ensures Values(ns[..k] + ns[k + 1..]) == Values(ns)[..k] + Values(ns)[k + 1..]
  {
  }

  /** Putting a node in puts its payload in. */
  lemma ValuesInsert(ns: seq<Node>, k: nat, x: Node)
    requires k <= |ns|
    ensures Values(ns[..k] + [x] + ns[k..]) == Values(ns)[..k] + [x.data] + Values(ns)[k..]
  {
  }

  /** The node reached from `x` by following `next` `k` times; NULL once the chain breaks off. */
  ghost function Follow(x: Node, k: nat): Node?
    reads *
  {
    if k == 0 then x
    else
      var y := Follow(x, k - 1);
      if y == null then null else y.next
  }

  /**
   * What `insertNode(element, d)` does to the contents: the scan looks at
   * the tail first and then from the first node on, and `d` goes right
   * after the match. After the tail that is the end of the list, because
   * `tail` moves to the new node. Without a match nothing changes.
   */
  function InsertAfterValue(c: seq<int>, element: int, d: int): seq<int>
  {
    if c == [] then [d]
    else if TailFirstIndexOf(c, element) < |c| then InsertAt(c, TailFirstIndexOf(c, element) + 1, d)
    else c
  }

  /** What `deleteNode(value)` does to the contents: the match the same scan finds goes. */
  function DeleteValue(c: seq<int>, value: int): seq<int>
  {
    if TailFirstIndexOf(c, value) < |c| then RemoveAt(c, TailFirstIndexOf(c, value)) else c
  }

  /** An insertion adds one `d` to a ring that is empty or holds `element`, and nothing otherwise. */
  lemma InsertAfterValueAdds(c: seq<int>, element: int, d: int)
    ensures multiset(InsertAfterValue(c, element, d)) ==
      if c == [] || element in c then multiset(c) + multiset{d} else multiset(c)
  {
    if c != [] {
      var k := TailFirstIndexOf(c, element);
      if k < |c| {
        InsertAtMultiset(c, k + 1, d);
      } else {
        assert element !in c;
      }
    }
  }

  /** A deletion drops one copy of `value` when there is one, and nothing otherwise. */
  lemma DeleteValueDropsOne(c: seq<int>, value: int)
    ensures multiset(DeleteValue(c, value)) == multiset(c) - multiset{value}
  {
    if TailFirstIndexOf(c, value) < |c| {
      RemoveAtMultiset(c, TailFirstIndexOf(c, value));
    } else {
      assert multiset(c)[value] == 0;
      assert multiset(c) - multiset{value} == multiset(c);
    }
  }

  class List {
    var tail: Node?
    ghost var Contents: seq<int>
    ghost var Nodes: seq<Node>
    ghost var Repr: set<object>

    ghost predicate Valid()
      reads this, Repr
    {
      this in Repr &&
      (forall i :: 0 <= i < |Nodes| ==> Nodes[i] in Repr) &&
      Contents == Values(Nodes) &&
      tail == (if Nodes == [] then null else Nodes[|Nodes| - 1]) &&
      (forall i :: 0 <= i < |Nodes| - 1 ==> Nodes[i] != tail) &&
      (forall i :: 0 <= i < |Nodes| - 1 ==> Nodes[i].next == Nodes[i + 1] && Nodes[i + 1].prev == Nodes[i]) &&
      (Nodes != [] ==> Nodes[|Nodes| - 1].next == Nodes[0] && Nodes[0].prev == Nodes[|Nodes| - 1])
    }

    /**
     * No node is listed twice: two equal nodes would reach `tail` in the
     * same number of steps, but only the last listed node is `tail`.
     */
    lemma {:induction false} Acyclic(i: nat, j: nat)
      requires Valid() && i < j < |Nodes|
      ensures Nodes[i] != Nodes[j]
      decreases |Nodes| - j
    {
      if j < |Nodes| - 1 {
        Acyclic(i + 1, j + 1);
        assert Nodes[i].next == Nodes[i + 1] && Nodes[j].next == Nodes[j + 1];
      }
    }

    /** Two listed nodes at different indices differ. */
    lemma Differ(i: nat, j: nat)
      requires Valid() && i < |Nodes| && j < |Nodes| && i != j
      ensures Nodes[i] != Nodes[j]
    {
      if i < j { Acyclic(i, j); } else { Acyclic(j, i); }
    }

    /** The node at `k` differs from every other listed node. */
    lemma Apart(k: nat)
      requires Valid() && k < |Nodes|
      ensures forall j :: 0 <= j < |Nodes| && j != k ==> Nodes[j] != Nodes[k]
    {
      forall j | 0 <= j < |Nodes| && j != k
        ensures Nodes[j] != Nodes[k]
      {
        if j < k { Acyclic(j, k); } else { Acyclic(k, j); }
      }
    }

    /** The neighbours of the node at `k`, wrapping round at both ends. */
    lemma Neighbours(k: nat)
      requires Valid() && k < |Nodes|
      ensures Nodes[k].next == Nodes[if k + 1 < |Nodes| then k + 1 else 0]
      ensures Nodes[k].prev == Nodes[if k == 0 then |Nodes| - 1 else k - 1]
    {
      if k + 1 < |Nodes| {
        assert Nodes[k].next == Nodes[k + 1];
      }
      if k > 0 {
        assert Nodes[k].prev == Nodes[k - 1];
      }
    }

    /** `k` steps from `tail` reach the node listed at `k - 1`. */
    lemma {:induction false} FollowFromTail(k: nat)
      requires Valid() && Nodes != [] && k <= |Nodes|
      ensures Follow(tail, k) == if k == 0 then tail else Nodes[k - 1]
    {
      if k > 0 {
        FollowFromTail(k - 1);
        Neighbours(if k == 1 then |Nodes| - 1 else k - 2);
      }
    }

    /** The ring closes: `next` leads from `tail` back to `tail` in exactly `|Contents|` steps. */
    lemma RingCloses()
      requires Valid() && Nodes != []
      ensures Follow(tail, |Contents|) == tail
      ensures forall k :: 0 < k < |Contents| ==> Follow(tail, k) != tail
    {
      FollowFromTail(|Nodes|);
      Apart(|Nodes| - 1);
      forall k | 0 < k < |Nodes|
        ensures Follow(tail, k) != tail
      {
        FollowFromTail(k);
      }
    }

    /** The two link directions agree on every pair of listed nodes. */
    lemma LinksAgree()
      requires Valid()
      ensures forall x, y :: x in Nodes && y in Nodes ==> (x.next == y <==> y.prev == x)
    {
      forall x, y | x in Nodes && y in Nodes
        ensures x.next == y <==> y.prev == x
      {
        var i :| 0 <= i < |Nodes| && Nodes[i] == x;
        var j :| 0 <= j < |Nodes| && Nodes[j] == y;
        Neighbours(i);
        Neighbours(j);
        Apart(i);
        Apart(j);
      }
    }

    /** An empty ring: `tail` is NULL. */
    constructor ()
      ensures Valid() && fresh(Repr)
      ensures Contents == [] && tail == null
    {
      tail := null;
      Contents, Nodes := [], [];
      Repr := {this};
    }

    /**
     * Inserts `d` after the node holding `element` that a scan from `tail`
     * meets first; an empty ring becomes the one-node ring `d`.
     */
    method InsertNode(element: int, d: int)
      requires Valid()
      modifies Repr
      ensures Valid() && fresh(Repr - old(Repr))
      ensures Contents == InsertAfterValue(old(Contents), element, d)
    {
      if tail == null {
        var newNode := new Node(d);
        tail := newNode;
        newNode.next := newNode;
        newNode.prev := newNode;
        Nodes, Contents := [newNode], [d];
        Repr := Repr + {newNode};
        return;
      }
      var curr, found, k := FindFromTail(element);
      if found {
        // The splice is the same four steps wherever the match is, and
        // then `tail` moves when the match was `tail`; the two cases are
        // proved apart.
        Apart(|Nodes| - 1);
        if curr == tail {
          InsertAfterTail(d);
        } else {
          InsertAfter(curr, k, d);
        }
      }
    }

    /**
     * The do-while scan of both `insertNode` and `deleteNode`: it looks at
     * `tail` first, then follows `next` from the first node until it is back
     * at `tail`.
     */
    method FindFromTail(x: int) returns (curr: Node, found: bool, ghost k: nat)
      requires Valid() && Nodes != []
      ensures found <==> x in Contents
      ensures found ==> k == TailFirstIndexOf(Contents, x) && curr == Nodes[k]
    {
      curr := tail;
      found, k := false, 0;
      ghost var s: nat := 0;
      while true
        invariant 0 <= s < |Nodes|
        invariant s == 0 ==> curr == tail
        invariant s > 0 ==> curr == Nodes[s - 1] && Contents[|Nodes| - 1] != x
        invariant forall j :: 0 <= j < s - 1 ==> Contents[j] != x
        decreases |Nodes| - s
      {
        if curr.data == x {
          found := true;
          k := if s == 0 then |Nodes| - 1 else s - 1;
          assert Contents[k] == x;
          return;
        }
        Neighbours(if s == 0 then |Nodes| - 1 else s - 1);
        Apart(|Nodes| - 1);
        curr := curr.next;
        s := s + 1;
        if curr == tail {
          FirstIndexOfAbsent(Contents, x);
          return;
        }
      }
    }

    /** The splice of `insertNode` when the match is `tail`: the new node goes last and becomes `tail`. */
    method InsertAfterTail(d: int)
      requires Valid() && Nodes != []
      modifies Repr
      ensures Valid() && fresh(Repr - old(Repr))
      ensures Contents == old(Contents) + [d]
    {
      ghost var before := Nodes;
      ghost var n := |Nodes|;
      Apart(n - 1);
      Neighbours(n - 1);
      Neighbours(0);
      var curr := tail;
      var temp := new Node(d);
      temp.next := curr.next;
      curr.next.prev := temp;
      curr.next := temp;
      temp.prev := curr;
      tail := temp;
      Nodes, Contents := Nodes + [temp], Contents + [d];
      Repr := Repr + {temp};
      assert forall j :: 0 <= j < n ==> Nodes[j] == before[j];
      forall j | 0 <= j < |Nodes| - 1
        ensures Nodes[j].next == Nodes[j + 1] && Nodes[j + 1].prev == Nodes[j]
      {
        if j < n - 1 {
          assert before[j].next == before[j + 1] && before[j + 1].prev == before[j];
        }
      }
    }

    /** The splice of `insertNode` after `curr`, at index `k` before the last; `tail` stays. */
    method InsertAfter(curr: Node, ghost k: nat, d: int)
      requires Valid() && k < |Nodes| - 1 && curr == Nodes[k]
      modifies Repr
      ensures Valid() && fresh(Repr - old(Repr))
      ensures Contents == InsertAt(old(Contents), k + 1, d)
    {
      ghost var before := Nodes;
      Apart(k);
      Apart(k + 1);
      Neighbours(k);
      var temp := new Node(d);
      temp.next := curr.next;
      curr.next.prev := temp;
      curr.next := temp;
      temp.prev := curr;
      Nodes := Nodes[..k + 1] + [temp] + Nodes[k + 1..];
      Contents := Contents[..k + 1] + [d] + Contents[k + 1..];
      Repr := Repr + {temp};
      ValuesInsert(before, k + 1, temp);
      assert forall j :: 0 <= j <= k ==> Nodes[j] == before[j];
      assert forall j :: k + 1 < j < |Nodes| ==> Nodes[j] == before[j - 1];
      assert Nodes[0] == before[0] && Nodes[|Nodes| - 1] == before[|before| - 1];
      forall j | 0 <= j < |Nodes| - 1
        ensures Nodes[j].next == Nodes[j + 1] && Nodes[j + 1].prev == Nodes[j]
      {
        if j < k {
          assert before[j].next == before[j + 1] && before[j + 1].prev == before[j];
        } else if k + 1 < j {
          assert before[j - 1].next == before[j] && before[j].prev == before[j - 1];
        }
      }
    }

    /**
     * Unlinks the node holding `value` that a scan from `tail` meets first;
     * an empty ring and an absent value leave the ring as it is.
     */
    method DeleteNode(value: int)
      requires Valid()
      modifies Repr
      ensures Valid() && Repr <= old(Repr)
      ensures Contents == DeleteValue(old(Contents), value)
    {
      if tail == null {
        return;
      }
      var curr, found, k := FindFromTail(value);
      if !found {
        return;
      }
      Neighbours(k);
      Apart(k);
      if curr.next == curr {
        tail := null;
        Nodes, Contents := [], [];
        Repr := Repr - {curr};
        return;
      }
      // The unlink is the same two steps wherever the match is, and then
      // `tail` moves back when the match was `tail`; the two cases are
      // proved apart.
      Apart(|Nodes| - 1);
      if curr == tail {
        UnlinkTail();
      } else {
        Unlink(curr, k);
      }
    }

    /** The unlink of `deleteNode` when the match is `tail` on a ring of two or more. */
    method UnlinkTail()
      requires Valid() && 2 <= |Nodes|
      modifies Repr
      ensures Valid() && Repr == old(Repr) - {old(tail)}
      ensures Contents == old(Contents)[..|old(Contents)| - 1]
    {
      ghost var n := |Nodes|;
      Apart(n - 1);
      Apart(n - 2);
      Neighbours(n - 1);
      Neighbours(0);
      var curr := tail;
      curr.prev.next := curr.next;
      curr.next.prev := curr.prev;
      tail := curr.prev;
      Nodes, Contents := Nodes[..n - 1], Contents[..n - 1];
      Repr := Repr - {curr};
      Detach(curr);
    }

    /** The unlink of `deleteNode` for a node `curr` at index `k` other than `tail`. */
    method Unlink(curr: Node, ghost k: nat)
      requires Valid() && 2 <= |Nodes| && k < |Nodes| - 1 && curr == Nodes[k]
      modifies Repr
      ensures Valid() && Repr == old(Repr) - {curr}
      ensures Contents == RemoveAt(old(Contents), k)
    {
      ghost var before := Nodes;
      ghost var p := if k == 0 then |Nodes| - 1 else k - 1;
      Apart(k);
      Apart(p);
      Apart(k + 1);
      Neighbours(k);
      curr.prev.next := curr.next;
      curr.next.prev := curr.prev;
      Nodes := Nodes[..k] + Nodes[k + 1..];
      Contents := Contents[..k] + Contents[k + 1..];
      Repr := Repr - {curr};
      ValuesRemove(before, k);
      if k == 0 {
        assert forall j :: 0 <= j < |Nodes| ==> Nodes[j] == before[j + 1];
        forall j | 0 <= j < |Nodes| - 1
          ensures Nodes[j].next == Nodes[j + 1] && Nodes[j + 1].prev == Nodes[j]
        {
          assert before[j + 1].next == before[j + 2] && before[j + 2].prev == before[j + 1];
        }
      } else {
        assert forall j :: 0 <= j < k ==> Nodes[j] == before[j];
        assert forall j :: k <= j < |Nodes| ==> Nodes[j] == before[j + 1];
        forall j | 0 <= j < |Nodes| - 1
          ensures Nodes[j].next == Nodes[j + 1] && Nodes[j + 1].prev == Nodes[j]
        {
          if j < k - 1 {
            assert before[j].next == before[j + 1] && before[j + 1].prev == before[j];
          } else if k <= j {
            assert before[j + 1].next == before[j + 2] && before[j + 2].prev == before[j + 1];
          }
        }
      }
      Detach(curr);
    }
  }

  /** Clears both links of a node that has left the ring. */
  method Detach(x: Node)
    modifies x
    ensures x.next == null && x.prev == null
  {
    x.next := null;
    x.prev := null;
  }

  /** The first insertions of the source's demonstration, from an empty ring. */
  method DemoFirstInserts() returns (l: List)
    ensures l.Valid() && fresh(l.Repr)
    ensures l.Contents == [1, 3, 5]
  {
    l := new List();
    l.InsertNode(5, 1);
    assert l.Contents == [1];
    l.InsertNode(1, 3);
    assert l.Contents == [1, 3];
    l.InsertNode(3, 5);
  }

  /** The remaining insertions of the source's demonstration. */
  method DemoInserts() returns (l: List)
    ensures l.Valid() && fresh(l.Repr)
    ensures l.Contents == [1, 2, 3, 4, 5]
  {
    l := DemoFirstInserts();
    l.InsertNode(1, 2);
    assert l.Contents == [1, 2, 3, 5] by {
      assert FirstIndexOf([1, 3, 5], 1) == 0;
    }
    l.InsertNode(3, 4);
    assert l.Contents == [1, 2, 3, 4, 5] by {
      assert FirstIndexOf([1, 2, 3, 5], 3) == 2;
    }
  }

  /** The first deletions of the source's demonstration. */
  method DemoFirstDeletes() returns (l: List)
    ensures l.Valid() && fresh(l.Repr)
    ensures l.Contents == [1, 4, 5]
  {
    l := DemoInserts();
    l.DeleteNode(3);
    assert l.Contents == [1, 2, 4, 5] by {
      assert FirstIndexOf([1, 2, 3, 4, 5], 3) == 2;
    }
    l.DeleteNode(2);
    assert l.Contents == [1, 4, 5] by {
      assert FirstIndexOf([1, 2, 4, 5], 2) == 1;
    }
  }

  /** The remaining deletions of the source's demonstration, which empty the ring again. */
  method DemoLastDeletes() returns (l: List)
    ensures l.Valid() && fresh(l.Repr)
    ensures l.Contents == [] && l.tail == null
  {
    l := DemoFirstDeletes();
    l.DeleteNode(1);
    assert l.Contents == [4, 5] by {
      assert TailFirstIndexOf([1, 4, 5], 1) == 0;
    }
    l.DeleteNode(4);
    assert l.Contents == [5] by {
      assert TailFirstIndexOf([4, 5], 4) == 0;
    }
    l.DeleteNode(5);
    assert l.Contents == [] by {
      assert TailFirstIndexOf([5], 5) == 0;
    }
    assert l.tail == null;
  }
}
