// Linear doubly linked list (LinkedList/DoublyLinkedList.cpp).
//
// The source passes `head` and `tail` by reference to free functions; here
// they are the two fields of a list handle. The ghost sequence `Nodes` lists
// the nodes from head to tail and `Contents` their payloads; `Valid` ties
// every node's `next` and `prev` to its neighbours in `Nodes`. That no node
// occurs twice is not part of `Valid`: it follows from the links, since the
// last node's `next` is NULL (lemma `Acyclic`). Freeing a node becomes
// unlinking it and dropping it from `Repr`.
module DoublyLinkedList {
  import opened SeqEdits

  /** A node; its payload is set once, by the constructor. */
  class Node {
    const data: int
    var prev: Node?
    var next: Node?

    constructor (d: int)
      ensures data == d && prev == null && next == null
    {
      data := d;
      prev := null;
      next := null;
    }
  }

  /** The payloads of `ns`, in order. */
  ghost function Values(ns: seq<Node>): (r: seq<int>)
    ensures |r| == |ns|
  {
    seq(|ns|, i requires 0 <= i < |ns| => ns[i].data)
  }

  /** Taking a node out takes its payload out. */
  lemma ValuesRemove(ns: seq<Node>, k: nat)
    requires k < |ns|
    ensures Values(ns[..k] + ns[k + 1..]) == Values(ns)[..k] + Values(ns)[k + 1..]
  {
  }

  /** Putting a node in puts its payload in. */
  lemma ValuesInsert(ns: seq<Node>, k: nat, x: Node)
    requires k <= |ns|
    ensures Values(ns[..k] + [x] + ns[k..]) == Values(ns)[..k] + [x.data] + Values(ns)[k..]
  {
  }

  /** The 0-based index at which `insertAtMiddle(n, d)` places `d`. */
  function MiddleIndex(n: int): nat
  {
    if n == 1 then 0 else if n >= 2 then n - 1 else 1
  }

  class List {
    var head: Node?
    var tail: Node?
    ghost var Contents: seq<int>
    ghost var Nodes: seq<Node>
    ghost var Repr: set<object>

    ghost predicate Valid()
      reads this, Repr
    {
      this in Repr &&
      (forall i :: 0 <= i < |Nodes| ==> Nodes[i] in Repr) &&
      Contents == Values(Nodes) &&
      head == (if Nodes == [] then null else Nodes[0]) &&
      tail == (if Nodes == [] then null else Nodes[|Nodes| - 1]) &&
      (forall i :: 0 <= i < |Nodes| - 1 ==> Nodes[i].next == Nodes[i + 1]) &&
      (forall i :: 0 <= i < |Nodes| - 1 ==> Nodes[i + 1].prev == Nodes[i]) &&
      (Nodes != [] ==> Nodes[0].prev == null && Nodes[|Nodes| - 1].next == null)
    }

    /** Following `next` from a node never comes back to it: no node is listed twice. */
    lemma {:induction false} Acyclic(i: nat, j: nat)
      requires Valid() && i < j < |Nodes|
      ensures Nodes[i] != Nodes[j]
      decreases |Nodes| - j
    {
      if j < |Nodes| - 1 {
        Acyclic(i + 1, j + 1);
        assert Nodes[i].next == Nodes[i + 1] && Nodes[j].next == Nodes[j + 1];
      } else {
        assert Nodes[i].next == Nodes[i + 1];
      }
    }

    /** The successor of the node at `k`: the next listed node, or NULL after the last. */
    lemma NextOf(k: nat)
      requires Valid() && k < |Nodes|
      ensures Nodes[k].next == if k + 1 < |Nodes| then Nodes[k + 1] else null
    {
      if k + 1 < |Nodes| {
        assert Nodes[k].next == Nodes[k + 1];
      }
    }

    /** The node at `k` differs from every other listed node. */
    lemma Apart(k: nat)
      requires Valid() && k < |Nodes|
      ensures forall j :: 0 <= j < |Nodes| && j != k ==> Nodes[j] != Nodes[k]
    {
      forall j | 0 <= j < |Nodes| && j != k
        ensures Nodes[j] != Nodes[k]
      {
        if j < k { Acyclic(j, k); } else { Acyclic(k, j); }
      }
    }

    /** An empty list: both references NULL. */
    constructor ()
      ensures Valid() && fresh(Repr)
      ensures Contents == [] && head == null && tail == null
    {
      head, tail := null, null;
      Contents, Nodes := [], [];
      Repr := {this};
    }

    method InsertAtHead(d: int)
      requires Valid()
      modifies Repr
      ensures Valid() && fresh(Repr - old(Repr))
      ensures Contents == [d] + old(Contents)
      ensures old(Contents) == [] ==> head == tail
      ensures old(Contents) != [] ==> tail == old(tail)
    {
      var newNode := new Node(d);
      if head == null {
        head, tail := newNode, newNode;
        Nodes, Contents := [newNode], [d];
        Repr := Repr + {newNode};
        return;
      }
      Apart(0);
      newNode.next := head;
      head.prev := newNode;
      head := newNode;
      Nodes, Contents := [newNode] + Nodes, [d] + Contents;
      Repr := Repr + {newNode};
      assert forall k :: 1 <= k < |Nodes| ==> Nodes[k] == old(Nodes)[k - 1];
    }

    method InsertAtTail(d: int)
      requires Valid()
      modifies Repr
      ensures Valid() && fresh(Repr - old(Repr))
      ensures Contents == old(Contents) + [d]
      ensures old(Contents) != [] ==> head == old(head)
      ensures old(Contents) == [] ==> head == tail
    {
      var newNode := new Node(d);
      if tail == null {
        head, tail := newNode, newNode;
        Nodes, Contents := [newNode], [d];
        Repr := Repr + {newNode};
        return;
      }
      Apart(|Nodes| - 1);
      tail.next := newNode;
      newNode.prev := tail;
      tail := newNode;
      Nodes, Contents := Nodes + [newNode], Contents + [d];
      Repr := Repr + {newNode};
      assert forall k :: 0 <= k < |old(Nodes)| ==> Nodes[k] == old(Nodes)[k];
    }

    /**
     * Places `d` at 1-based position `n`. Position 1 goes to the head; the
     * walk stops at node `n - 1`, and when that node is the last one the tail
     * path is taken. A position below 1 on a non-empty list walks no step and
     * so inserts after the head. On an empty list any `n` other than 1, and
     * any `n` past `|Contents| + 1`, walks off the end of the list.
     */
    method InsertAtMiddle(n: int, d: int)
      requires Valid()
      requires n == 1 || (Contents != [] && n <= |Contents| + 1)
      modifies Repr
      ensures Valid() && fresh(Repr - old(Repr))
      ensures Contents == InsertAt(old(Contents), MiddleIndex(n), d)
    {
      if n == 1 {
        InsertAtHead(d);
        return;
      }
      var temp := head;
      var i := 1;
      while i < n - 1
        invariant 1 <= i <= MiddleIndex(n) <= |Nodes|
        invariant temp == Nodes[i - 1]
      {
        temp := temp.next;
        i := i + 1;
      }
      assert i == MiddleIndex(n);
      NextOf(i - 1);
      if temp.next == null {
        assert InsertAt(Contents, i, d) == Contents + [d];
        InsertAtTail(d);
        return;
      }
      SpliceIn(temp, i, d);
    }

    /** The splice of `insertAtMiddle`: a new node between `temp` (at `i - 1`) and its successor. */
    method SpliceIn(temp: Node, ghost i: nat, d: int)
      requires Valid() && 0 < i < |Nodes| && temp == Nodes[i - 1]
      modifies Repr
      ensures Valid() && fresh(Repr - old(Repr))
      ensures Contents == InsertAt(old(Contents), i, d)
    {
      ghost var before := Nodes;
      Apart(i - 1);
      Apart(i);
      var newNode := new Node(d);
      newNode.next := temp.next;
      temp.next.prev := newNode;
      temp.next := newNode;
      newNode.prev := temp;
      Nodes := Nodes[..i] + [newNode] + Nodes[i..];
      Contents := Contents[..i] + [d] + Contents[i..];
      Repr := Repr + {newNode};
      ValuesInsert(before, i, newNode);
      assert forall j :: 0 <= j < i ==> Nodes[j] == before[j];
      assert forall j :: i < j < |Nodes| ==> Nodes[j] == before[j - 1];
      assert Nodes[i] == newNode;
    }

    /**
     * Unlinks the node at 1-based position `pos`. An empty list and a
     * position past the end are left as they are. A position below 1 on a
     * non-empty list dereferences the NULL `prev` of the head.
     */
    method DeleteNode(pos: int)
      requires Valid()
      requires pos >= 1 || Contents == []
      modifies Repr
      ensures Valid() && Repr <= old(Repr)
      ensures Contents == if 1 <= pos <= |old(Contents)| then RemoveAt(old(Contents), pos - 1)
                          else old(Contents)
      ensures Contents == [] ==> head == null && tail == null
    {
      if head == null {
        return;
      }
      if pos == 1 {
        DeleteFirst();
        return;
      }
      var curr := head;
      var i := 1;
      while i < pos && curr != null
        invariant 1 <= i <= pos
        invariant curr == (if i - 1 < |Nodes| then Nodes[i - 1] else null)
      {
        curr := curr.next;
        i := i + 1;
      }
      if curr == null {
        return;
      }
      NextOf(i - 1);
      if curr.next == null {
        DeleteLast();
        return;
      }
      Unlink(curr, i - 1);
    }

    /** The `pos == 1` case of `deleteNode`: the head moves to its successor. */
    method DeleteFirst()
      requires Valid() && Nodes != []
      modifies Repr
      ensures Valid() && Repr == old(Repr) - {old(head)}
      ensures Contents == old(Contents)[1..]
      ensures Contents == [] ==> head == null && tail == null
    {
      var temp := head;
      Apart(0);
      NextOf(0);
      head := head.next;
      if head != null {
        head.prev := null;
      } else {
        tail := null;
      }
      Nodes, Contents := Nodes[1..], Contents[1..];
      Repr := Repr - {temp};
    }

    /** The case of `deleteNode` where the node found is the last of two or more. */
    method DeleteLast()
      requires Valid() && |Nodes| >= 2
      modifies Repr
      ensures Valid() && Repr == old(Repr) - {old(tail)}
      ensures Contents == old(Contents)[..|old(Contents)| - 1]
    {
      ghost var k := |Nodes| - 1;
      Apart(k);
      Apart(k - 1);
      var curr := tail;
      tail := curr.prev;
      tail.next := null;
      Nodes, Contents := Nodes[..k], Contents[..k];
      Repr := Repr - {curr};
    }

    /** The interior case of `deleteNode`: `curr`, at index `k`, has both neighbours. */
    method Unlink(curr: Node, ghost k: nat)
      requires Valid() && 0 < k < |Nodes| - 1 && curr == Nodes[k]
      modifies Repr
      ensures Valid() && Repr == old(Repr) - {curr}
      ensures Contents == RemoveAt(old(Contents), k)
    {
      ghost var before := Nodes;
      Apart(k - 1);
      Apart(k);
      Apart(k + 1);
      curr.prev.next := curr.next;
      curr.next.prev := curr.prev;
      Nodes := Nodes[..k] + Nodes[k + 1..];
      Contents := Contents[..k] + Contents[k + 1..];
      Repr := Repr - {curr};
      ValuesRemove(before, k);
      assert forall j :: 0 <= j < |Nodes| ==> Nodes[j] == if j < k then before[j] else before[j + 1];
    }

    /** Counts the nodes reachable from `head`. */
    method Len() returns (cnt: int)
      requires Valid()
      ensures cnt == |Contents|
    {
      var temp := head;
      cnt := 0;
      while temp != null
        invariant 0 <= cnt <= |Nodes|
        invariant temp == (if cnt < |Nodes| then Nodes[cnt] else null)
        decreases |Nodes| - cnt
      {
        NextOf(cnt);
        cnt := cnt + 1;
        temp := temp.next;
      }
    }

    /** The two link directions agree, and the ends carry NULL links. */
    lemma LinksAgree()
      requires Valid()
      ensures forall x, y :: x in Nodes && y in Nodes ==> (x.next == y <==> y.prev == x)
      ensures head != null ==> head.prev == null
      ensures tail != null ==> tail.next == null
    {
      forall x, y | x in Nodes && y in Nodes
        ensures x.next == y <==> y.prev == x
      {
        var i :| 0 <= i < |Nodes| && Nodes[i] == x;
        var j :| 0 <= j < |Nodes| && Nodes[j] == y;
        if x.next == y {
          Apart(j);
          assert i + 1 < |Nodes| && Nodes[i + 1] == y;
        }
        if y.prev == x {
          Apart(i);
          assert 0 < j && Nodes[j - 1] == x;
        }
      }
    }
  }

  /** The insertions of the source's demonstration, from the one-node list holding 11. */
  method DemoInserts() returns (l: List)
    ensures l.Valid() && fresh(l.Repr)
    ensures l.Contents == [10, 11, 12, 13]
  {
    l := new List();
    l.InsertAtHead(11);
    assert l.Contents == [11];
    l.InsertAtHead(10);
    l.InsertAtTail(13);
    l.InsertAtMiddle(3, 12);
  }

  /** The length it prints, then the three deletions that follow. */
  method Demo() returns (l: List, n: int)
    ensures l.Valid() && fresh(l.Repr)
    ensures n == 4 && l.Contents == [11]
  {
    l := DemoInserts();
    n := l.Len();
    assert n == 4;
    l.DeleteNode(1);
    assert l.Contents == [11, 12, 13];
    l.DeleteNode(2);
    assert l.Contents == [11, 13];
    l.DeleteNode(2);
    assert l.Contents == [11];
  }
}
