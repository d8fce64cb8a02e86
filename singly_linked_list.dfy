// Linear singly linked list (LinkedList/SinglyLinkedList.cpp).
//
// As in the doubly linked model, `head` and `tail` are the fields of a list
// handle, `Nodes` lists the nodes from head to tail and `Contents` their
// payloads. One difference is kept from the source: `insertAtHead` never
// touches `tail`, so a list grown only at its head has a NULL `tail`. `Valid`
// therefore allows `tail` to be NULL on a non-empty list; when it is not
// NULL it is the last node.
module SinglyLinkedList {
  import opened SeqEdits

  /** A node; its payload is set once, by the constructor. */
  class Node {
    const data: int
    var next: Node?

    constructor (d: int)
      ensures data == d && next == null
    {
      data := d;
      next := null;
    }
  }

  /** The payloads of `ns`, in order. */
  ghost function Values(ns: seq<Node>): (r: seq<int>)
    ensures |r| == |ns|
  {
    seq(|ns|, i requires 0 <= i < |ns| => ns[i].data)
  }

  /** Taking a node out takes its payload out. */
  lemma ValuesRemove(ns: seq<Node>, k: nat)
    requires k < |ns|
    ensures Values(ns[..k] + ns[k + 1..]) == Values(ns)[..k] + Values(ns)[k + 1..]
  {
  }

  /** Putting a node in puts its payload in. */
  lemma ValuesInsert(ns: seq<Node>, k: nat, x: Node)
    requires k <= |ns|
    ensures Values(ns[..k] + [x] + ns[k..]) == Values(ns)[..k] + [x.data] + Values(ns)[k..]
  {
  }

  /** The 0-based index at which `insertAtMiddle(d, n)` places `d`. */
  function MiddleIndex(n: int): nat
  {
    if n == 1 then 0 else if n >= 2 then n - 1 else 1
  }

  class List {
    var head: Node?
    var tail: Node?
    ghost var Contents: seq<int>
    ghost var Nodes: seq<Node>
    ghost var Repr: set<object>

    ghost predicate Valid()
      reads this, Repr
    {
      this in Repr &&
      (forall i :: 0 <= i < |Nodes| ==> Nodes[i] in Repr) &&
      Contents == Values(Nodes) &&
      head == (if Nodes == [] then null else Nodes[0]) &&
      (tail == null || (Nodes != [] && tail == Nodes[|Nodes| - 1])) &&
      (forall i :: 0 <= i < |Nodes| - 1 ==> Nodes[i].next == Nodes[i + 1]) &&
      (Nodes != [] ==> Nodes[|Nodes| - 1].next == null)
    }

    /** Following `next` from a node never comes back to it: no node is listed twice. */
    lemma {:induction false} Acyclic(i: nat, j: nat)
      requires Valid() && i < j < |Nodes|
      ensures Nodes[i] != Nodes[j]
      decreases |Nodes| - j
    {
      if j < |Nodes| - 1 {
        Acyclic(i + 1, j + 1);
        assert Nodes[i].next == Nodes[i + 1] && Nodes[j].next == Nodes[j + 1];
      } else {
        assert Nodes[i].next == Nodes[i + 1];
      }
    }

    /** The successor of the node at `k`: the next listed node, or NULL after the last. */
    lemma NextOf(k: nat)
      requires Valid() && k < |Nodes|
      ensures Nodes[k].next == if k + 1 < |Nodes| then Nodes[k + 1] else null
    {
      if k + 1 < |Nodes| {
        assert Nodes[k].next == Nodes[k + 1];
      }
    }

    /** The node at `k` differs from every other listed node. */
    lemma Apart(k: nat)
      requires Valid() && k < |Nodes|
      ensures forall j :: 0 <= j < |Nodes| && j != k ==> Nodes[j] != Nodes[k]
    {
      forall j | 0 <= j < |Nodes| && j != k
        ensures Nodes[j] != Nodes[k]
      {
        if j < k { Acyclic(j, k); } else { Acyclic(k, j); }
      }
    }

    /** An empty list: both references NULL. */
    constructor ()
      ensures Valid() && fresh(Repr)
      ensures Contents == [] && head == null && tail == null
    {
      head, tail := null, null;
      Contents, Nodes := [], [];
      Repr := {this};
    }

    /** One node that is both head and tail, as the demonstration starts. */
    constructor Single(d: int)
      ensures Valid() && fresh(Repr)
      ensures Contents == [d] && head != null && tail == head
    {
      var node := new Node(d);
      head, tail := node, node;
      Contents, Nodes := [d], [node];
      Repr := {this, node};
    }

    /** Links a new node before `head`; `tail` is left as it was, even on an empty list. */
    method InsertAtHead(d: int)
      requires Valid()
      modifies Repr
      ensures Valid() && fresh(Repr - old(Repr))
      ensures Contents == [d] + old(Contents)
      ensures tail == old(tail)
    {
      var temp := new Node(d);
      if head != null {
        Apart(0);
      }
      temp.next := head;
      head := temp;
      Nodes, Contents := [temp] + Nodes, [d] + Contents;
      Repr := Repr + {temp};
      assert forall k :: 1 <= k < |Nodes| ==> Nodes[k] == old(Nodes)[k - 1];
    }

    /** Links a new node after `tail`; the source dereferences `tail`, so it must be set. */
    method InsertAtTail(d: int)
      requires Valid() && tail != null
      modifies Repr
      ensures Valid() && fresh(Repr - old(Repr))
      ensures Contents == old(Contents) + [d]
      ensures head == old(head) && tail != null
    {
      var temp := new Node(d);
      Apart(|Nodes| - 1);
      tail.next := temp;
      tail := tail.next;
      Nodes, Contents := Nodes + [temp], Contents + [d];
      Repr := Repr + {temp};
      assert forall k :: 0 <= k < |old(Nodes)| ==> Nodes[k] == old(Nodes)[k];
    }

    /**
     * Places `d` at 1-based position `n`, as in the doubly linked list. When
     * the walk ends on the last node the tail path is taken, which needs a
     * known `tail`.
     */
    method InsertAtMiddle(d: int, n: int)
      requires Valid()
      requires n == 1 || (Contents != [] && n <= |Contents| + 1)
      requires n != 1 && MiddleIndex(n) == |Contents| ==> tail != null
      modifies Repr
      ensures Valid() && fresh(Repr - old(Repr))
      ensures Contents == InsertAt(old(Contents), MiddleIndex(n), d)
      ensures old(tail) != null ==> tail != null
    {
      if n == 1 {
        InsertAtHead(d);
        return;
      }
      var temp := head;
      var i := 1;
      while i < n - 1
        invariant 1 <= i <= MiddleIndex(n) <= |Nodes|
        invariant temp == Nodes[i - 1]
      {
        temp := temp.next;
        i := i + 1;
      }
      assert i == MiddleIndex(n);
      NextOf(i - 1);
      if temp.next == null {
        assert InsertAt(Contents, i, d) == Contents + [d];
        InsertAtTail(d);
        return;
      }
      SpliceIn(temp, i, d);
    }

    /** The splice of `insertAtMiddle`: a new node between `temp` (at `i - 1`) and its successor. */
    method SpliceIn(temp: Node, ghost i: nat, d: int)
      requires Valid() && 0 < i < |Nodes| && temp == Nodes[i - 1]
      modifies Repr
      ensures Valid() && fresh(Repr - old(Repr))
      ensures Contents == InsertAt(old(Contents), i, d)
      ensures tail == old(tail)
    {
      ghost var before := Nodes;
      Apart(i - 1);
      var newNode := new Node(d);
      newNode.next := temp.next;
      temp.next := newNode;
      Nodes := Nodes[..i] + [newNode] + Nodes[i..];
      Contents := Contents[..i] + [d] + Contents[i..];
      Repr := Repr + {newNode};
      ValuesInsert(before, i, newNode);
      assert forall j :: 0 <= j < i ==> Nodes[j] == before[j];
      assert forall j :: i < j < |Nodes| ==> Nodes[j] == before[j - 1];
    }

    /**
     * Unlinks the node at 1-based position `n`. The source dereferences the
     * node it walks to and, below position 1, the NULL `prev` it starts from,
     * so `n` must name an existing node.
     */
    method DeleteNode(n: int)
      requires Valid() && 1 <= n <= |Contents|
      modifies Repr
      ensures Valid() && Repr <= old(Repr)
      ensures Contents == RemoveAt(old(Contents), n - 1)
      ensures Contents == [] ==> tail == null
      ensures n < |old(Contents)| ==> tail == old(tail)
      ensures 1 < n == |old(Contents)| ==> tail == old(Nodes)[n - 2]
      ensures Contents != [] && (old(tail) != null || n == |old(Contents)|) ==> tail != null
    {
      if n == 1 {
        DeleteFirst();
        return;
      }
      var curr := head;
      var prev: Node? := null;
      var i := 1;
      while i < n
        invariant 1 <= i <= n
        invariant curr == Nodes[i - 1]
        invariant i > 1 ==> prev == Nodes[i - 2]
      {
        prev := curr;
        curr := curr.next;
        i := i + 1;
      }
      UnlinkAfter(prev, curr, i - 1);
    }

    /** The `n == 1` case of `deleteNode`: the head moves to its successor. */
    method DeleteFirst()
      requires Valid() && Nodes != []
      modifies Repr
      ensures Valid() && Repr == old(Repr) - {old(head)}
      ensures Contents == old(Contents)[1..]
      ensures Contents == [] ==> tail == null
      ensures Contents != [] ==> tail == old(tail)
    {
      var temp := head;
      Apart(0);
      NextOf(0);
      head := head.next;
      if head == null {
        tail := null;
      }
      Nodes, Contents := Nodes[1..], Contents[1..];
      Repr := Repr - {temp};
    }

    /** The general case of `deleteNode`: `curr`, at index `k`, follows `prev`. */
    method UnlinkAfter(prev: Node, curr: Node, ghost k: nat)
      requires Valid() && 0 < k < |Nodes| && prev == Nodes[k - 1] && curr == Nodes[k]
      modifies Repr
      ensures Valid() && Repr == old(Repr) - {curr}
      ensures Contents == RemoveAt(old(Contents), k)
      ensures tail == if k == |old(Nodes)| - 1 then prev else old(tail)
    {
      ghost var before := Nodes;
      Apart(k - 1);
      Apart(k);
      NextOf(k);
      prev.next := curr.next;
      if curr.next == null {
        tail := prev;
      }
      Nodes := Nodes[..k] + Nodes[k + 1..];
      Contents := Contents[..k] + Contents[k + 1..];
      Repr := Repr - {curr};
      ValuesRemove(before, k);
      assert forall j :: 0 <= j < k ==> Nodes[j] == before[j];
      assert forall j :: k <= j < |Nodes| ==> Nodes[j] == before[j + 1];
    }

    /** Counts the nodes reachable from `head`. */
    method Len() returns (cnt: int)
      requires Valid()
      ensures cnt == |Contents|
    {
      var temp := head;
      cnt := 0;
      while temp != null
        invariant 0 <= cnt <= |Nodes|
        invariant temp == (if cnt < |Nodes| then Nodes[cnt] else null)
        decreases |Nodes| - cnt
      {
        NextOf(cnt);
        temp := temp.next;
        cnt := cnt + 1;
      }
    }
  }

  /** The insertions of the source's demonstration, from the one-node list holding 10. */
  method DemoInserts() returns (l: List)
    ensures l.Valid() && fresh(l.Repr)
    ensures l.Contents == [10, 15, 20, 25, 30, 35] && l.tail != null
  {
    l := new List.Single(10);
    l.InsertAtTail(20);
    l.InsertAtTail(30);
    assert l.Contents == [10, 20, 30];
    l.InsertAtMiddle(15, 2);
    assert l.Contents == [10, 15, 20, 30];
    l.InsertAtMiddle(25, 4);
    assert l.Contents == [10, 15, 20, 25, 30];
    l.InsertAtMiddle(35, 6);
    assert l.Contents == [10, 15, 20, 25, 30, 35];
  }

  /**
   * The deletions that follow. The tail stays on the last node throughout,
   * so a further `insertAtTail` would be safe.
   */
  method Demo() returns (l: List)
    ensures l.Valid() && fresh(l.Repr)
    ensures l.Contents == [15, 20, 30, 35] && l.tail != null
  {
    l := DemoInserts();
    l.DeleteNode(1);
    assert l.Contents == [15, 20, 25, 30, 35];
    l.DeleteNode(3);
    assert l.Contents == [15, 20, 30, 35];
  }
}
