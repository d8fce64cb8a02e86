// `len` and `middleNode` of leetcode/876.cpp: count the nodes of a singly
// linked list, then walk half that many steps from the head. Neither
// changes the list.
module MiddleNode {

  /** `ListNode`: a value and the next node, NULL at the end. */
  class ListNode {
    const val: int
    var next: ListNode?

    constructor (x: int, next: ListNode?)
      ensures val == x && this.next == next
    {
      val := x;
      this.next := next;
    }
  }

  /** `head` starts the chain `nodes`: each links to the following one and the last to NULL. */
  ghost predicate IsList(head: ListNode?, nodes: seq<ListNode>)
    reads set k | 0 <= k < |nodes| :: nodes[k]
  {
    head == (if nodes == [] then null else nodes[0]) &&
    (forall i :: 0 <= i < |nodes| - 1 ==> nodes[i].next == nodes[i + 1]) &&
    (nodes != [] ==> nodes[|nodes| - 1].next == null)
  }

  /** `len(head)`: the number of nodes reachable from `head`. */
  method Len(head: ListNode?, ghost nodes: seq<ListNode>) returns (cnt: int)
    requires IsList(head, nodes)
    ensures cnt == |nodes|
  {
    var temp := head;
    cnt := 0;
    while temp != null
      invariant 0 <= cnt <= |nodes|
      invariant temp == if cnt < |nodes| then nodes[cnt] else null
      decreases |nodes| - cnt
    {
      temp := temp.next;
      cnt := cnt + 1;
    }
  }

  /**
   * `middleNode(head)`: the node at 0-based index `len / 2`, which for an
   * even length is the second of the two middle nodes; NULL for an empty
   * list.
   */
  method MiddleNodeOf(head: ListNode?, ghost nodes: seq<ListNode>) returns (m: ListNode?)
    requires IsList(head, nodes)
    ensures nodes == [] ==> m == null
    ensures nodes != [] ==> m == nodes[|nodes| / 2]
  {
    var l := Len(head, nodes);
    var mid := l / 2;
    var temp := head;
    var i := 0;
    while i < mid
      invariant 0 <= i <= mid
      invariant temp == if nodes == [] then null else nodes[i]
    {
      temp := temp.next;
      i := i + 1;
    }
    return temp;
  }

  /** `1 -> 2 -> 3 -> 4`: the middle is the node holding 3, the second of the two middles. */
  method Sample() returns (v: int)
    ensures v == 3
  {
    var n4 := new ListNode(4, null);
    var n3 := new ListNode(3, n4);
    var n2 := new ListNode(2, n3);
    var n1 := new ListNode(1, n2);
    var m := MiddleNodeOf(n1, [n1, n2, n3, n4]);
    v := m.val;
  }
}
