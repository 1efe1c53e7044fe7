/** Circular doubly linked lists with a head node (the lists of fs/buf.c). */
module Ring {
  import opened NodeLists

  /** buffer_node_t; a page of 0 is NULL. */
  class Node {
    var blockNum: nat
    var refs: nat
    var page: nat
    var next: Node?
    var prev: Node?

    constructor (blockNum: nat)
      ensures this.blockNum == blockNum && refs == 0 && page == 0 && next == null && prev == null
    {
      this.blockNum, refs, page, next, prev := blockNum, 0, 0, null, null;
    }
  }

  /** Position `i` on the way around the ring; the head is at both ends. */
  function At(head: Node, s: seq<Node>, i: nat): Node
    requires i <= |s| + 1
  {
    if i == 0 || i == |s| + 1 then head else s[i - 1]
  }

  /** Following `next` from the head meets exactly the nodes of `s`, and `prev` leads back. */
  ghost predicate IsRing(head: Node, s: seq<Node>)
    reads head`next, head`prev, s`next, s`prev
  {
    forall i: nat {:trigger At(head, s, i)} :: i <= |s| ==>
        At(head, s, i).next == At(head, s, i + 1) && At(head, s, i + 1).prev == At(head, s, i)
  }

  ghost predicate Distinct(head: Node, s: seq<Node>) {
    && (forall i {:trigger s[i]} :: 0 <= i < |s| ==> s[i] != head)
    && (forall i, j {:trigger s[i], s[j]} :: 0 <= i < j < |s| ==> s[i] != s[j])
  }

  lemma RemovedDistinct(s: seq<Node>, i: nat, head: Node)
    requires i < |s| && Distinct(head, s)
    ensures Distinct(head, Removed(s, i)) && NotIn(Removed(s, i), s[i])
  {}

  /** With the links of node `i` bypassed, what is left is a ring. */
  lemma RingRemoved(head: Node, s: seq<Node>, i: nat)
    requires i < |s|
    requires forall k: nat {:trigger At(head, s, k)} :: k <= |s| && k != i && k != i + 1 ==>
               At(head, s, k).next == At(head, s, k + 1) && At(head, s, k + 1).prev == At(head, s, k)
    requires At(head, s, i).next == At(head, s, i + 2) && At(head, s, i + 2).prev == At(head, s, i)
    ensures IsRing(head, Removed(s, i))
  {
    var r := Removed(s, i);
    forall k: nat | k <= |r|
      ensures At(head, r, k).next == At(head, r, k + 1) && At(head, r, k + 1).prev == At(head, r, k)
    {
      assert At(head, r, k) == At(head, s, if k <= i then k else k + 1);
      assert At(head, r, k + 1) == At(head, s, if k + 1 <= i then k + 1 else k + 2);
    }
  }

  lemma RingFirst(head: Node, s: seq<Node>, x: Node)
    requires forall k: nat {:trigger At(head, s, k)} :: 0 < k <= |s| ==>
               At(head, s, k).next == At(head, s, k + 1) && At(head, s, k + 1).prev == At(head, s, k)
    requires head.next == x && x.prev == head && x.next == At(head, s, 1) && At(head, s, 1).prev == x
    ensures IsRing(head, [x] + s)
  {
    var r := [x] + s;
    forall k: nat | k <= |r|
      ensures At(head, r, k).next == At(head, r, k + 1) && At(head, r, k + 1).prev == At(head, r, k)
    {
      if k > 0 { assert At(head, r, k + 1) == At(head, s, k) && (k > 1 ==> At(head, r, k) == At(head, s, k - 1)); }
    }
  }

  lemma RingLast(head: Node, s: seq<Node>, x: Node)
    requires forall k: nat {:trigger At(head, s, k)} :: k < |s| ==>
               At(head, s, k).next == At(head, s, k + 1) && At(head, s, k + 1).prev == At(head, s, k)
    requires head.prev == x && x.next == head && x.prev == At(head, s, |s|) && At(head, s, |s|).next == x
    ensures IsRing(head, s + [x])
  {
    var r := s + [x];
    forall k: nat | k <= |r|
      ensures At(head, r, k).next == At(head, r, k + 1) && At(head, r, k + 1).prev == At(head, r, k)
    {
      if k < |r| - 1 { assert At(head, r, k) == At(head, s, k) && At(head, r, k + 1) == At(head, s, k + 1); }
      if k == |r| - 1 { assert At(head, r, k) == At(head, s, k); }
    }
  }

  ghost predicate NotIn(s: seq<Node>, x: Node) {
    forall i {:trigger s[i]} :: 0 <= i < |s| ==> s[i] != x
  }

  /** No node of one ring is in the other. */
  ghost predicate Disjoint(head: Node, s: seq<Node>, head2: Node, s2: seq<Node>) {
    && head != head2 && NotIn(s, head2) && NotIn(s2, head)
    && forall i, j {:trigger s[i], s2[j]} :: 0 <= i < |s| && 0 <= j < |s2| ==> s[i] != s2[j]
  }

  lemma AtApart(head: Node, s: seq<Node>, head2: Node, s2: seq<Node>, i: nat, j: nat)
    requires Disjoint(head, s, head2, s2) && i <= |s| + 1 && j <= |s2| + 1
    ensures At(head, s, i) != At(head2, s2, j)
  {
  }

  /** The first half of insert_node: take a linked node out of its ring. */
  method Unlink(node: Node, ghost head: Node, ghost s: seq<Node>, ghost i: nat, ghost head2: Node, ghost s2: seq<Node>)
    requires IsRing(head, s) && Distinct(head, s) && i < |s| && s[i] == node
    requires IsRing(head2, s2) && Disjoint(head, s, head2, s2)
    modifies At(head, s, i)`next, At(head, s, i + 2)`prev
    ensures IsRing(head, Removed(s, i)) && IsRing(head2, s2)
  {
    forall j: nat | j <= |s2| + 1 ensures At(head2, s2, j) != At(head, s, i) && At(head2, s2, j) != At(head, s, i + 2) {
      AtApart(head, s, head2, s2, i, j);
      AtApart(head, s, head2, s2, i + 2, j);
    }
    assert At(head, s, i + 1) == node && At(head, s, i).next == node;
    if node.next != null && node.prev != null {
      node.next.prev := node.prev;
      node.prev.next := node.next;
    }
    forall k: nat | k <= |s| && k != i && k != i + 1
      ensures At(head, s, k).next == At(head, s, k + 1) && At(head, s, k + 1).prev == At(head, s, k)
    {
    }
    RingRemoved(head, s, i);
  }

  /** The second half of insert_node, at the front of a ring. */
  method LinkFirst(head: Node, node: Node, ghost s: seq<Node>, ghost head2: Node, ghost s2: seq<Node>)
    requires IsRing(head, s) && Distinct(head, s) && NotIn(s, node) && node != head
    requires IsRing(head2, s2) && Disjoint(head, s, head2, s2) && NotIn(s2, node) && node != head2
    modifies node`next, node`prev, head`next, At(head, s, 1)`prev
    ensures IsRing(head, [node] + s) && IsRing(head2, s2)
  {
    forall j: nat | j <= |s2| + 1
      ensures At(head2, s2, j) != At(head, s, 1) && At(head2, s2, j) != head && At(head2, s2, j) != node
    {
      AtApart(head, s, head2, s2, 1, j);
      AtApart(head, s, head2, s2, 0, j);
    }
    assert At(head, s, 0).next == At(head, s, 1);
    node.next := head.next;
    node.next.prev := node;
    node.prev := head;
    head.next := node;
    RingFirst(head, s, node);
  }

  /** The second half of insert_node, at the back of a ring. */
  method LinkLast(head: Node, node: Node, ghost s: seq<Node>, ghost head2: Node, ghost s2: seq<Node>)
    requires IsRing(head, s) && Distinct(head, s) && NotIn(s, node) && node != head
    requires IsRing(head2, s2) && Disjoint(head, s, head2, s2) && NotIn(s2, node) && node != head2
    modifies node`next, node`prev, head`prev, At(head, s, |s|)`next
    ensures IsRing(head, s + [node]) && IsRing(head2, s2)
  {
    forall j: nat | j <= |s2| + 1
      ensures At(head2, s2, j) != At(head, s, |s|) && At(head2, s2, j) != head && At(head2, s2, j) != node
    {
      AtApart(head, s, head2, s2, |s|, j);
      AtApart(head, s, head2, s2, 0, j);
    }
    assert At(head, s, |s| + 1).prev == At(head, s, |s|);
    node.prev := head.prev;
    node.prev.next := node;
    node.next := head;
    head.prev := node;
    RingLast(head, s, node);
  }
}
