/** The buffer cache (fs/buf.c): it stands for the disk, for callers that take turns and write a changed
    buffer before they put it back. */
module BufferCaching {
  import opened BlockDevice
  import opened NodeLists
  import opened Ring
  import Pmem

  /** BLOCK_NUM_UNUSED */
  const UNUSED := 0xFFFF_FFFF

  /** Where a node is before it is moved. */
  datatype Where = Nowhere | Active(i: nat) | Inactive(i: nat)

  ghost predicate ListsOk(active: Node, inactive: Node, actives: seq<Node>, inactives: seq<Node>)
    reads active`next, active`prev, inactive`next, inactive`prev, actives`next, actives`prev, inactives`next
    reads inactives`prev
  {
    && IsRing(active, actives) && IsRing(inactive, inactives)
    && Distinct(active, actives) && Distinct(inactive, inactives) && Disjoint(active, actives, inactive, inactives)
  }

  predicate Whereabouts(actives: seq<Node>, inactives: seq<Node>, x: Node, w: Where) {
    match w
    case Nowhere => (forall i :: 0 <= i < |actives| ==> actives[i] != x) &&
        (forall i :: 0 <= i < |inactives| ==> inactives[i] != x)
    case Active(i) => i < |actives| && actives[i] == x
    case Inactive(i) => i < |inactives| && inactives[i] == x
  }

  /** The active list after a node has left, and after insert_node. */
  function LeftActive(s: seq<Node>, w: Where): seq<Node> { if w.Active? && w.i < |s| then Removed(s, w.i) else s }
  function LeftInactive(s: seq<Node>, w: Where): seq<Node> { if w.Inactive? && w.i < |s| then Removed(s, w.i) else s }
  function Placed(s: seq<Node>, x: Node, here: bool, first: bool): seq<Node> {
    if !here then s else if first then [x] + s else s + [x]
  }

  ghost predicate Unique(nodes: seq<Node>) {
    forall i, j {:trigger nodes[i], nodes[j]} :: 0 <= i < j < |nodes| ==> nodes[i] != nodes[j]
  }

  /** Nodes of different blocks are as many as their blocks. */
  lemma {:induction false} BlocksOf(s: seq<Node>)
    requires forall i: nat, j: nat {:trigger s[i].blockNum, s[j].blockNum} :: i < j < |s| ==>
               s[i].blockNum != s[j].blockNum
    ensures |set i: nat | i < |s| :: s[i].blockNum| == |s|
  {
    if |s| > 0 {
      var t := s[..|s| - 1];
      BlocksOf(t);
      var b := s[|s| - 1].blockNum;
      assert (set i: nat | i < |s| :: s[i].blockNum) == (set i: nat | i < |t| :: t[i].blockNum) + {b};
      assert b !in (set i: nat | i < |t| :: t[i].blockNum);
    }
  }

  /** Buffers as they are before buffer_init links them. */
  ghost predicate Blank(nodes: seq<Node>)
    reads nodes
  {
    && Unique(nodes)
    && (forall k {:trigger nodes[k]} :: 0 <= k < |nodes| ==>
          nodes[k].blockNum == UNUSED && nodes[k].refs == 0 && nodes[k].page == 0 && nodes[k].next == null &&
              nodes[k].prev == null)
  }

  lemma MovedOut(s: seq<Node>, i: nat)
    requires i < |s|
    ensures forall n {:trigger n in s} :: n in s && n != s[i] ==> n in Removed(s, i)
  {
    forall n | n in s && n != s[i] ensures n in Removed(s, i) {
      var k :| 0 <= k < |s| && s[k] == n;
      assert Removed(s, i)[if k < i then k else k - 1] == n;
    }
  }

  lemma EmptyRings(active: Node, inactive: Node)
    requires active.next == active && active.prev == active && inactive.next == inactive && inactive.prev == inactive
    requires active != inactive
    ensures ListsOk(active, inactive, [], [])
  {}

  method NewNodes(n: nat) returns (nodes: seq<Node>)
    ensures |nodes| == n && fresh(nodes) && Blank(nodes)
  {
    nodes := [];
    while |nodes| < n
      invariant |nodes| <= n && fresh(nodes) && Blank(nodes)
    {
      var node := new Node(UNUSED);
      nodes := nodes + [node];
    }
  }

  class BufferCache {
    const active: Node
    const inactive: Node
    const pool: Pmem.Pool
    /** The contents of the pages that buffers hold, and of the disk. */
    var memory: map<nat, Block>
    var disk: map<nat, Block>
    /** buf_cache, and its division into the two lists. */
    ghost const all: seq<Node>
    ghost var actives: seq<Node>
    ghost var inactives: seq<Node>

    /** The blocks as callers see them. */
    ghost var view: map<nat, Block>

    /** A buffer in use holds what callers see; a buffer that is not in use holds what is on the disk. */
    ghost predicate NodeOk(n: Node)
      reads this`memory, this`disk, this`view, pool, n`blockNum, n`refs, n`page
    {
      && (n.page != 0 ==> pool.InRange(n.page) && n.page !in pool.free && n.page in memory)
      && (n.blockNum == UNUSED ==> n.refs == 0 && n.page == 0)
      && (n.blockNum != UNUSED ==>
            && n.page != 0 && n.blockNum in disk && n.blockNum in view
            && memory[n.page] == if n.refs == 0 then disk[n.blockNum] else view[n.blockNum])
    }

    /** Two buffers share neither a page nor a block. */
    ghost predicate Differ(n: Node, m: Node)
      reads n`blockNum, n`page, m`blockNum, m`page
    {
      n != m ==> (n.page == 0 || n.page != m.page) && (n.blockNum == UNUSED || n.blockNum != m.blockNum)
    }

    ghost predicate NodesOk()
      reads this`memory, this`disk, this`view, pool, all`blockNum, all`refs, all`page
    {
      && UNUSED !in disk
      && (forall k {:trigger all[k]} :: 0 <= k < |all| ==> NodeOk(all[k]))
      && (forall j, k {:trigger all[j], all[k]} :: 0 <= j < |all| && 0 <= k < |all| ==> Differ(all[j], all[k]))
    }

    /** The two lists divide the buffers by reference count. */
    ghost predicate Divided()
      reads this`actives, this`inactives, all`refs, actives`refs, inactives`refs
    {
      && (forall k {:trigger all[k]} :: 0 <= k < |all| ==>
          if all[k].refs > 0 then all[k] in actives else all[k] in inactives)
      && (forall i {:trigger actives[i]} :: 0 <= i < |actives| ==> actives[i] in all && actives[i].refs > 0)
      && (forall i {:trigger inactives[i]} :: 0 <= i < |inactives| ==> inactives[i] in all && inactives[i].refs == 0)
    }

    ghost predicate Valid()
      reads this, pool, all`blockNum, all`refs, all`page, active`next, active`prev, inactive`next, inactive`prev
      reads actives`next, actives`prev, inactives`next, inactives`prev, actives`refs, inactives`refs
    {
      Lists() && pool.Valid() && NodesOk() && Divided() && BackedUp() && Sized()
    }

    /** No buffer is counted twice, and every buffer is in one of the lists. */
    ghost predicate Sized()
      reads this`actives, this`inactives
    {
      Unique(all) && |actives| + |inactives| == |all|
    }

    /** Buffers other than `node` hold what they held, for as many users. */
    twostate predicate OthersKept(node: Node)
      reads all`refs, all`blockNum, all`page
    {
      forall k {:trigger all[k]} :: 0 <= k < |all| && all[k] != node ==>
        all[k].refs == old(all[k].refs) && all[k].blockNum == old(all[k].blockNum) && all[k].page == old(all[k].page)
    }

    /** The blocks that callers hold. */
    ghost function Holds(): set<nat>
      reads all`refs, all`blockNum
    {
      set k: nat | k < |all| && all[k].refs > 0 :: all[k].blockNum
    }

    /** As many buffers are in use as blocks are held. */
    lemma HoldsSize()
      requires Valid()
      ensures |Holds()| == |actives|
    {
      hide Lists, Pmem.Pool.Valid, BackedUp, NodesOk, Divided, Sized;
      Distinguished();
      BlocksOf(actives);
      forall c ensures c in Holds() <==> c in (set i: nat | i < |actives| :: actives[i].blockNum) { HeldInActive(c); }
      assert Holds() == set i: nat | i < |actives| :: actives[i].blockNum;
    }

    lemma HeldInActive(c: nat)
      requires Divided()
      ensures c in Holds() <==> c in (set i: nat | i < |actives| :: actives[i].blockNum)
    {
      if c in Holds() {
        var k: nat :| k < |all| && all[k].refs > 0 && all[k].blockNum == c;
        var i: nat :| i < |actives| && actives[i] == all[k];
      }
      if c in (set i: nat | i < |actives| :: actives[i].blockNum) {
        var i: nat :| i < |actives| && actives[i].blockNum == c;
        var k: nat :| k < |all| && all[k] == actives[i];
      }
    }

    lemma Distinguished()
      requires Lists() && NodesOk() && Divided()
      ensures forall i: nat, j: nat :: i < j < |actives| ==> actives[i].blockNum != actives[j].blockNum
    {
      forall i: nat, j: nat | i < j < |actives| ensures actives[i].blockNum != actives[j].blockNum {
        var k: nat :| k < |all| && all[k] == actives[i];
        var m: nat :| m < |all| && all[m] == actives[j];
        assert Differ(all[k], all[m]) && NodeOk(all[k]);
      }
    }

    /** A caller that holds fewer blocks than there are buffers finds one that is not in use: with at least
        three buffers, and at most two of them held, buffer_get never panics for want of a buffer. */
    lemma BufferLeft(held: set<nat>)
      requires Valid() && Holds() == held && |held| < |all|
      ensures inactives != []
    {
      hide Lists, Pmem.Pool.Valid, BackedUp, NodesOk, Divided;
      HoldsSize();
    }

    /** Some caller holds block `b` in buffer `all[k]`. */
    ghost predicate InUse(k: nat, b: nat)
      requires k < |all|
      reads all`refs, all`blockNum
    {
      all[k].refs > 0 && all[k].blockNum == b
    }

    /** What callers see is on the disk, except for blocks in use. */
    ghost predicate BackedUp()
      reads this`disk, this`view, all`refs, all`blockNum
    {
      view.Keys == disk.Keys && forall c {:trigger view[c]} :: c in disk ==> view[c] == disk[c] || exists k: nat ::
          k < |all| && InUse(k, c)
    }

    ghost predicate Lists()
      reads this`actives, this`inactives, active`next, active`prev, inactive`next, inactive`prev, actives`next
      reads actives`prev, inactives`next, inactives`prev
    {
      ListsOk(active, inactive, actives, inactives)
    }

    /** buffer_init, for `n` buffers: none is in use, and none holds a page. */
    constructor (n: nat, pool: Pmem.Pool, disk: map<nat, Block>)
      requires pool.Valid() && UNUSED !in disk
      ensures Valid() && this.pool == pool && this.disk == view == disk && actives == [] && |inactives| == |all| == n
      ensures fresh(active) && fresh(inactive) && fresh(all)
    {
      hide ListsOk, NodesOk, BackedUp, Pmem.Pool.Valid;
      var nodes := NewNodes(n);
      active := new Node(UNUSED);
      inactive := new Node(UNUSED);
      this.pool, this.disk, view, memory := pool, disk, disk, map[];
      all, actives, inactives := nodes, [], [];
      new;
      Init(nodes);
    }

    /** buffer_init once the buffers exist. */
    method Init(nodes: seq<Node>)
      requires pool.Valid() && UNUSED !in disk && view == disk && actives == [] && inactives == [] && Blank(nodes)
      requires nodes == all && active != inactive
      requires forall k {:trigger nodes[k]} :: 0 <= k < |nodes| ==> nodes[k] != active && nodes[k] != inactive
      modifies this`actives, this`inactives, active`next, active`prev, inactive`next, inactive`prev, nodes`next
      modifies nodes`prev
      ensures Valid() && actives == [] && |inactives| == |all|
    {
      hide ListsOk, NodesOk, BackedUp, Pmem.Pool.Valid;
      active.next, active.prev := active, active;
      inactive.next, inactive.prev := inactive, inactive;
      EmptyRings(active, inactive);
      LinkAll(nodes);
      Unused();
    }

    lemma Unused()
      requires UNUSED !in disk && view == disk
      requires forall k {:trigger all[k]} :: 0 <= k < |all| ==>
                 all[k].blockNum == UNUSED && all[k].refs == 0 && all[k].page == 0
      ensures NodesOk() && BackedUp()
    {}

    /** The loop of buffer_init. */
    method LinkAll(nodes: seq<Node>)
      requires Lists() && actives == [] && inactives == [] && Blank(nodes) && nodes == all
      requires forall k {:trigger nodes[k]} :: 0 <= k < |nodes| ==> nodes[k] != active && nodes[k] != inactive
      modifies this`actives, this`inactives, active`next, active`prev, inactive`next, inactive`prev, nodes`next
      modifies nodes`prev
      ensures Lists() && actives == [] && Divided() && Sized() && |inactives| == |all|
    {
      hide IsRing, Distinct, Disjoint;
      var i := 0;
      while i < |nodes|
        invariant 0 <= i <= |nodes| && |inactives| == i && actives == []
        invariant Lists()
        invariant forall k {:trigger nodes[k]} :: i <= k < |nodes| ==> nodes[k].next == null && nodes[k].prev == null
        invariant forall k {:trigger inactives[k]} :: 0 <= k < i ==> inactives[k] == nodes[i - 1 - k]
      {
        forall k | 0 <= k < i ensures inactives[k] != nodes[i] {}
        InsertNode(nodes[i], false, true, Nowhere);
        i := i + 1;
      }
      forall k | 0 <= k < |nodes| ensures nodes[k] in inactives { assert inactives[|nodes| - 1 - k] == nodes[k]; }
    }

    /** A linked node leaves its list. */
    method Leave(node: Node, ghost w: Where)
      requires Lists() && Whereabouts(actives, inactives, node, w) && !w.Nowhere? && node.next != null
      requires node.prev != null
      modifies active`next, active`prev, inactive`next, inactive`prev, actives`next, actives`prev, inactives`next
      modifies inactives`prev
      ensures IsRing(active, LeftActive(actives, w)) && IsRing(inactive, LeftInactive(inactives, w))
    {
      hide IsRing, Removed;
      ghost var head, s := if w.Active? then active else inactive, if w.Active? then actives else inactives;
      ghost var head2, s2 := if w.Active? then inactive else active, if w.Active? then inactives else actives;
      Unlink(node, head, s, w.i, head2, s2);
    }

    /** The node is linked in at one end of a list. */
    method LinkAtEnd(head: Node, node: Node, first: bool, ghost s: seq<Node>, ghost head2: Node, ghost s2: seq<Node>)
      requires IsRing(head, s) && Distinct(head, s) && NotIn(s, node) && node != head
      requires IsRing(head2, s2) && Disjoint(head, s, head2, s2) && NotIn(s2, node) && node != head2
      modifies node`next, node`prev, head`next, head`prev, At(head, s, 1)`prev, At(head, s, |s|)`next
      ensures IsRing(head, if first then [node] + s else s + [node]) && IsRing(head2, s2)
    {
      hide IsRing, Distinct, Disjoint, NotIn;
      if first {
        LinkFirst(head, node, s, head2, s2);
      } else {
        LinkLast(head, node, s, head2, s2);
      }
    }

    /** insert_node: moves a node from wherever it is to the front or the back of one of the lists. */
    method InsertNode(node: Node, toActive: bool, first: bool, ghost w: Where)
      requires Lists() && node != active && node != inactive && Whereabouts(actives, inactives, node, w)
      requires w.Nowhere? ==> node.next == null && node.prev == null
      modifies this`actives, this`inactives, node`next, node`prev
      modifies active`next, active`prev, inactive`next, inactive`prev, actives`next, actives`prev, inactives`next
      modifies inactives`prev
      ensures Lists()
      ensures actives == Placed(LeftActive(old(actives), w), node, toActive, first)
      ensures inactives == Placed(LeftInactive(old(inactives), w), node, !toActive, first)
    {
      hide IsRing, Removed, Distinct, Disjoint, Placed, LeftActive, LeftInactive, Whereabouts;
      Linked(node, w);
      ghost var a, b := LeftActive(actives, w), LeftInactive(inactives, w);
      PlacedOk(active, inactive, actives, inactives, node, toActive, first, w);
      if node.next != null && node.prev != null {
        Leave(node, w);
      }
      var head := if toActive then active else inactive;
      ghost var rest, head2, s2 := if toActive then a else b, if toActive then inactive else active, if toActive then b
          else a;
      LinkAtEnd(head, node, first, rest, head2, s2);
      actives, inactives := Placed(a, node, toActive, first), Placed(b, node, !toActive, first);
    }

    /** One of the search loops of buffer_get: the node that holds block `b`, null if and only if there is none. */
    method FindIn(head: Node, b: nat, ghost s: seq<Node>) returns (node: Node?, ghost i: nat)
      requires IsRing(head, s) && Distinct(head, s)
      ensures node == null ==> forall k {:trigger s[k]} :: 0 <= k < |s| ==> s[k].blockNum != b
      ensures node != null ==> i < |s| && s[i] == node && node.blockNum == b
    {
      assert At(head, s, 0) == head;
      node := head.next;
      i := 0;
      while node != head
        invariant i <= |s| && node == At(head, s, i + 1)
        invariant forall k {:trigger s[k]} :: 0 <= k < i ==> s[k].blockNum != b
        decreases |s| - i
      {
        assert i < |s|;
        if node.blockNum == b { return node, i; }
        assert At(head, s, i + 1).next == At(head, s, i + 2);
        node := node.next;
        i := i + 1;
      }
      return null, i;
    }

    /** buffer_get: hands out the buffer that holds block `b` as callers see it; panics (null) when there is
        neither a cached buffer nor a free one, or no page for it. */
    method Get(b: nat) returns (node: Node?)
      requires Valid() && b in disk
      modifies this`memory, this`actives, this`inactives, pool, all`blockNum, all`refs, all`page
      modifies active`next, active`prev, inactive`next, inactive`prev, all`next, all`prev
      ensures node != null ==>
                Valid() && node in actives && node.blockNum == b && node.page in memory && memory[node.page] == view[b]
      ensures node != null ==> node.refs == old(node.refs) + 1 && (old(node.refs) > 0 ==> old(node.blockNum) == b)
      ensures node != null ==> OthersKept(node) && Holds() == old(Holds()) + {b}
      // a buffer that was not in use comes to the front of those in use, and only a miss takes another block's buffer:
      // the first of those not in use
      ensures node != null && old(node.refs) > 0 ==> actives == old(actives) && inactives == old(inactives)
      ensures node != null && old(node.refs) == 0 ==>
                actives == [node] + old(actives) && TakenOut(old(inactives), node, inactives)
      ensures node != null && old(node.blockNum) != b ==> old(inactives) != [] && node == old(inactives)[0]
      // the panic: no buffer has the block, and either every buffer is held, or none is left with a page or to give one
      ensures node == null <==> old(NoneFor(b))
      ensures node == null && old(inactives) == [] ==> |old(Holds())| == |all| && b !in old(Holds())
      // who holds fewer blocks than there are buffers, say two of three, meets it only for want of a page
      ensures node == null && old(|Holds()|) < |all| ==> old(pool.free) == []
    {
      hide IsRing, Distinct, Disjoint, NodeOk, Differ, Pmem.Pool.Valid, BackedUp, Sized, Holds, Lists, NodesOk, Divided,
           InUse;
      Listed();
      ghost var i;
      node, i := FindIn(active, b, actives);
      if node != null {
        Share(node, i);
        HoldsMore(node);
        return;
      }
      ghost var j;
      node, j := FindIn(inactive, b, inactives);
      if node != null {
        Revive(node, j);
        HoldsMore(node);
        return;
      }
      NotCached(b);
      FirstInactive();
      node := inactive.next;
      if node == inactive {
        NoBuffer(b);
        return null;
      }
      var ok := Load(node, b);
      if !ok { return null; }
      HoldsMore(node);
    }

    /** A buffer has one more user, and no other buffer has changed. */
    twostate lemma HoldsMore(node: Node)
      requires node in all && OthersKept(node) && node.refs > 0
      requires old(node.refs) > 0 ==> node.blockNum == old(node.blockNum)
      ensures Holds() == old(Holds()) + {node.blockNum}
    {
      forall c ensures c in Holds() <==> c in old(Holds()) + {node.blockNum} {
        if c in old(Holds()) {
          var k: nat :| k < |all| && old(all[k].refs) > 0 && old(all[k].blockNum) == c;
          assert all[k].refs > 0;
        }
        if c == node.blockNum {
          var k: nat :| k < |all| && all[k] == node;
          assert all[k].refs > 0;
        }
        if c in Holds() {
          var k: nat :| k < |all| && all[k].refs > 0 && all[k].blockNum == c;
          assert all[k] != node ==> old(all[k].refs) > 0;
        }
      }
    }

    /** The last user of a buffer has left, and no other buffer has changed. */
    twostate lemma HoldsLess(node: Node)
      requires old(NodesOk()) && node in all && OthersKept(node) && node.refs == 0 && old(node.refs) > 0
      requires node.blockNum == old(node.blockNum)
      ensures Holds() == old(Holds()) - {node.blockNum}
    {
      ghost var j: nat :| j < |all| && all[j] == node;
      forall c ensures c in Holds() <==> c in old(Holds()) - {node.blockNum} {
        if c in old(Holds()) && c != node.blockNum {
          var k: nat :| k < |all| && old(all[k].refs) > 0 && old(all[k].blockNum) == c;
          assert all[k].refs > 0;
        }
        if c in Holds() {
          var k: nat :| k < |all| && all[k].refs > 0 && all[k].blockNum == c;
          assert all[k] != node && old(all[k].refs) > 0;
          assert old(Differ(all[k], all[j]) && NodeOk(all[k]));
        }
      }
    }

    /** `now` is the list `was` without `node`. */
    ghost predicate TakenOut(was: seq<Node>, node: Node, now: seq<Node>) {
      exists i :: 0 <= i < |was| && was[i] == node && now == was[..i] + was[i + 1..]
    }

    /** buffer_get finds nothing for block `b`: no buffer has it, and there is no other buffer to take, or only one
        without a page while no page is left. */
    ghost predicate NoneFor(b: nat)
      reads this`inactives, pool, all`blockNum, all`page
    {
      && (forall k {:trigger all[k]} :: 0 <= k < |all| ==> all[k].blockNum != b)
      && (inactives == [] || (inactives[0] in all && inactives[0].page == 0 && pool.free == []))
    }

    /** Every listed buffer is one of the cache. */
    lemma Listed()
      requires Valid()
      ensures forall k {:trigger actives[k]} :: 0 <= k < |actives| ==> actives[k] in all
      ensures forall k {:trigger inactives[k]} :: 0 <= k < |inactives| ==> inactives[k] in all
      ensures IsRing(active, actives) && Distinct(active, actives)
      ensures IsRing(inactive, inactives) && Distinct(inactive, inactives)
    {
      hide IsRing, Distinct, Disjoint, Pmem.Pool.Valid, BackedUp, NodesOk, Sized;
    }

    lemma FirstInactive()
      requires Lists()
      ensures inactive.next == if inactives == [] then inactive else inactives[0]
      ensures inactives != [] ==> inactives[0] != inactive
    {
      assert At(inactive, inactives, 0) == inactive;
    }

    lemma NoBuffer(b: nat)
      requires Valid() && inactives == []
      requires forall k {:trigger actives[k]} :: 0 <= k < |actives| ==> actives[k].blockNum != b
      ensures |Holds()| == |all| && b !in Holds()
    {
      hide Lists, Pmem.Pool.Valid, BackedUp, NodesOk, Divided, Holds;
      HoldsSize();
      HeldInActive(b);
    }

    lemma NotCached(b: nat)
      requires Divided()
      requires forall k {:trigger actives[k]} :: 0 <= k < |actives| ==> actives[k].blockNum != b
      requires forall k {:trigger inactives[k]} :: 0 <= k < |inactives| ==> inactives[k].blockNum != b
      ensures forall k {:trigger all[k]} :: 0 <= k < |all| ==> all[k].blockNum != b
    {}

    /** A buffer in use gets one more user. */
    method Share(node: Node, ghost i: nat)
      requires Valid() && i < |actives| && node == actives[i]
      modifies all`refs
      ensures Valid() && node.refs == old(node.refs) + 1 && node in actives && old(node.refs) > 0
      ensures OthersKept(node)
      ensures node.page in memory && node.blockNum in view && memory[node.page] == view[node.blockNum]
    {
      hide IsRing, Distinct, Disjoint, Differ, Pmem.Pool.Valid, Sized;
      assert node in all;
      node.refs := node.refs + 1;
      forall c | c in disk && view[c] != disk[c] ensures exists k: nat :: k < |all| && InUse(k, c) {
        var k: nat :| k < |all| && old(InUse(k, c));
        assert InUse(k, c);
      }
    }

    /** The node held no block that callers see only in a buffer. */
    lemma Clean(b: nat)
      requires NodesOk() && Divided() && BackedUp() && b in disk
      requires forall k {:trigger actives[k]} :: 0 <= k < |actives| ==> actives[k].blockNum != b
      ensures view[b] == disk[b] && forall k: nat :: k < |all| ==> !InUse(k, b)
    {
      hide NodeOk, Differ;
      forall k: nat | k < |all| ensures !InUse(k, b) {
        if all[k].refs > 0 { assert all[k] in actives; }
      }
      var v := view[b];
    }

    /** A cached buffer that is not in use comes back into use. */
    method Revive(node: Node, ghost i: nat)
      requires Valid() && i < |inactives| && node == inactives[i] && node.blockNum in disk
      requires forall k {:trigger actives[k]} :: 0 <= k < |actives| ==> actives[k].blockNum != node.blockNum
      modifies this`actives, this`inactives, all`refs
      modifies active`next, active`prev, inactive`next, inactive`prev, all`next, all`prev
      ensures Valid() && node in actives && actives == [node] + old(actives) && inactives == Removed(old(inactives), i)
      ensures node.refs == 1 && old(node.refs) == 0
      ensures OthersKept(node)
      ensures node.page in memory && node.blockNum in view && memory[node.page] == view[node.blockNum]
    {
      hide Lists, Pmem.Pool.Valid, Removed, NodesOk, BackedUp, Sized, Divided, DividedBut;
      InactiveAt(i);
      Clean(node.blockNum);
      ComeBack(node);
      Move(node, true, i);
    }

    /** The count goes up before the buffer changes lists. */
    method ComeBack(node: Node)
      requires NodesOk() && BackedUp() && Divided() && node in all && node.refs == 0
      requires node.blockNum in disk && view[node.blockNum] == disk[node.blockNum]
      modifies node`refs
      ensures NodesOk() && BackedUp() && DividedBut(node) && node.refs == 1
      ensures node.page in memory && node.blockNum in view && memory[node.page] == view[node.blockNum]
    {
      hide NodesOk, BackedUp;
      FirstUser(node);
    }

    /** The reference count of a buffer that comes back into use. */
    method FirstUser(node: Node)
      requires NodesOk() && BackedUp() && node in all && node.refs == 0 && node.blockNum in disk
      requires view[node.blockNum] == disk[node.blockNum]
      modifies node`refs
      ensures NodesOk() && BackedUp() && node.refs == 1
      ensures node.page in memory && node.blockNum in view && memory[node.page] == view[node.blockNum]
    {
      node.refs := 1;
      forall c | c in disk && view[c] != disk[c] ensures exists k: nat :: k < |all| && InUse(k, c) {
        var k: nat :| k < |all| && old(InUse(k, c));
        assert InUse(k, c);
      }
    }

    /** Load of the first buffer that is not in use: it drops what it held, gets a page if it has none, and
        reads block `b` from the disk; panics (not ok) when no page is left. */
    method Load(node: Node, b: nat) returns (ok: bool)
      requires Valid() && inactives != [] && node == inactives[0] && b in disk
      requires forall k {:trigger all[k]} :: 0 <= k < |all| ==> all[k].blockNum != b
      modifies this`memory, this`actives, this`inactives, pool, all`blockNum, all`refs, all`page
      modifies active`next, active`prev, inactive`next, inactive`prev, all`next, all`prev
      ensures ok ==>
                Valid() && node in actives && node.blockNum == b && node.page in memory && memory[node.page] == view[b]
      ensures ok ==> node.refs == 1 && old(node.refs) == 0
      ensures ok ==> OthersKept(node) && actives == [node] + old(actives) && inactives == Removed(old(inactives), 0)
      ensures ok <==> old(node.page) != 0 || old(pool.free) != []
    {
      hide Lists, Pmem.Pool.Valid, Removed, NodesOk, NodesOkBut, BackedUp, Divided, DividedBut, Sized;
      InactiveAt(0);
      Clean(b);
      ok := Claim(node, b);
      if !ok { return; }
      Move(node, true, 0);
      ReadBlock(node);
    }

    /** NodesOk, except that the page of buffer `x` has not been filled yet. */
    ghost predicate NodesOkBut(x: Node)
      reads this`memory, this`disk, this`view, pool, all`blockNum, all`refs, all`page, x`blockNum, x`refs, x`page
    {
      && UNUSED !in disk
      && (forall k {:trigger all[k]} :: 0 <= k < |all| && all[k] != x ==> NodeOk(all[k]))
      && (forall j, k {:trigger all[j], all[k]} :: 0 <= j < |all| && 0 <= k < |all| ==> Differ(all[j], all[k]))
      && x.refs > 0 && x.blockNum in disk && x.blockNum in view && view[x.blockNum] == disk[x.blockNum]
      && x.page != 0 && pool.InRange(x.page) && x.page !in pool.free
    }

    lemma InactiveAt(i: nat)
      requires Divided() && i < |inactives|
      ensures inactives[i] in all && inactives[i].refs == 0
      ensures (forall j :: 0 <= j < |actives| ==> actives[j] in all)
      ensures forall j :: 0 <= j < |inactives| ==> inactives[j] in all
    {}

    /** The part of buffer_get that gives a buffer to block `b`, before the buffer changes lists. */
    method Claim(node: Node, b: nat) returns (ok: bool)
      requires pool.Valid() && NodesOk() && BackedUp() && Divided() && node in all && node.refs == 0 && b in disk
      requires view[b] == disk[b]
      requires forall k {:trigger all[k]} :: 0 <= k < |all| ==> all[k].blockNum != b
      modifies pool, node`blockNum, node`refs, node`page
      ensures pool.Valid()
      ensures (ok ==> NodesOkBut(node) && BackedUp() && DividedBut(node) && node.blockNum == b && node.refs == 1)
      ensures ok <==> old(node.page) != 0 || old(pool.free) != []
    {
      hide Pmem.Pool.Valid, NodesOk, NodesOkBut, BackedUp, Lists;
      ok := Assign(node, b);
    }

    /** The fields of a buffer given to block `b`. */
    method Assign(node: Node, b: nat) returns (ok: bool)
      requires pool.Valid() && NodesOk() && BackedUp() && node in all && node.refs == 0 && b in disk
      requires view[b] == disk[b]
      requires forall k {:trigger all[k]} :: 0 <= k < |all| ==> all[k].blockNum != b
      modifies pool, node`blockNum, node`refs, node`page
      ensures pool.Valid() && (ok ==> NodesOkBut(node) && BackedUp() && node.blockNum == b && node.refs == 1)
      ensures ok <==> old(node.page) != 0 || old(pool.free) != []
    {
      hide Pmem.Pool.Valid;
      node.blockNum := b;
      node.refs := 1;
      if node.page == 0 {
        var page;
        page, ok := pool.Alloc();
        if !ok { return; }
        node.page := page;
      }
      ok := true;
      forall c | c in disk && view[c] != disk[c] ensures exists k: nat :: k < |all| && InUse(k, c) {
        var k: nat :| k < |all| && old(InUse(k, c));
        assert InUse(k, c);
      }
    }

    /** buffer_read: fills the page of a buffer from the disk. */
    method ReadBlock(node: Node)
      requires NodesOkBut(node) && node in all
      modifies this`memory
      ensures NodesOk() && node.page in memory && memory[node.page] == view[node.blockNum]
    {
      memory := memory[node.page := disk[node.blockNum]];
    }

    /** buffer_write */
    method Write(node: Node)
      requires Valid() && node in actives
      modifies this`disk
      ensures Valid() && disk == old(disk)[node.blockNum := memory[node.page]]
      ensures disk[node.blockNum] == view[node.blockNum]
    {
      hide Lists, Pmem.Pool.Valid, Divided, Sized;
      UserAt(node);
      ghost var j: nat :| j < |all| && all[j] == node && InUse(j, node.blockNum);
      disk := disk[node.blockNum := memory[node.page]];
      forall k | 0 <= k < |all| ensures NodeOk(all[k]) { assert old(NodeOk(all[k])) && Differ(all[k], all[j]); }
      forall c | c in disk && view[c] != disk[c] ensures exists k: nat :: k < |all| && InUse(k, c) {
        var k: nat :| k < |all| && old(InUse(k, c));
        assert InUse(k, c);
      }
    }

    /** A caller changes the data of a buffer it holds. */
    method Store(node: Node, data: Block)
      requires Valid() && node in actives
      modifies this`memory, this`view
      ensures Valid() && view == old(view)[node.blockNum := data] && memory[node.page] == data
    {
      hide Lists, Pmem.Pool.Valid, Divided, Sized, NodesOk, BackedUp;
      UserAt(node);
      StoreData(node, data);
    }

    /** The data of a buffer in use. */
    method StoreData(node: Node, data: Block)
      requires NodesOk() && BackedUp() && node in all && node.refs > 0 && node.blockNum in disk && node.blockNum in view
      modifies this`memory, this`view
      ensures NodesOk() && BackedUp() && view == old(view)[node.blockNum := data]
      ensures memory == old(memory)[node.page := data]
    {
      ghost var j: nat :| j < |all| && all[j] == node;
      memory := memory[node.page := data];
      view := view[node.blockNum := data];
      forall k | 0 <= k < |all| ensures NodeOk(all[k]) { assert old(NodeOk(all[k])) && Differ(all[k], all[j]); }
      forall c | c in disk && view[c] != disk[c] ensures exists k: nat :: k < |all| && InUse(k, c) {
        if c != node.blockNum {
          var k: nat :| k < |all| && old(InUse(k, c));
          assert InUse(k, c);
        } else {
          assert InUse(j, c);
        }
      }
    }

    /** A buffer on the active list is in use. */
    lemma UserAt(node: Node)
      requires NodesOk() && Divided() && node in actives
      ensures node in all && node.refs > 0 && node.blockNum in disk && node.blockNum in view && node.page in memory
      ensures exists k: nat :: k < |all| && all[k] == node && InUse(k, node.blockNum)
    {
      var i :| 0 <= i < |actives| && actives[i] == node;
      var k: nat :| k < |all| && all[k] == node;
      assert NodeOk(all[k]) && InUse(k, node.blockNum);
    }

    /** buffer_put, by a caller that has written what it changed. */
    method Put(node: Node)
      requires Valid() && node in actives
      requires node.refs == 1 ==> view[node.blockNum] == disk[node.blockNum]
      modifies this`actives, this`inactives, all`refs
      modifies active`next, active`prev, inactive`next, inactive`prev, all`next, all`prev
      ensures Valid() && node.refs == old(node.refs) - 1
      ensures OthersKept(node)
      ensures if node.refs > 0 then actives == old(actives) && inactives == old(inactives)
                else inactives == [node] + old(inactives)
      ensures node.blockNum == old(node.blockNum) && node.page == old(node.page)
      ensures Holds() == if node.refs > 0 then old(Holds()) else old(Holds()) - {node.blockNum}
    {
      hide Lists, Pmem.Pool.Valid, Removed, NodesOk, BackedUp, Divided, DividedBut, Sized;
      UserAt(node);
      Release(node);
      if node.refs == 0 {
        ghost var i :| 0 <= i < |actives| && actives[i] == node;
        Move(node, false, i);
        HoldsLess(node);
      } else {
        HoldsMore(node);
      }
    }

    /** The reference count of buffer_put. */
    method Release(node: Node)
      requires NodesOk() && BackedUp() && Divided() && node in all && node.refs > 0 && node.blockNum in view
      requires node.blockNum in disk
      requires node.refs == 1 ==> view[node.blockNum] == disk[node.blockNum]
      modifies node`refs
      ensures NodesOk() && BackedUp() && node.refs == old(node.refs) - 1
      ensures if node.refs == 0 then DividedBut(node) else Divided()
    {
      hide Differ;
      node.refs := node.refs - 1;
      forall c | c in disk && view[c] != disk[c] ensures exists k: nat :: k < |all| && InUse(k, c) {
        var k: nat :| k < |all| && old(InUse(k, c));
        assert InUse(k, c);
      }
    }

    /** buffer_freemem: gives back the pages of up to `count` buffers that are not in use, and forgets their
        blocks; callers see no difference. */
    method FreeMem(count: nat) returns (freed: nat)
      requires Valid()
      modifies pool, all`page, all`blockNum
      ensures Valid() && freed <= count && |pool.free| == old(|pool.free|) + freed
      ensures freed < count ==> forall i {:trigger inactives[i]} :: 0 <= i < |inactives| ==> inactives[i].page == 0
      // buffers in use keep their block and their page, and callers hold what they held
      ensures FreedOrKept() && Holds() == old(Holds())
      // the pages come from the front of the list: up to some buffer all are gone, and behind it nothing is changed
      ensures exists i: nat :: i <= |inactives| && FrontOnly(inactives, i) && (freed == count || i == |inactives|)
    {
      hide Lists, Divided, Holds, NodesOk, BackedUp, Pmem.Pool.Valid, Sized;
      freed := 0;
      FirstInactive();
      var node := inactive.next;
      ghost var i := 0;
      while node != inactive && freed < count
        invariant Valid() && i <= |inactives| && node == At(inactive, inactives, i + 1)
        invariant freed <= count && |pool.free| == old(|pool.free|) + freed
        invariant forall k {:trigger inactives[k]} :: 0 <= k < i ==> inactives[k].page == 0
        invariant FreedOrKept() && FrontOnly(inactives, i)
        decreases |inactives| - i
      {
        NextInactive(i);
        var next := node.next;
        if node.page != 0 {
          InactiveAt(i);
          InactiveOnce(i);
          Drop(node);
          freed := freed + 1;
        }
        node := next;
        i := i + 1;
      }
      if node == inactive { AtEnd(i); }
      HoldsSame();
      assert FrontOnly(inactives, i);
    }

    /** The buffer taken on a miss is the one used last, not the one used longest ago: the block just put back by its
        last user is the first to go. */
    method PutThenMiss(node: Node, b: nat) returns (next: Node?)
      requires Valid() && node in actives && node.refs == 1 && view[node.blockNum] == disk[node.blockNum] && b in disk
      requires forall k {:trigger all[k]} :: 0 <= k < |all| ==> all[k].blockNum != b
      modifies this`memory, this`actives, this`inactives, pool, all`blockNum, all`refs, all`page
      modifies active`next, active`prev, inactive`next, inactive`prev, all`next, all`prev
      ensures next == node && next.blockNum == b && Valid()
      ensures inactives == old(inactives)
    {
      hide Lists, Pmem.Pool.Valid, NodesOk, BackedUp, Divided, Sized, Holds, NoneFor;
      HasPage(node);
      Put(node);
      PageLeft(node, b);
      InactiveOnce(0);
      ghost var was := inactives;
      next := Get(b);
      ghost var i :| 0 <= i < |was| && was[i] == node && inactives == was[..i] + was[i + 1..];
      assert i == 0;
      assert inactives == old(inactives);
    }

    lemma HasPage(node: Node)
      requires NodesOk() && Divided() && node in actives
      ensures node in all && node.page != 0
    {
      UserAt(node);
    }

    lemma PageLeft(node: Node, b: nat)
      requires inactives != [] && inactives[0] == node && node.page != 0
      ensures !NoneFor(b)
    {}

    /** Each buffer holds what it held, or is not in use and holds nothing. */
    twostate predicate FreedOrKept()
      reads all`refs, all`blockNum, all`page
    {
      forall k {:trigger all[k]} :: 0 <= k < |all| ==>
        && all[k].refs == old(all[k].refs)
        && ((all[k].blockNum == old(all[k].blockNum) && all[k].page == old(all[k].page)) ||
            (all[k].refs == 0 && all[k].blockNum == UNUSED && all[k].page == 0))
    }

    /** The first `i` buffers of a list have no page, and the others are as they were. */
    twostate predicate FrontOnly(s: seq<Node>, i: nat)
      requires i <= |s|
      reads s`page, s`blockNum
    {
      && (forall k {:trigger s[k]} :: 0 <= k < i ==> s[k].page == 0)
      && (forall k {:trigger s[k]} :: i <= k < |s| ==>
            s[k].page == old(s[k].page) && s[k].blockNum == old(s[k].blockNum))
    }

    twostate lemma HoldsSame()
      requires FreedOrKept()
      ensures Holds() == old(Holds())
    {
      forall c ensures c in Holds() <==> c in old(Holds()) {
        if c in old(Holds()) {
          var k: nat :| k < |all| && old(all[k].refs) > 0 && old(all[k].blockNum) == c;
          assert all[k].refs > 0;
        }
        if c in Holds() {
          var k: nat :| k < |all| && all[k].refs > 0 && all[k].blockNum == c;
          assert old(all[k].refs) > 0;
        }
      }
    }

    lemma NextInactive(i: nat)
      requires Lists() && i <= |inactives| && At(inactive, inactives, i + 1) != inactive
      ensures i < |inactives| && At(inactive, inactives, i + 1) == inactives[i]
      ensures inactives[i].next == At(inactive, inactives, i + 2)
    {}

    lemma InactiveOnce(i: nat)
      requires Lists() && i < |inactives|
      ensures forall k {:trigger inactives[k]} :: 0 <= k < |inactives| && k != i ==> inactives[k] != inactives[i]
    {}

    lemma AtEnd(i: nat)
      requires Lists() && i <= |inactives| && At(inactive, inactives, i + 1) == inactive
      ensures i == |inactives|
    {}

    /** One buffer of buffer_freemem. */
    method Drop(node: Node)
      requires Valid() && node in inactives && node.page != 0
      modifies pool, node`page, node`blockNum
      ensures Valid() && node.page == 0 && |pool.free| == old(|pool.free|) + 1
      ensures node.blockNum == UNUSED && node.refs == 0
    {
      hide Lists, Pmem.Pool.Valid, Divided, NodesOk, BackedUp, Sized;
      ghost var i :| 0 <= i < |inactives| && inactives[i] == node;
      InactiveAt(i);
      DropPage(node);
    }

    /** The page of a buffer that is not in use goes back to the pool. */
    method DropPage(node: Node)
      requires pool.Valid() && NodesOk() && BackedUp() && node in all && node.refs == 0 && node.page != 0
      modifies pool, node`page, node`blockNum
      ensures pool.Valid() && NodesOk() && BackedUp() && node.page == 0 && |pool.free| == old(|pool.free|) + 1
      ensures node.blockNum == UNUSED
    {
      hide Lists, Pmem.Pool.Valid;
      ghost var k: nat :| k < |all| && all[k] == node;
      assert NodeOk(all[k]);
      var ok := pool.Free(node.page);
      node.page := 0;
      node.blockNum := UNUSED;
      forall j | 0 <= j < |all| ensures NodeOk(all[j]) { assert old(NodeOk(all[j]) && Differ(all[j], all[k])); }
      forall i, j | 0 <= i < |all| && 0 <= j < |all|
        ensures Differ(all[i], all[j])
      {
        assert old(Differ(all[i], all[j]));
      }
      forall c | c in disk && view[c] != disk[c] ensures exists k: nat :: k < |all| && InUse(k, c) {
        var k: nat :| k < |all| && old(InUse(k, c));
        assert InUse(k, c);
      }
    }

    /** Divided, but for buffer `x`, which is about to change lists. */
    ghost predicate DividedBut(x: Node)
      reads this`actives, this`inactives, all`refs, actives`refs, inactives`refs
    {
      && (forall k {:trigger all[k]} :: 0 <= k < |all| && all[k] != x ==>
          if all[k].refs > 0 then all[k] in actives else all[k] in inactives)
      && (forall i {:trigger actives[i]} :: 0 <= i < |actives| ==>
          actives[i] in all && (actives[i] != x ==> actives[i].refs > 0))
      && (forall i {:trigger inactives[i]} :: 0 <= i < |inactives| ==>
          inactives[i] in all && (inactives[i] != x ==> inactives[i].refs == 0))
    }

    /** A buffer whose first user came, or whose last user left, goes to the front of the other list. */
    method Move(node: Node, toActive: bool, ghost i: nat)
      requires Lists() && DividedBut(node) && (toActive <==> node.refs > 0)
      requires if toActive then i < |inactives| && inactives[i] == node else i < |actives| && actives[i] == node
      modifies this`actives, this`inactives
      modifies active`next, active`prev, inactive`next, inactive`prev, all`next, all`prev
      ensures Lists() && Divided()
      ensures actives == (if toActive then [node] + old(actives) else Removed(old(actives), i))
      ensures inactives == (if toActive then Removed(old(inactives), i) else [node] + old(inactives))
      ensures old(Sized()) ==> Sized()
    {
      hide IsRing, Removed;
      MovedOut(if toActive then inactives else actives, i);
      RemovedDistinct(if toActive then inactives else actives, i, if toActive then inactive else active);
      InsertNode(node, toActive, true, if toActive then Inactive(i) else Active(i));
    }

    lemma Linked(node: Node, w: Where)
      requires Lists() && Whereabouts(actives, inactives, node, w)
      ensures !w.Nowhere? ==> node.next != null && node.prev != null
      ensures w.Nowhere? ==> LeftActive(actives, w) == actives && LeftInactive(inactives, w) == inactives
    {
      match w
      case Nowhere =>
      case Active(i) =>
        assert At(active, actives, i + 1) == node;
        assert At(active, actives, i).next == node;
      case Inactive(i) =>
        assert At(inactive, inactives, i + 1) == node;
        assert At(inactive, inactives, i).next == node;
    }
  }

  /** Taking a node out keeps the lists disjoint. */
  lemma LeftOk(active: Node, inactive: Node, actives: seq<Node>, inactives: seq<Node>, x: Node, w: Where)
    requires Distinct(active, actives) && Distinct(inactive, inactives)
    requires Disjoint(active, actives, inactive, inactives)
    requires x != active && x != inactive && Whereabouts(actives, inactives, x, w)
    ensures var a, b := LeftActive(actives, w), LeftInactive(inactives, w);
            && Distinct(active, a)
            && Distinct(inactive, b)
            && Disjoint(active, a, inactive, b)
            && NotIn(a, x)
            && NotIn(b, x)
            && (forall k :: 0 <= k < |a| ==> a[k] in actives) && (forall k :: 0 <= k < |b| ==> b[k] in inactives)
  {}

  lemma EndsIn(head: Node, s: seq<Node>, t: seq<Node>)
    requires forall k :: 0 <= k < |s| ==> s[k] in t
    ensures (At(head, s, 1) == head || At(head, s, 1) in t) && (At(head, s, |s|) == head || At(head, s, |s|) in t)
  {}

  /** Putting a node in keeps the lists disjoint. */
  lemma PutOk(active: Node, inactive: Node, a: seq<Node>, b: seq<Node>, x: Node, first: bool)
    requires Distinct(active, a) && Disjoint(active, a, inactive, b) && NotIn(a, x) && NotIn(b, x) && x != active
    requires x != inactive
    ensures Distinct(active, Placed(a, x, true, first)) && Disjoint(active, Placed(a, x, true, first), inactive, b)
  {
    var s := Placed(a, x, true, first);
    assert forall k :: 0 <= k < |s| ==> s[k] == x || (first && s[k] == a[k - 1]) || (!first && s[k] == a[k]);
  }

  lemma DisjointSwap(head: Node, s: seq<Node>, head2: Node, s2: seq<Node>)
    requires Disjoint(head, s, head2, s2)
    ensures Disjoint(head2, s2, head, s)
  {}

  /** Moving a node keeps the lists disjoint, before and after it is put in place. */
  lemma PlacedOk(active: Node, inactive: Node, actives: seq<Node>, inactives: seq<Node>, x: Node, toActive: bool,
                 first: bool, w: Where)
    requires Distinct(active, actives) && Distinct(inactive, inactives)
    requires Disjoint(active, actives, inactive, inactives)
    requires x != active && x != inactive && Whereabouts(actives, inactives, x, w)
    ensures var a, b := LeftActive(actives, w), LeftInactive(inactives, w);
            && Distinct(active, a)
            && Distinct(inactive, b)
            && Disjoint(active, a, inactive, b)
            && Disjoint(inactive, b, active, a)
            && NotIn(a, x) && NotIn(b, x)
            && (At(active, a, 1) == active || At(active, a, 1) in actives)
            && (At(active, a, |a|) == active || At(active, a, |a|) in actives)
            && (At(inactive, b, 1) == inactive || At(inactive, b, 1) in inactives)
            && (At(inactive, b, |b|) == inactive || At(inactive, b, |b|) in inactives)
    ensures var a, b := LeftActive(actives, w), LeftInactive(inactives, w);
            && Distinct(active, Placed(a, x, toActive, first)) && Distinct(inactive, Placed(b, x, !toActive, first))
            && Disjoint(active, Placed(a, x, toActive, first), inactive, Placed(b, x, !toActive, first))
            && Placed(a, x, toActive, first) == (if !toActive then a else if first then [x] + a else a + [x])
            && Placed(b, x, !toActive, first) == (if toActive then b else if first then [x] + b else b + [x])
  {
    hide Distinct, Disjoint, NotIn, LeftActive, LeftInactive, Whereabouts;
    LeftOk(active, inactive, actives, inactives, x, w);
    var a, b := LeftActive(actives, w), LeftInactive(inactives, w);
    EndsIn(active, a, actives);
    EndsIn(inactive, b, inactives);
    DisjointSwap(active, a, inactive, b);
    if toActive {
      PutOk(active, inactive, a, b, x, first);
    } else {
      PutOk(inactive, active, b, a, x, first);
      DisjointSwap(inactive, Placed(b, x, true, first), active, a);
    }
  }
}
