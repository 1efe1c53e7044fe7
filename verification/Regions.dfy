/** The list of mapped regions of a process (mem/mmap.c, and the list handling of mem/uvm.c). */
module Regions {
  import opened NodeLists
  import opened Memory
  import opened PageTree
  import opened Spans

  const N_MMAP := 256
  const U32: nat := 0x1_0000_0000
  const MMAP_END: nat := VA_MAX - 2 * PGSIZE - 16 * 256 * PGSIZE
  const MMAP_BEGIN: nat := MMAP_END - 64 * 256 * PGSIZE
  /** The page numbers of the mmap area. */
  const BOTTOM: nat := MMAP_BEGIN / PGSIZE
  const TOP: nat := MMAP_END / PGSIZE

  lemma AreaBounds()
    ensures MMAP_BEGIN == BOTTOM * PGSIZE && MMAP_END == TOP * PGSIZE && 0 < BOTTOM < TOP && TOP - BOTTOM == 64 * 256
  {}

  /** mmap_region_node_t: a region and, while it is in the pool, the link to the next free node. */
  class Region {
    var begin: nat
    var npages: nat
    var next: Region?
    var link: Region?

    constructor ()
      ensures begin == 0 && npages == 0 && next == null && link == null
    {
      begin, npages, next, link := 0, 0, null, null;
    }
  }

  /** The object after position `i` of a chain. */
  function After(nodes: seq<Region>, i: int): Region?
    requires -1 <= i
  {
    if i + 1 < |nodes| then nodes[i + 1] else null
  }

  ghost predicate Distinct(nodes: seq<Region>) {
    forall i, j {:trigger nodes[i], nodes[j]} :: 0 <= i < j < |nodes| ==> nodes[i] != nodes[j]
  }

  /** The pool of region nodes of mem/mmap.c. */
  class RegionPool {
    /** pool_sentinel.next */
    var head: Region?
    ghost var free: seq<Region>

    ghost predicate Valid()
      reads this, free
    {
      && Distinct(free) && head == After(free, -1)
      && forall i {:trigger free[i]} :: 0 <= i < |free| ==> free[i].link == After(free, i)
    }

    /** mmap_init: all nodes are free. */
    constructor ()
      ensures Valid() && |free| == N_MMAP && fresh(free)
    {
      head, free := null, [];
      new;
      var i := 0;
      while i < N_MMAP
        invariant 0 <= i <= N_MMAP && |free| == i
        invariant Valid() && fresh(free)
      {
        var r := new Region();
        r.link := head;
        head := r;
        free := [r] + free;
        i := i + 1;
      }
    }

    /** mmap_region_alloc: a blank node; panics (null) when the pool is empty. */
    method Alloc() returns (r: Region?)
      requires Valid()
      modifies this, free
      ensures Valid()
      ensures r == null <==> old(free) == []
      ensures r == null ==> free == []
      ensures r != null ==> old(free) == [r] + free && r !in free && r.begin == 0 && r.npages == 0 && r.next == null
    {
      r := head;
      if r == null { return; }
      head := r.link;
      free := free[1..];
      r.begin := 0;
      r.npages := 0;
      r.next := null;
    }

    /** mmap_region_free */
    method Free(r: Region)
      requires Valid() && r !in free
      modifies this, r`link
      ensures Valid() && free == [r] + old(free)
    {
      r.link := head;
      head := r;
      free := [r] + free;
    }
  }

  ghost predicate Chained(head: Region?, nodes: seq<Region>)
    reads nodes
  {
    head == After(nodes, -1) && forall i {:trigger nodes[i]} :: 0 <= i < |nodes| ==> nodes[i].next == After(nodes, i)
  }

  ghost predicate Labelled(nodes: seq<Region>, spans: seq<Span>)
    requires |nodes| == |spans|
    reads nodes
  {
    forall i {:trigger nodes[i]} {:trigger spans[i]} :: 0 <= i < |nodes| ==>
        nodes[i].begin == spans[i].first * PGSIZE && nodes[i].npages == spans[i].n
  }

  ghost predicate Separate(nodes: seq<Region>, free: seq<Region>) {
    forall i {:trigger nodes[i]} :: 0 <= i < |nodes| ==> nodes[i] !in free
  }

  function Placed(nodes: seq<Region>, i: nat, x: Region): (r: seq<Region>)
    requires i <= |nodes|
    ensures |r| == |nodes| + 1
    ensures forall k {:trigger r[k]} :: 0 <= k < |r| ==>
              r[k] == if k < i then nodes[k] else if k == i then x else nodes[k - 1]
  {
    nodes[..i] + [x] + nodes[i..]
  }

  lemma RemovedDistinct(nodes: seq<Region>, i: nat, free: seq<Region>)
    requires i < |nodes| && Distinct(nodes) && Separate(nodes, free)
    ensures Distinct(Removed(nodes, i)) && Separate(Removed(nodes, i), [nodes[i]] + free)
    ensures (set r | r in nodes) == (set r | r in Removed(nodes, i)) + {nodes[i]}
  {
    var s := Removed(nodes, i);
    assert forall k :: 0 <= k < |s| ==> s[k] != nodes[i];
    forall r | r in nodes ensures r in s || r == nodes[i] {
      var k :| 0 <= k < |nodes| && nodes[k] == r;
      if k < i { assert s[k] == r; }
      if k > i { assert s[k - 1] == r; }
    }
  }

  lemma ChainedPlaced(head: Region?, nodes: seq<Region>, i: nat, x: Region)
    requires i <= |nodes| && head == if i == 0 then x else After(nodes, -1)
    requires forall k {:trigger nodes[k]} :: 0 <= k < |nodes| ==>
               nodes[k].next == if k == i - 1 then x else After(nodes, k)
    requires x.next == After(nodes, i - 1)
    ensures Chained(head, Placed(nodes, i, x))
  {
    var s := Placed(nodes, i, x);
    forall k | 0 <= k < |s| ensures s[k].next == After(s, k) {
      if k != i { assert s[k] == nodes[if k < i then k else k - 1]; }
    }
  }

  lemma ChainedRemoved(head: Region?, nodes: seq<Region>, i: nat)
    requires i < |nodes| && head == if i == 0 then After(nodes, 0) else After(nodes, -1)
    requires forall k {:trigger nodes[k]} :: 0 <= k < |nodes| ==>
               nodes[k].next == After(nodes, if k == i - 1 then i else k)
    ensures Chained(head, Removed(nodes, i))
  {
    var s := Removed(nodes, i);
    forall k | 0 <= k < |s| ensures s[k].next == After(s, k) { assert s[k] == nodes[if k < i then k else k + 1]; }
  }

  lemma LabelledRemoved(nodes: seq<Region>, spans: seq<Span>, i: nat)
    requires i < |nodes| && |spans| == |nodes| && Labelled(nodes, spans)
    ensures Labelled(Removed(nodes, i), Dropped(spans, i))
  {}

  lemma LabelledPlaced(nodes: seq<Region>, spans: seq<Span>, i: nat, x: Region, s: Span)
    requires i <= |nodes| && |spans| == |nodes| && Labelled(nodes, spans) && x.begin == s.first * PGSIZE
    requires x.npages == s.n
    ensures Labelled(Placed(nodes, i, x), Inserted(spans, i, s))
  {}

  lemma PlacedDistinct(nodes: seq<Region>, i: nat, x: Region, free: seq<Region>)
    requires i <= |nodes| && Distinct(nodes) && Separate(nodes, free) && x !in nodes && x !in free
    ensures Distinct(Placed(nodes, i, x)) && Separate(Placed(nodes, i, x), free)
    ensures (set r | r in Placed(nodes, i, x)) == (set r | r in nodes) + {x}
  {
    var s := Placed(nodes, i, x);
    assert s[i] == x;
    forall r | r in nodes ensures r in s {
      var k :| 0 <= k < |nodes| && nodes[k] == r;
      if k < i { assert s[k] == r; } else { assert s[k + 1] == r; }
    }
    forall r | r in s ensures r in nodes || r == x {}
  }

  /** p->mmap and the operations on it. */
  class RegionList {
    const pool: RegionPool
    var head: Region?
    ghost var nodes: seq<Region>
    /** The runs of pages that the nodes stand for. */
    ghost var spans: seq<Span>

    /** Node `i` stands for run `i`, and the nodes form a chain apart from the pool. */
    ghost predicate Linked()
      reads this, nodes, pool, pool.free
    {
      && pool.Valid() && Distinct(nodes) && |spans| == |nodes|
      && Chained(head, nodes) && Labelled(nodes, spans) && Separate(nodes, pool.free)
    }

    ghost predicate Valid()
      reads this, nodes, pool, pool.free
    {
      Linked() && Canonical(spans, BOTTOM, TOP)
    }

    /** All nodes of this list and of the pool. */
    ghost function Stock(): set<Region>
      reads this, pool
    {
      (set r | r in nodes) + (set r | r in pool.free)
    }

    constructor (pool: RegionPool)
      requires pool.Valid()
      ensures Valid() && this.pool == pool && spans == [] && nodes == []
    {
      this.pool, head, nodes, spans := pool, null, [], [];
    }

    /** The node before position `i`. */
    ghost function Before(i: nat): Region?
      requires i <= |nodes|
      reads this
    {
      if i == 0 then null else nodes[i - 1]
    }

    /** What node `i` holds. */
    lemma NodeAt(i: nat)
      requires Valid() && i < |nodes|
      ensures |spans| == |nodes| && nodes[i].begin == spans[i].first * PGSIZE && nodes[i].npages == spans[i].n
      ensures nodes[i].next == After(nodes, i)
      ensures 0 < spans[i].n && BOTTOM <= spans[i].first && End(spans[i]) <= TOP
    {}

    /** find_free_region: the lowest place with `npages` free pages; address 0 if and only if there is none. */
    method FindFree(npages: nat) returns (addr: nat, prev: Region?, ghost first: nat, ghost i: nat)
      requires Valid() && 0 < npages && npages * PGSIZE < U32
      ensures addr == 0 <==> NoneFree(spans, npages, BOTTOM, TOP - npages + 1)
      ensures addr != 0 ==>
                && addr == first * PGSIZE
                && Spans.Fits(spans, i, Span(first, npages), BOTTOM, TOP)
                && i <= |nodes|
                && prev == Before(i)
      ensures addr != 0 ==> NoneFree(spans, npages, BOTTOM, first)
    {
      hide Valid, Linked, Canonical, NoneFree, Spans.Fits;
      AreaBounds();
      FindStart(npages);
      var reqLen := npages * PGSIZE;
      var candidate := MMAP_BEGIN;
      var curr := head;
      prev := null;
      i := 0;
      first := BOTTOM;
      while curr != null
        invariant 0 <= i <= |nodes| && curr == After(nodes, i - 1) && prev == Before(i)
        invariant candidate == first * PGSIZE && BOTTOM <= first <= TOP
        invariant first == if i == 0 then BOTTOM else End(spans[i - 1])
        invariant NoneFree(spans, npages, BOTTOM, first)
        decreases |nodes| - i
      {
        NodeAt(i);
        if curr.begin >= candidate + reqLen {
          FitsHere(spans, i, Span(first, npages), BOTTOM, TOP);
          return candidate, prev, first, i;
        }
        NoneFreeNext(spans, i, BOTTOM, first, npages);
        candidate := curr.begin + curr.npages * PGSIZE;
        first := End(spans[i]);
        prev := curr;
        curr := curr.next;
        i := i + 1;
      }
      if candidate + reqLen <= MMAP_END {
        FitsHere(spans, i, Span(first, npages), BOTTOM, TOP);
        return candidate, prev, first, i;
      }
      NoneFreeLess(spans, npages, BOTTOM, first, TOP - npages + 1);
      return 0, null, 0, i;
    }

    lemma FindStart(npages: nat)
      requires Valid()
      ensures |nodes| == |spans| && Canonical(spans, BOTTOM, TOP) && head == After(nodes, -1)
      ensures NoneFree(spans, npages, BOTTOM, BOTTOM)
    {}

    /** The placement part of uvm_mmap for a given start: panics (not ok) when the range is outside the area
        or overlaps a region. */
    method Place(start: nat, npages: nat) returns (prev: Region?, ok: bool, ghost i: nat)
      requires Valid() && 0 < npages && npages * PGSIZE < U32 && start % PGSIZE == 0
      ensures ok <==>
                MMAP_BEGIN <= start && start + npages * PGSIZE <= MMAP_END && Spans.Free(spans, start / PGSIZE, npages)
      ensures ok ==>
                Spans.Fits(spans, i, Span(start / PGSIZE, npages), BOTTOM, TOP) && i <= |nodes| && prev == Before(i)
    {
      AreaBounds();
      ghost var first := start / PGSIZE;
      var mapEnd := start + npages * PGSIZE;
      prev, i := null, 0;
      if start < MMAP_BEGIN || mapEnd > MMAP_END { return null, false, 0; }
      var curr := head;
      assert |nodes| == |spans| && Canonical(spans, BOTTOM, TOP) && curr == After(nodes, -1);
      hide Valid, Linked, Canonical, Spans.Fits, Spans.Free;
      while curr != null && curr.begin < start
        invariant 0 <= i <= |nodes| && curr == After(nodes, i - 1) && prev == Before(i)
        invariant 0 < i ==> End(spans[i - 1]) <= first
        decreases |nodes| - i
      {
        NodeAt(i);
        if curr.begin + curr.npages * PGSIZE > start {
          NotFreeHere(spans, i, first, npages);
          return null, false, 0;
        }
        prev := curr;
        curr := curr.next;
        i := i + 1;
      }
      if curr != null { NodeAt(i); }
      if curr != null && mapEnd > curr.begin {
        NotFreeHere(spans, i, first, npages);
        return null, false, 0;
      }
      FitsHere(spans, i, Span(first, npages), BOTTOM, TOP);
      return prev, true, i;
    }

    /** A node that is no longer in the list goes back to the pool. */
    method ReturnNode(r: Region)
      requires Linked() && r !in nodes && r !in pool.free
      modifies r`link, pool
      ensures Linked() && Stock() == old(Stock()) + {r}
    {
      pool.Free(r);
    }

    /** Let the predecessor of node `i`, or the head of the list, skip it. */
    method Bypass(prev: Region?, b: Region, ghost i: nat)
      requires Linked() && i < |nodes| && b == nodes[i] && prev == Before(i)
      modifies this, if prev == null then {} else {prev}
      ensures Linked() && spans == Dropped(old(spans), i) && nodes == Removed(old(nodes), i)
      ensures b !in nodes && b !in pool.free && old(Stock()) == Stock() + {b}
    {
      hide Removed, Dropped, RegionPool.Valid, Chained;
      RemovedDistinct(nodes, i, pool.free);
      LinkOut(prev, b, i);
      LabelledRemoved(nodes, spans, i);
      hide Labelled, Distinct;
      nodes, spans := Removed(nodes, i), Dropped(spans, i);
    }

    /** Set the pointers around node `i`. */
    method LinkOut(prev: Region?, b: Region, ghost i: nat)
      requires Linked() && i < |nodes| && b == nodes[i] && prev == Before(i)
      modifies this`head, if prev == null then {} else {prev}
      ensures Chained(head, Removed(nodes, i)) && Labelled(nodes, spans) && pool.Valid()
    {
      hide Removed, RegionPool.Valid;
      assert prev == null || (prev !in pool.free && prev == nodes[i - 1] && prev != b);
      if prev != null { prev.next := b.next; } else { head := b.next; }
      ChainedRemoved(head, nodes, i);
    }

    /** Node `a` takes over the pages of its successor `b`, and `b` goes back to the pool. */
    method Absorb(a: Region, b: Region, ghost i: nat)
      requires Linked() && i + 1 < |nodes| && a == nodes[i] && b == nodes[i + 1] && End(spans[i]) == spans[i + 1].first
      modifies this, a, b`link, pool
      ensures Linked() && spans == Joined(old(spans), i) && nodes == Removed(old(nodes), i + 1)
      ensures Stock() == old(Stock())
    {
      hide Linked, Stock, Joined, Dropped, Removed;
      LinkAt(i + 1);
      LinkAt(i);
      ghost var s := Span(spans[i].first, spans[i].n + spans[i + 1].n);
      JoinedIs(spans, i);
      Trim(a, a.begin, a.npages + b.npages, i, s);
      Bypass(a, b, i + 1);
      ReturnNode(b);
    }

    /** Put `node` between positions `i - 1` and `i`. */
    method Insert(prev: Region?, node: Region, ghost i: nat, ghost s: Span)
      requires Linked() && i <= |nodes| && prev == Before(i) && node !in nodes && node !in pool.free
      requires node.begin == s.first * PGSIZE && node.npages == s.n
      modifies this, node`next, if prev == null then {} else {prev}
      ensures Linked() && spans == Inserted(old(spans), i, s) && nodes == Placed(old(nodes), i, node)
      ensures Stock() == old(Stock()) + {node}
    {
      hide Placed, Inserted, RegionPool.Valid, Chained;
      PlacedDistinct(nodes, i, node, pool.free);
      LinkIn(prev, node, i);
      LabelledPlaced(nodes, spans, i, node, s);
      hide Labelled, Separate, Distinct;
      nodes, spans := Placed(nodes, i, node), Inserted(spans, i, s);
    }

    /** Set the pointers for `node` between positions `i - 1` and `i`. */
    method LinkIn(prev: Region?, node: Region, ghost i: nat)
      requires Linked() && i <= |nodes| && prev == Before(i) && node !in nodes && node !in pool.free
      modifies this`head, node`next, if prev == null then {} else {prev}
      ensures Chained(head, Placed(nodes, i, node)) && Labelled(nodes, spans) && pool.Valid()
      ensures node.begin == old(node.begin) && node.npages == old(node.npages)
    {
      hide Placed, RegionPool.Valid;
      assert prev == null || (prev !in pool.free && prev == nodes[i - 1]);
      if prev == null {
        node.next := head;
        head := node;
      } else {
        node.next := prev.next;
        prev.next := node;
      }
      ChainedPlaced(head, nodes, i, node);
    }

    /** The list part of uvm_mmap: insert a run at position `i` and join it with the neighbours it touches;
        panics (not ok) when no region node is left. */
    method Add(prev: Region?, addr: nat, npages: nat, ghost i: nat, ghost first: nat) returns (ok: bool)
      requires Valid() && addr == first * PGSIZE && Spans.Fits(spans, i, Span(first, npages), BOTTOM, TOP)
      requires prev == Before(i)
      modifies this, nodes, pool, pool.free
      ensures Valid() && Stock() == old(Stock())
      ensures ok <==> old(pool.free) != []
      ensures spans == if ok then Added(old(spans), i, Span(first, npages)) else old(spans)
    {
      AddedKeeps(spans, i, Span(first, npages), BOTTOM, TOP);
      ghost var spans0, s := spans, Span(first, npages);
      assert Added(spans0, i, s) == JoinPrev(JoinNext(Inserted(spans0, i, s), i), i);
      hide Canonical, Spans.Fits, Added, Inserted, JoinNext, JoinPrev, RegionPool.Valid, Distinct, Chained, Labelled,
           Separate, Stock;
      var node := NewNode(i);
      if node == null { return false; }
      node.begin := addr;
      node.npages := npages;
      InsertAndJoin(prev, node, i, s);
      return true;
    }

    /** Steps 2 and 3 of uvm_mmap. */
    method InsertAndJoin(prev: Region?, node: Region, ghost i: nat, ghost s: Span)
      requires Linked() && i <= |nodes| && prev == Before(i) && node !in nodes && node !in pool.free
      requires node.begin == s.first * PGSIZE && node.npages == s.n
      modifies this, node, nodes, pool
      ensures Linked() && spans == JoinPrev(JoinNext(Inserted(old(spans), i, s), i), i)
      ensures Stock() == old(Stock()) + {node}
    {
      assert prev == null || prev in nodes;
      hide Linked, Inserted, JoinNext, JoinPrev, After, Stock;
      Insert(prev, node, i, s);
      assert forall r :: r in nodes ==> r in old(nodes) || r == node;
      MergeNext(node, i);
      MergePrev(prev, node, i);
    }

    /** Join the new node with its successor when they touch. */
    method MergeNext(node: Region, ghost i: nat)
      requires Linked() && i < |nodes| && node == nodes[i]
      modifies this, nodes, pool
      ensures Linked() && spans == JoinNext(old(spans), i) && Stock() == old(Stock())
      ensures i < |nodes| && nodes[i] == node && Before(i) == old(Before(i))
    {
      hide Chained, Labelled, Separate, Distinct, RegionPool.Valid, Joined, Stock, Linked;
      LinkAt(i);
      if node.next != null {
        var nextNode := node.next;
        if node.begin + node.npages * PGSIZE == nextNode.begin { Absorb(node, nextNode, i); }
      }
    }

    /** Join the new node with its predecessor when they touch. */
    method MergePrev(prev: Region?, node: Region, ghost i: nat)
      requires Linked() && i < |nodes| && node == nodes[i] && prev == Before(i)
      modifies this, node`link, pool, if prev == null then {} else {prev}
      ensures Linked() && spans == JoinPrev(old(spans), i) && Stock() == old(Stock())
    {
      hide Chained, Labelled, Separate, Distinct, RegionPool.Valid, Joined, Stock, Linked;
      LinkAt(i);
      if prev != null {
        LinkAt(i - 1);
        if prev.begin + prev.npages * PGSIZE == node.begin { Absorb(prev, node, i - 1); }
      }
    }

    lemma LinkAt(i: nat)
      requires Linked() && i < |nodes|
      ensures |spans| == |nodes| && nodes[i].next == After(nodes, i) && nodes[i].begin == spans[i].first * PGSIZE
      ensures nodes[i].npages == spans[i].n
      ensures i + 1 < |nodes| ==> nodes[i + 1].begin == spans[i + 1].first * PGSIZE
    {}

    /** A blank node from the pool, for a list that does not hold it. */
    method NewNode(ghost i: nat) returns (node: Region?)
      requires Linked() && i <= |nodes|
      modifies pool, pool.free
      ensures Linked() && (node == null <==> old(pool.free) == [])
      ensures node == null ==> pool.free == []
      ensures node != null ==>
                node !in nodes && node !in pool.free && node in old(pool.free) && old(Stock()) == Stock() + {node}
      ensures node != null ==> |pool.free| == |old(pool.free)| - 1
      ensures node == null ==> Stock() == old(Stock())
      ensures forall r {:trigger r in pool.free} :: r in pool.free ==> r in old(pool.free)
    {
      node := pool.Alloc();
      if node != null {
        assert old(pool.free)[0] == node;
        assert forall r :: r in old(pool.free) <==> r == node || r in pool.free;
      }
    }

    /** Case A of uvm_munmap: take node `i` out of the list. */
    method Remove(prev: Region?, walker: Region, ghost i: nat)
      requires Linked() && i < |nodes| && walker == nodes[i] && prev == Before(i)
      modifies this, walker`link, pool, if prev == null then {} else {prev}
      ensures Linked() && spans == Dropped(old(spans), i) && nodes == Removed(old(nodes), i)
      ensures Stock() == old(Stock())
    {
      hide Linked, Stock, Dropped, Removed;
      Bypass(prev, walker, i);
      ReturnNode(walker);
    }

    lemma InStock()
      ensures forall r {:trigger r in nodes} :: r in nodes ==> r in Stock()
      ensures forall r {:trigger r in pool.free} :: r in pool.free ==> r in Stock()
    {}

    /** Cases B and C of uvm_munmap: node `i` now stands for run `s`. */
    method Trim(walker: Region, begin: nat, npages: nat, ghost i: nat, ghost s: Span)
      requires Linked() && i < |nodes| && walker == nodes[i] && begin == s.first * PGSIZE && npages == s.n
      modifies this`spans, walker`begin, walker`npages
      ensures Linked() && spans == old(spans)[i := s] && Stock() == old(Stock())
    {
      walker.begin := begin;
      walker.npages := npages;
      spans := spans[i := s];
    }

    /** One round of the loop of uvm_munmap, for a region that overlaps pages `lo` to `hi`: the four cases.
        Panics (not ok) when a split finds no region node. */
    method CutAt(prev: Region?, walker: Region, start: nat, unmapEnd: nat, ghost i: nat, ghost lo: nat, ghost hi: nat)
        returns (prevOut: Region?, next: Region?, stop: bool, ok: bool, ghost k: nat)
      requires Linked() && i < |nodes| && walker == nodes[i] && prev == Before(i) && 0 < spans[i].n
      requires start == lo * PGSIZE && unmapEnd == hi * PGSIZE && lo < hi && lo < End(spans[i]) && spans[i].first < hi
      modifies this, pool, Stock()
      ensures Linked() && Stock() == old(Stock())
      ensures spans == if ok then old(spans)[..i] + CutOne(old(spans)[i], lo, hi) + old(spans)[i + 1..] else old(spans)
      ensures k == i + |CutOne(old(spans)[i], lo, hi)|
      ensures ok && !stop ==> k <= |nodes| && prevOut == Before(k) && next == After(nodes, k - 1)
      ensures stop ==> hi < End(old(spans)[i])
      // the one way to fail: a region on both sides of the range, and no node for its second half
      ensures ok <==> !(Splits(old(spans)[i], lo, hi) && old(pool.free) == [])
    {
      hide Chained, Labelled, Separate, Distinct, RegionPool.Valid, Linked, Dropped, Inserted;
      InStock();
      assert walker in nodes && (prev == null || prev in nodes);
      LinkAt(i);
      ghost var s, spans0 := spans[i], spans;
      var regionEnd := walker.begin + walker.npages * PGSIZE;
      prevOut, next, stop, ok, k := prev, null, false, true, i + |CutOne(s, lo, hi)|;
      if start <= walker.begin && unmapEnd >= regionEnd {
        next := walker.next;
        Remove(prev, walker, i);
        CutRemoves(spans0, i, lo, hi);
      } else if start <= walker.begin && unmapEnd < regionEnd {
        var cutPages := (unmapEnd - walker.begin) / PGSIZE;
        Trim(walker, unmapEnd, walker.npages - cutPages, i, Span(hi, End(s) - hi));
        CutTrims(spans0, i, lo, hi);
        stop := true;
      } else if start > walker.begin && unmapEnd >= regionEnd {
        var cutPages := (regionEnd - start) / PGSIZE;
        Trim(walker, walker.begin, walker.npages - cutPages, i, Span(s.first, lo - s.first));
        CutTrims(spans0, i, lo, hi);
        prevOut, next := walker, walker.next;
      } else {
        var node := NewNode(i);
        if node == null { return prev, null, true, false, k; }
        LinkAt(i);
        assert walker in nodes;
        node.begin := unmapEnd;
        node.npages := (regionEnd - unmapEnd) / PGSIZE;
        Trim(walker, walker.begin, (start - walker.begin) / PGSIZE, i, Span(s.first, lo - s.first));
        Insert(walker, node, i + 1, Span(hi, End(s) - hi));
        CutSplits(spans0, i, lo, hi);
        stop := true;
      }
    }

    /** Midway through copying `other`: the first `i` nodes are copied. */
    ghost predicate Copying(other: RegionList, i: nat, stock0: set<Region>)
      reads this, nodes, pool, pool.free, other, other.nodes
    {
      && Linked() && i <= |other.nodes| && |other.spans| == |other.nodes| && |nodes| == i && spans == other.spans[..i]
      && Distinct(other.nodes) && Chained(other.head, other.nodes) && Labelled(other.nodes, other.spans)
      && Separate(other.nodes, pool.free) && Separate(nodes, other.nodes)
      && (set r | r in other.nodes) + Stock() == stock0
    }

    lemma CopyStart(other: RegionList)
      requires Valid() && nodes == [] && other.pool == pool && other.Valid()
      ensures Copying(other, 0, (set r | r in other.nodes) + Stock()) && other.head == After(other.nodes, -1)
      ensures |other.nodes| == |other.spans|
    {
      hide Stock, RegionPool.Valid;
      assert other.spans[..0] == [];
    }

    lemma CopySource(other: RegionList, i: nat, stock0: set<Region>)
      requires Copying(other, i, stock0) && i < |other.nodes|
      ensures other.nodes[i].next == After(other.nodes, i) && |nodes| == i && other.nodes[i] !in pool.free
      ensures other.nodes[i] !in nodes
      ensures |other.spans| == |other.nodes| && other.nodes[i].begin == other.spans[i].first * PGSIZE
      ensures other.nodes[i].npages == other.spans[i].n
    {
      hide Stock, RegionPool.Valid;
    }

    lemma CopyEnd(other: RegionList, i: nat, stock0: set<Region>)
      requires Copying(other, i, stock0) && other.pool == pool && Canonical(other.spans, BOTTOM, TOP)
      ensures other.Valid()
      ensures i == |other.nodes| ==> Valid() && spans == other.spans && Separate(nodes, other.nodes)
    {
      hide Stock, RegionPool.Valid, Distinct, Chained, Labelled, Separate, Canonical;
      assert i == |other.nodes| ==> other.spans[..i] == other.spans;
    }

    /** One round of the loop of proc_fork over the regions. */
    method CopyOne(other: RegionList, src: Region, last: Region?, ghost i: nat, ghost stock0: set<Region>)
      returns (node: Region?)
      requires other != this && other.pool == pool && Copying(other, i, stock0) && i < |other.nodes|
      requires src == other.nodes[i] && last == Before(i)
      modifies this, pool, Stock()
      ensures node == null ==> Copying(other, i, stock0) && pool.free == old(pool.free) == []
      ensures node != null ==> Copying(other, i + 1, stock0) && |nodes| == i + 1 && node == Before(i + 1)
      ensures node != null ==> |pool.free| == |old(pool.free)| - 1
      ensures Stock() == old(Stock())
    {
      hide Linked, RegionPool.Valid, Inserted, Placed, Distinct, Chained, Labelled;
      InStock();
      CopySource(other, i, stock0);
      assert last == null || last in nodes;
      node := NewNode(i);
      if node == null { return; }
      assert node !in other.nodes;
      PlacedLast(nodes, node);
      InsertedLast(other.spans, i);
      node.begin := src.begin;
      node.npages := src.npages;
      node.next := null;
      Insert(last, node, i, other.spans[i]);
    }

    /** The loop of proc_fork that copies the regions of the parent; panics (not ok) when no node is left. */
    method CopyFrom(other: RegionList) returns (ok: bool)
      requires Valid() && nodes == [] && other != this && other.pool == pool && other.Valid()
      modifies this, pool, Stock()
      ensures other.Valid() && other.spans == old(other.spans) && other.nodes == old(other.nodes)
      ensures ok ==> Valid() && spans == other.spans && Separate(nodes, other.nodes)
      ensures ok <==> |other.spans| <= |old(pool.free)|
      ensures !ok ==> pool.free == []
      ensures Stock() == old(Stock())
    {
      hide Copying, Linked, Canonical, RegionPool.Valid, Stock, Separate;
      CopyStart(other);
      ghost var stock0 := (set r | r in other.nodes) + Stock();
      var src := other.head;
      var last: Region? := null;
      ghost var i := 0;
      while src != null
        invariant 0 <= i <= |other.nodes| && |nodes| == i && src == After(other.nodes, i - 1) && last == Before(i)
        invariant Copying(other, i, stock0) && Stock() == old(Stock())
        invariant i + |pool.free| == |old(pool.free)| && |other.nodes| == |other.spans|
        decreases |other.nodes| - i
      {
        CopySource(other, i, stock0);
        var next := src.next;
        last := CopyOne(other, src, last, i, stock0);
        if last == null {
          CopyEnd(other, i, stock0);
          return false;
        }
        src := next;
        i := i + 1;
      }
      CopyEnd(other, i, stock0);
      return true;
    }
  }

  lemma JoinedIs(spans: seq<Span>, i: nat)
    requires i + 1 < |spans|
    ensures Joined(spans, i) == Dropped(spans[i := Span(spans[i].first, spans[i].n + spans[i + 1].n)], i + 1)
  {}

  lemma PlacedLast(nodes: seq<Region>, x: Region)
    ensures Placed(nodes, |nodes|, x) == nodes + [x]
  {}

  lemma InsertedLast(spans: seq<Span>, i: nat)
    requires i < |spans|
    ensures Inserted(spans[..i], i, spans[i]) == spans[..i + 1]
  {}

  lemma CutRemoves(spans: seq<Span>, i: nat, lo: nat, hi: nat)
    requires i < |spans| && lo <= spans[i].first && End(spans[i]) <= hi && lo < End(spans[i]) && spans[i].first < hi
    ensures CutOne(spans[i], lo, hi) == [] && Dropped(spans, i) == spans[..i] + [] + spans[i + 1..]
  {}

  lemma CutTrims(spans: seq<Span>, i: nat, lo: nat, hi: nat)
    requires i < |spans| && lo < End(spans[i]) && spans[i].first < hi
    ensures lo <= spans[i].first && hi < End(spans[i]) ==>
              var r := Span(hi, End(spans[i]) - hi);
              CutOne(spans[i], lo, hi) == [r] && spans[i := r] == spans[..i] + [r] + spans[i + 1..]
    ensures spans[i].first < lo && End(spans[i]) <= hi ==>
              var r := Span(spans[i].first, lo - spans[i].first);
              CutOne(spans[i], lo, hi) == [r] && spans[i := r] == spans[..i] + [r] + spans[i + 1..]
  {}

  lemma CutSplits(spans: seq<Span>, i: nat, lo: nat, hi: nat)
    requires i < |spans| && spans[i].first < lo < hi < End(spans[i])
    ensures var l, r := Span(spans[i].first, lo - spans[i].first), Span(hi, End(spans[i]) - hi);
            CutOne(spans[i], lo, hi) == [l, r] &&
                Inserted(spans[i := l], i + 1, r) == spans[..i] + [l, r] + spans[i + 1..]
  {}

  function Dropped(spans: seq<Span>, i: nat): (r: seq<Span>)
    requires i < |spans|
    ensures |r| == |spans| - 1
    ensures forall k {:trigger r[k]} :: 0 <= k < |r| ==> r[k] == if k < i then spans[k] else spans[k + 1]
  {
    spans[..i] + spans[i + 1..]
  }

  lemma NotFreeHere(spans: seq<Span>, i: nat, first: nat, n: nat)
    requires i < |spans| && first < End(spans[i]) && spans[i].first < first + n
    ensures !Spans.Free(spans, first, n)
  {}

  /** No place from page `lo` below page `hi` has `n` free pages. */
  ghost predicate NoneFree(spans: seq<Span>, n: nat, lo: nat, hi: int) {
    forall v: nat {:trigger Spans.Free(spans, v, n)} :: lo <= v < hi ==> !Spans.Free(spans, v, n)
  }

  lemma NoneFreeLess(spans: seq<Span>, n: nat, lo: nat, hi: int, k: int)
    requires NoneFree(spans, n, lo, hi) && k <= hi
    ensures NoneFree(spans, n, lo, k)
  {}

  /** When run `i` leaves too little room after `first`, no place before its end is free. */
  lemma NoneFreeNext(spans: seq<Span>, i: nat, lo: nat, first: nat, n: nat)
    requires i < |spans| && spans[i].first < first + n && NoneFree(spans, n, lo, first)
    ensures NoneFree(spans, n, lo, End(spans[i]))
  {}

  /** A place that fits is free. */
  lemma FitsHere(spans: seq<Span>, i: nat, s: Span, lo: nat, hi: nat)
    requires Canonical(spans, lo, hi) && i <= |spans| && 0 < s.n && lo <= s.first && End(s) <= hi
    requires 0 < i ==> End(spans[i - 1]) <= s.first
    requires i < |spans| ==> End(s) <= spans[i].first
    ensures Spans.Fits(spans, i, s, lo, hi) && Spans.Free(spans, s.first, s.n)
    ensures !NoneFree(spans, s.n, lo, hi - s.n + 1)
  {
    FitsBetween(spans, i, s, lo, hi);
    assert Spans.Free(spans, s.first, s.n);
  }
}
