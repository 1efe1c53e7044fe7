/** Copying an address space (uvm_copy_pgtbl of mem/uvm.c, and the memory part of proc_fork). */
module Fork {
  import opened Memory
  import opened PageTree
  import opened PageTables
  import opened PageAccounts
  import opened PageNeeds
  import opened UserCopy
  import opened Uvm
  import opened Spans
  import opened Regions
  import opened Space
  import Pmem

  /** Page `v` of table `child` is a twin of page `v` of table `root` as it was in `m0`: same flags, same bytes. */
  ghost predicate Twin(m0: Mem, f0: map<nat, Page>, root: nat, m: Mem, f: map<nat, Page>, child: nat, v: nat) {
    && UserPage(m, child, v)
    && Flags(Pte(m, child, v)) == Flags(Pte(m0, root, v))
    && Content(m, f, child, v) == Content(m0, f0, root, v)
  }

  /** The pages `s` are copied to table `child`, whose other pages are as in a new table; no other table has changed. */
  ghost predicate Copied(m0: Mem, f0: map<nat, Page>, root: nat, m: Mem, f: map<nat, Page>, child: nat, s: set<nat>) {
    && (forall v: nat {:trigger Pte(m, child, v)} :: v < VPNS ==>
          if v in s then Twin(m0, f0, root, m, f, child, v)
          else if v >= STACK_TOP then IsValid(Pte(m, child, v)) && !User(Pte(m, child, v))
          else !IsValid(Pte(m, child, v)))
    && (forall q: nat, w: nat {:trigger Pte(m, q, w)} :: w < VPNS && q != child ==>
          Pte(m, q, w) == Pte(m0, q, w) && (UserPage(m0, q, w) ==> Content(m, f, q, w) == Content(m0, f0, q, w)))
  }

  /** Copying one more range. */
  lemma CopiedMore(m0: Mem, f0: map<nat, Page>, root: nat, m1: Mem, f1: map<nat, Page>, m2: Mem, f2: map<nat, Page>,
                   child: nat, s: set<nat>, lo: nat, hi: nat)
    requires Copied(m0, f0, root, m1, f1, child, s) && root != child && hi <= STACK_TOP
    requires Laid(m1, f1, m2, f2, child, lo, hi, CopyOf(root))
    requires forall w: nat {:trigger UserPage(m0, root, w)} :: lo <= w < hi ==> UserPage(m0, root, w)
    ensures Copied(m0, f0, root, m2, f2, child, s + Pages(lo, hi))
  {
    hide Pte, Content, Flags, IsValid, User;
    forall v: nat | v < VPNS
      ensures if v in s + Pages(lo, hi) then Twin(m0, f0, root, m2, f2, child, v)
              else if v >= STACK_TOP then IsValid(Pte(m2, child, v)) && !User(Pte(m2, child, v))
              else !IsValid(Pte(m2, child, v))
    {
      assert Pte(m1, root, v) == Pte(m0, root, v);
      if lo <= v < hi {
        assert UserPage(m0, root, v);
      } else {
        assert Pte(m2, child, v) == Pte(m1, child, v);
      }
    }
    forall q: nat, w: nat | w < VPNS && q != child
      ensures Pte(m2, q, w) == Pte(m0, q, w) && (UserPage(m0, q, w) ==> Content(m2, f2, q, w) == Content(m0, f0, q, w))
    {
      assert Pte(m2, q, w) == Pte(m1, q, w) && Pte(m1, q, w) == Pte(m0, q, w);
      SameUser(m0, m1, q, w);
    }
  }

  /** The parent's pages can be copied: none is missing. */
  lemma SourceUser(m0: Mem, f0: map<nat, Page>, root: nat, m: Mem, f: map<nat, Page>, child: nat, s: set<nat>,
                   l: Layout, lo: nat, hi: nat)
    requires Copied(m0, f0, root, m, f, child, s) && root != child && MapsExactly(m0, root, l) && hi <= STACK_TOP
    requires forall v: nat :: lo <= v < hi ==> InLayout(l, v)
    ensures UserRange(m, root, lo, hi - lo)
    ensures forall v: nat {:trigger UserPage(m0, root, v)} :: lo <= v < hi ==> UserPage(m0, root, v)
    ensures forall v: nat {:trigger UserPage(m, root, v)} :: lo <= v < hi ==> UserPage(m, root, v)
    requires lo <= hi
  {
    hide Pte, InLayout, Content, IsValid, User;
    forall v: nat | lo <= v < hi ensures UserPage(m0, root, v) && UserPage(m, root, v) {
      assert InLayout(l, v);
      assert Pte(m, root, v) == Pte(m0, root, v);
      SameUser(m0, m, root, v);
    }
  }

  /** Nothing lies yet where the pages go. */
  lemma TargetClean(m0: Mem, f0: map<nat, Page>, root: nat, m: Mem, f: map<nat, Page>, child: nat, s: set<nat>, lo: nat,
                    hi: nat)
    requires Copied(m0, f0, root, m, f, child, s) && lo <= hi <= STACK_TOP && s !! Pages(lo, hi)
    ensures Clean(m, child, lo, hi - lo)
  {
    hide Pte, Content, UserPage, Flags;
    forall w: nat | lo <= w < hi && w < VPNS ensures Own(Pte(m, child, w)) == 0 {
      assert w in Pages(lo, hi);
    }
  }

  /** copy_virt_range within uvm_copy_pgtbl: no source page is missing. */
  method CopyPart(vm: Vm, root: nat, child: nat, start: nat, end: nat, ghost m0: Mem, ghost f0: map<nat, Page>,
                  ghost k0: seq<nat>, ghost u0: seq<nat>, ghost s: set<nat>, ghost all: set<nat>, ghost l: Layout,
                  ghost lo: nat, ghost hi: nat) returns (ok: bool)
    requires vm.Valid() && root in vm.roots && child in vm.roots && root != child && MapsExactly(m0, root, l)
    requires Copied(m0, f0, root, vm.View(), vm.frames, child, s)
    requires start == lo * PGSIZE && end == hi * PGSIZE && lo <= hi <= STACK_TOP
    requires forall v: nat :: lo <= v < hi ==> InLayout(l, v)
    requires s !! Pages(lo, hi) && s + Pages(lo, hi) <= all
    requires Paid(m0, k0, u0, vm.View(), vm.kpool.free, vm.upool.free, child, s)
    modifies vm, vm.kpool, vm.upool
    ensures vm.Valid() && vm.roots == old(vm.roots)
    ensures ok ==> Copied(m0, f0, root, vm.View(), vm.frames, child, s + Pages(lo, hi))
    ensures ok ==> vm.Books(child) == old(vm.Books(child))
    ensures ok ==> Paid(m0, k0, u0, vm.View(), vm.kpool.free, vm.upool.free, child, s + Pages(lo, hi))
    ensures !ok ==> NoMemory(vm) && !Affords(m0, k0, u0, child, all)
  {
    hide Vm.Valid, Vm.View, Pte, Laid, UserRange, UserPage, MapsExactly, Copied, InLayout, NoMemory, Clean, Vm.Books,
         Pages, Paid, Affords;
    ghost var m1, f1, k1, u1 := vm.View(), vm.frames, vm.kpool.free, vm.upool.free;
    TargetClean(m0, f0, root, m1, f1, child, s, lo, hi);
    SourceUser(m0, f0, root, m1, f1, child, s, l, lo, hi);
    StackBounds(0, 0);
    var r := CopyRange(vm, root, child, start, end, lo, hi - lo);
    if r != Done {
      Unaffordable(m0, k0, u0, m1, k1, u1, child, s, Pages(lo, hi), all);
      return false;
    }
    PaidThen(m0, k0, u0, m1, k1, u1, vm.View(), vm.kpool.free, vm.upool.free, child, s, Pages(lo, hi));
    CopiedMore(m0, f0, root, m1, f1, vm.View(), vm.frames, child, s, lo, hi);
    return true;
  }

  /** Pages 1, the heap and the stack of a layout, and its first `k` regions. */
  ghost function PagesOf(l: Layout, k: nat): set<nat>
    requires k <= |l.spans| && l.stack <= STACK_TOP
  {
    Pages(1, 2) + Pages(2, l.heapEnd) + Pages(STACK_TOP - l.stack, STACK_TOP) + SpanPages(l.spans[..k])
  }

  ghost function SpanPages(spans: seq<Span>): set<nat> {
    if spans == [] then {}
    else SpanPages(spans[..|spans| - 1]) + Pages(spans[|spans| - 1].first, End(spans[|spans| - 1]))
  }

  lemma {:induction false} SpanPagesCover(spans: seq<Span>, v: nat)
    ensures v in SpanPages(spans) <==> Covers(spans, v)
  {
    if spans != [] {
      var t, s := spans[..|spans| - 1], spans[|spans| - 1];
      SpanPagesCover(t, v);
      CoversAppend(t, [s], v);
      CoversOne(s, v);
      assert t + [s] == spans;
    }
  }

  lemma PagesInLayout(l: Layout, v: nat)
    requires LayoutOk(l)
    ensures v in PagesOf(l, |l.spans|) <==> InLayout(l, v)
  {
    AreaBounds();
    assert l.spans[..|l.spans|] == l.spans;
    SpanPagesCover(l.spans, v);
    hide Covers, SpanPages;
  }

  /** The pages of a layout. */
  ghost function LayoutPages(l: Layout): set<nat> { set v: nat | v < VPNS && InLayout(l, v) }

  lemma PagesAll(l: Layout, k: nat)
    requires LayoutOk(l) && k <= |l.spans|
    ensures PagesOf(l, |l.spans|) == LayoutPages(l) && PagesOf(l, k) <= LayoutPages(l)
    decreases |l.spans| - k
  {
    hide InLayout, PagesOf, LayoutOk;
    StackFits(l);
    forall v: nat ensures v in PagesOf(l, |l.spans|) <==> v < VPNS && InLayout(l, v) {
      PagesInLayout(l, v);
      if InLayout(l, v) { LayoutBelow(l, v); }
    }
    if k < |l.spans| {
      PagesNext(l, k);
      PagesAll(l, k + 1);
    }
  }

  lemma StackFits(l: Layout)
    requires LayoutOk(l)
    ensures l.stack <= STACK_TOP < VPNS
  {
    AreaBounds();
  }

  lemma PagesNext(l: Layout, k: nat)
    requires k < |l.spans| && l.stack <= STACK_TOP
    ensures PagesOf(l, k + 1) == PagesOf(l, k) + Pages(l.spans[k].first, End(l.spans[k]))
  {
    assert l.spans[..k + 1][..k] == l.spans[..k];
    hide Pages;
  }

  /** The parts that uvm_copy_pgtbl copies belong to the layout. */
  lemma PartsInLayout(l: Layout)
    requires LayoutOk(l)
    ensures l.heapEnd <= STACK_TOP && l.stack <= STACK_TOP && InLayout(l, 1)
    ensures forall v: nat :: 2 <= v < l.heapEnd ==> InLayout(l, v)
    ensures forall v: nat :: STACK_TOP - l.stack <= v < STACK_TOP ==> InLayout(l, v)
    ensures forall k, v: nat :: 0 <= k < |l.spans| && l.spans[k].first <= v < End(l.spans[k]) ==> InLayout(l, v)
    ensures forall k :: 0 <= k < |l.spans| ==> End(l.spans[k]) <= STACK_TOP
  {
    AreaBounds();
    forall k, v: nat | 0 <= k < |l.spans| && l.spans[k].first <= v < End(l.spans[k]) ensures InLayout(l, v) {
      assert Within(l.spans[k], v);
    }
  }

  /** The parts do not overlap. */
  lemma PartsApart(l: Layout)
    requires LayoutOk(l)
    ensures {} !! Pages(1, 2) && Pages(1, 2) !! Pages(2, l.heapEnd)
    ensures Pages(1, 2) + Pages(2, l.heapEnd) !! Pages(STACK_TOP - l.stack, STACK_TOP)
  {
    AreaBounds();
  }

  lemma SpanApart(l: Layout, k: nat)
    requires LayoutOk(l) && k < |l.spans|
    ensures PagesOf(l, k) !! Pages(l.spans[k].first, End(l.spans[k]))
  {
    AreaBounds();
    forall v: nat | l.spans[k].first <= v < End(l.spans[k]) ensures v !in SpanPages(l.spans[..k]) {
      SpanPagesCover(l.spans[..k], v);
      assert forall j :: 0 <= j < k ==> End(l.spans[j]) < l.spans[k].first;
    }
    hide SpanPages, Covers;
  }

  /** A table without user pages. */
  ghost predicate NoUserPages(m: Mem, root: nat) {
    forall v: nat {:trigger Pte(m, root, v)} :: v < VPNS ==>
      if v >= STACK_TOP then IsValid(Pte(m, root, v)) && !User(Pte(m, root, v)) else !IsValid(Pte(m, root, v))
  }

  lemma CopiedNone(m: Mem, f: map<nat, Page>, root: nat, child: nat)
    requires NoUserPages(m, child)
    ensures Copied(m, f, root, m, f, child, {})
  {
    hide Pte, IsValid, User;
  }

  lemma HeapPart(heapTop: nat)
    ensures heapTop <= USER_BASE + PGSIZE ==> Pages(2, Count(heapTop)) == {}
    ensures heapTop > USER_BASE + PGSIZE ==> 2 <= Count(heapTop)
  {}

  lemma NoPages(a: nat)
    ensures Pages(a, a) == {}
  {}

  /** Code, heap and stack within uvm_copy_pgtbl. */
  method CopyFixed(vm: Vm, root: nat, child: nat, heapTop: nat, stack: nat, ghost m0: Mem, ghost f0: map<nat, Page>,
                   ghost k0: seq<nat>, ghost u0: seq<nat>, ghost l: Layout) returns (ok: bool)
    requires vm.Valid() && root in vm.roots && child in vm.roots && root != child && MapsExactly(m0, root, l)
    requires LayoutOk(l)
    requires Copied(m0, f0, root, vm.View(), vm.frames, child, {}) && l.heapEnd == Count(heapTop) && l.stack == stack
    requires Paid(m0, k0, u0, vm.View(), vm.kpool.free, vm.upool.free, child, {})
    modifies vm, vm.kpool, vm.upool
    ensures vm.Valid() && vm.roots == old(vm.roots) && l.stack <= STACK_TOP
    ensures ok ==> Copied(m0, f0, root, vm.View(), vm.frames, child, PagesOf(l, 0))
    ensures ok ==> vm.Books(child) == old(vm.Books(child))
    ensures ok ==> Paid(m0, k0, u0, vm.View(), vm.kpool.free, vm.upool.free, child, PagesOf(l, 0))
    ensures !ok ==> NoMemory(vm) && !Affords(m0, k0, u0, child, LayoutPages(l))
  {
    hide Vm.Books, Vm.Valid, Vm.View, MapsExactly, Copied, InLayout, NoMemory, LayoutOk, Count, Pages, SpanPages,
         PagesOf, Paid, Affords, LayoutPages;
    ghost var all := LayoutPages(l);
    PagesAll(l, 0);
    PartsInLayout(l);
    FixedPages(l);
    PartsApart(l);
    Rounding(heapTop);
    HeapPart(heapTop);
    NoPages(STACK_TOP);
    StackBounds(0, 0);
    ok := CopyPart(vm, root, child, USER_BASE, USER_BASE + PGSIZE, m0, f0, k0, u0, {}, all, l, 1, 2);
    if !ok { return; }
    ghost var s1 := Pages(1, 2);
    assert {} + Pages(1, 2) == s1;
    if heapTop > USER_BASE + PGSIZE {
      ok := CopyPart(vm, root, child, USER_BASE + PGSIZE, RoundUp(heapTop), m0, f0, k0, u0, s1, all, l, 2, l.heapEnd);
      if !ok { return; }
    }
    ghost var s2 := s1 + Pages(2, l.heapEnd);
    assert s1 + {} == s1;
    if stack > 0 {
      ok := CopyPart(vm, root, child, TRAPFRAME - stack * PGSIZE, TRAPFRAME, m0, f0, k0, u0, s2, all, l,
          STACK_TOP - stack, STACK_TOP);
      if !ok { return; }
    }
    assert s2 + {} == s2;
  }

  lemma FixedPages(l: Layout)
    requires l.stack <= STACK_TOP
    ensures PagesOf(l, 0) == Pages(1, 2) + Pages(2, l.heapEnd) + Pages(STACK_TOP - l.stack, STACK_TOP)
  {
    assert l.spans[..0] == [];
    hide Pages;
  }

  /** The regions within uvm_copy_pgtbl. */
  method CopySpans(vm: Vm, root: nat, child: nat, regions: RegionList, ghost m0: Mem, ghost f0: map<nat, Page>,
                   ghost k0: seq<nat>, ghost u0: seq<nat>, ghost l: Layout) returns (ok: bool)
    requires vm.Valid() && root in vm.roots && child in vm.roots && root != child && MapsExactly(m0, root, l)
    requires LayoutOk(l)
    requires l.stack <= STACK_TOP && Copied(m0, f0, root, vm.View(), vm.frames, child, PagesOf(l, 0))
    requires regions.Valid() && regions.spans == l.spans
    requires Paid(m0, k0, u0, vm.View(), vm.kpool.free, vm.upool.free, child, PagesOf(l, 0))
    modifies vm, vm.kpool, vm.upool
    ensures vm.Valid() && vm.roots == old(vm.roots)
    ensures ok ==> Copied(m0, f0, root, vm.View(), vm.frames, child, PagesOf(l, |l.spans|))
    ensures ok ==> vm.Books(child) == old(vm.Books(child))
    ensures ok ==> Paid(m0, k0, u0, vm.View(), vm.kpool.free, vm.upool.free, child, PagesOf(l, |l.spans|))
    ensures !ok ==> NoMemory(vm) && !Affords(m0, k0, u0, child, LayoutPages(l))
  {
    hide Vm.Books, Vm.Valid, Vm.View, MapsExactly, Copied, InLayout, NoMemory, LayoutOk, Pages, PagesOf,
         RegionList.Linked, Canonical, Paid, Affords, LayoutPages;
    PartsInLayout(l);
    HeadAt(regions);
    var walker := regions.head;
    ghost var i := 0;
    while walker != null
      invariant 0 <= i <= |regions.nodes| && walker == After(regions.nodes, i - 1)
      invariant vm.Valid() && vm.roots == old(vm.roots)
      invariant Copied(m0, f0, root, vm.View(), vm.frames, child, PagesOf(l, i))
      invariant vm.Books(child) == old(vm.Books(child))
      invariant Paid(m0, k0, u0, vm.View(), vm.kpool.free, vm.upool.free, child, PagesOf(l, i))
      decreases |regions.nodes| - i
    {
      regions.LinkAt(i);
      SpanApart(l, i);
      PagesNext(l, i);
      PagesAll(l, i + 1);
      var end := walker.begin + walker.npages * PGSIZE;
      ok := CopyPart(vm, root, child, walker.begin, end, m0, f0, k0, u0, PagesOf(l, i), LayoutPages(l), l,
          l.spans[i].first, End(l.spans[i]));
      if !ok { return; }
      walker := walker.next;
      i := i + 1;
    }
    return true;
  }

  lemma HeadAt(regions: RegionList)
    requires regions.Valid()
    ensures regions.Linked() && |regions.nodes| == |regions.spans| && regions.head == After(regions.nodes, -1)
  {}

  /** Parent and child agree: every page of the layout has the same flags and the same bytes in both. */
  ghost predicate Twins(m0: Mem, f0: map<nat, Page>, root: nat, m: Mem, f: map<nat, Page>, child: nat, l: Layout) {
    forall v: nat {:trigger Pte(m, child, v)} :: InLayout(l, v) ==> Twin(m0, f0, root, m, f, child, v)
  }

  /** uvm_copy_pgtbl: the child's table maps exactly the parent's layout, with equal bytes and flags; panics
      (not ok) only for want of memory, never because a source page is missing. */
  method CopyPgtbl(parent: AddressSpace, child: nat) returns (ok: bool)
    requires parent.Valid() && child in parent.vm.roots && child != parent.pgtbl && NoUserPages(parent.vm.View(), child)
    modifies parent.vm, parent.vm.kpool, parent.vm.upool
    ensures parent.vm.Valid() && parent.vm.roots == old(parent.vm.roots)
    ensures ok ==> parent.Valid() && MapsExactly(parent.vm.View(), child, parent.Plan())
    ensures ok ==>
              Twins(old(parent.vm.View()), old(parent.vm.frames), parent.pgtbl, parent.vm.View(), parent.vm.frames,
                  child, parent.Plan())
    ensures ok ==> forall q: nat, w: nat {:trigger Pte(parent.vm.View(), q, w)} :: w < VPNS && q != child ==>
              Pte(parent.vm.View(), q, w) == Pte(old(parent.vm.View()), q, w) &&
              (UserPage(old(parent.vm.View()), q, w) ==>
                    Content(parent.vm.View(), parent.vm.frames, q, w) ==
                      Content(old(parent.vm.View()), old(parent.vm.frames), q, w))
    ensures !ok ==> NoMemory(parent.vm)
    // a frame for every page of the parent, and a page for every table the child lacks for them
    ensures ok <==>
              Affords(old(parent.vm.View()), old(parent.vm.kpool.free), old(parent.vm.upool.free), child,
                  LayoutPages(parent.Plan()))
    ensures ok ==> parent.vm.Books(child) == old(parent.vm.Books(child))
  {
    hide Vm.Books, Vm.Valid, Vm.View, MapsExactly, Copied, InLayout, NoMemory, LayoutOk, Pages, PagesOf,
         RegionList.Valid, NoUserPages, Count, Pte, Twins, Content, UserPage, Paid, Affords, LayoutPages;
    var vm := parent.vm;
    ghost var m0, f0, l, k0, u0 := vm.View(), vm.frames, parent.Plan(), vm.kpool.free, vm.upool.free;
    parent.PlanOk();
    CopiedNone(m0, f0, parent.pgtbl, child);
    PaidNone(m0, k0, u0, child, 0);
    NoPages(0);
    PagesAll(l, |l.spans|);
    ok := CopyFixed(vm, parent.pgtbl, child, parent.heapTop, parent.ustackPages, m0, f0, k0, u0, l);
    if !ok { return; }
    ok := CopySpans(vm, parent.pgtbl, child, parent.regions, m0, f0, k0, u0, l);
    if !ok { return; }
    PaidMeans(m0, k0, u0, vm.View(), vm.kpool.free, vm.upool.free, child, LayoutPages(l));
    CopiedAll(m0, f0, parent.pgtbl, vm.View(), vm.frames, child, l);
  }

  lemma CopiedAll(m0: Mem, f0: map<nat, Page>, root: nat, m: Mem, f: map<nat, Page>, child: nat, l: Layout)
    requires LayoutOk(l) && MapsExactly(m0, root, l) && root != child && l.stack <= STACK_TOP
    requires Copied(m0, f0, root, m, f, child, PagesOf(l, |l.spans|))
    ensures MapsExactly(m, root, l) && MapsExactly(m, child, l) && Twins(m0, f0, root, m, f, child, l)
    ensures forall q: nat, w: nat {:trigger Pte(m, q, w)} :: w < VPNS && q != child ==>
              Pte(m, q, w) == Pte(m0, q, w) && (UserPage(m0, q, w) ==> Content(m, f, q, w) == Content(m0, f0, q, w))
  {
    hide Pte, InLayout, LayoutOk, Content, IsValid, User, Flags, PagesOf;
    forall v: nat ensures v in PagesOf(l, |l.spans|) <==> InLayout(l, v) { PagesInLayout(l, v); }
    forall v: nat | InLayout(l, v) ensures v < STACK_TOP < VPNS { LayoutBelow(l, v); }
    forall v: nat | v < VPNS
      ensures if InLayout(l, v) then UserPage(m, root, v)
              else if v >= STACK_TOP then IsValid(Pte(m, root, v)) && !User(Pte(m, root, v))
              else !IsValid(Pte(m, root, v))
    {
      assert Pte(m, root, v) == Pte(m0, root, v);
    }
    forall v: nat | v < VPNS
      ensures if InLayout(l, v) then Twin(m0, f0, root, m, f, child, v)
              else if v >= STACK_TOP then IsValid(Pte(m, child, v)) && !User(Pte(m, child, v))
              else !IsValid(Pte(m, child, v))
    {
      assert v in PagesOf(l, |l.spans|) <==> InLayout(l, v);
    }
  }

  /** The memory of a new process: its table maps the trampoline and the trapframe only. */
  method NewTableFor(vm: Vm, trampoline: nat, trapframe: nat) returns (root: nat, ok: bool)
    requires vm.Valid() && trampoline % PGSIZE == 0 && trapframe % PGSIZE == 0
    modifies vm, vm.kpool
    ensures vm.Valid() && vm.frames == old(vm.frames)
    ensures ok ==> root !in old(vm.roots) && vm.roots == old(vm.roots) + {root} && NoUserPages(vm.View(), root)
    ensures ok ==>
              forall q: nat, w: nat {:trigger Pte(vm.View(), q, w)} :: w < VPNS && q != root ==>
                  Pte(vm.View(), q, w) == Pte(old(vm.View()), q, w)
    ensures ok ==> vm.Books(root) == old(vm.Books(root))
    ensures !ok ==> vm.kpool.free == []
    ensures ok <==> 1 + TableCount(FIXED) <= |old(vm.kpool.free)|
    ensures ok ==> Started(|old(vm.kpool.free)|, vm.View(), vm.kpool.free, root, FIXED)
    ensures vm.upool.free == old(vm.upool.free)
  {
    hide Vm.Books, Vm.Valid, Vm.View, Pte, MakePte, IsValid, User, TableCount, Started;
    FixedPerms();
    vm.PoolsApart(PTE_R + PTE_X);
    root, ok := vm.PgtblInit(trampoline, trapframe);
    FixedEntries(trampoline, trapframe);
    OwnZero();
  }

  lemma FixedEntries(trampoline: nat, trapframe: nat)
    requires trampoline % PGSIZE == 0 && trapframe % PGSIZE == 0
    ensures var e := MakePte(trampoline, PTE_R + PTE_X); IsValid(e) && !User(e)
    ensures var e := MakePte(trapframe, PTE_R + PTE_W); IsValid(e) && !User(e)
    ensures TRAPFRAME / PGSIZE == STACK_TOP && TRAMPOLINE / PGSIZE == STACK_TOP + 1 == VPNS - 1
  {
    MadePerm(trampoline, PTE_R + PTE_X);
    MadePerm(trapframe, PTE_R + PTE_W);
    hide MakePte, IsValid, User, Flags;
  }

  /** There is a page for the child's root and for each table below it, a frame for each of its pages, and a node for
      each of its regions. */
  ghost predicate CanFork(l: Layout, kernelPages: nat, userFrames: nat, nodes: nat) {
    && 1 + TableCount(FIXED + LayoutPages(l)) <= kernelPages
    && |LayoutPages(l)| <= userFrames
    && |l.spans| <= nodes
  }

  /** The memory part of proc_fork: panics (no child) only for want of memory or of region nodes. */
  method ForkSpace(parent: AddressSpace, trampoline: nat, trapframe: nat) returns (child: AddressSpace?)
    requires parent.Valid() && trampoline % PGSIZE == 0 && trapframe % PGSIZE == 0
    modifies parent.vm, parent.vm.kpool, parent.vm.upool, parent.regions.pool, parent.regions.Stock()
    // the child's pages came from the pools, and no other table gained or lost a page
    ensures child != null ==> var root := child.pgtbl;
              && root !in old(parent.vm.roots)
              && parent.vm.roots == old(parent.vm.roots) + {root}
              && parent.vm.Books(root) == old(parent.vm.Books(root))
    ensures child != null ==> parent.Valid() && child.Valid() && child.Plan() == parent.Plan() == old(parent.Plan())
    ensures child != null ==>
              && child.vm == parent.vm
              && child.pgtbl != parent.pgtbl
              && fresh(child)
              && fresh(child.regions)
              && Separate(child.regions.nodes, parent.regions.nodes)
    ensures child != null ==>
              Twins(old(parent.vm.View()), old(parent.vm.frames), parent.pgtbl, parent.vm.View(), parent.vm.frames,
                  child.pgtbl, parent.Plan())
    ensures child == null ==> NoMemory(parent.vm) || parent.regions.pool.free == []
    // it succeeds exactly when the pools have the tables, the frames and the region nodes
    ensures child != null <==>
              CanFork(old(parent.Plan()), |old(parent.vm.kpool.free)|, |old(parent.vm.upool.free)|,
                  |old(parent.regions.pool.free)|)
  {
    hide Vm.Books, Vm.Valid, Vm.View, MapsExactly, InLayout, LayoutOk, NoUserPages, Count, Pte, Twins, Content,
         UserPage, RegionList.Valid, RegionPool.Valid, RegionList.Stock, Separate, TableCount, HasTables,
         LayoutPages;
    CountLess(FIXED, FIXED + LayoutPages(parent.Plan()));
    var vm, regions := parent.vm, parent.regions;
    ghost var m0, f0, l := vm.View(), vm.frames, parent.Plan();
    parent.PlanOk();
    var root, ok := NewTableFor(vm, trampoline, trapframe);
    if !ok { return null; }
    ghost var m1 := vm.View();
    SameLayout(m0, m1, parent.pgtbl, l);
    ok := CopyPgtbl(parent, root);
    if !ok { return null; }
    TwinsFrom(m0, f0, m1, vm.View(), vm.frames, parent.pgtbl, root, l);
    PoolOf(regions);
    var list := new RegionList(regions.pool);
    SameStock(list, regions);
    ok := list.CopyFrom(regions);
    if !ok { return null; }
    child := new AddressSpace(vm, list, root, parent.heapTop, parent.ustackPages);
  }

  lemma SameStock(list: RegionList, regions: RegionList)
    requires list.nodes == [] && list.pool == regions.pool
    ensures list.Stock() <= regions.Stock()
  {}

  lemma PoolOf(regions: RegionList)
    requires regions.Valid()
    ensures regions.pool.Valid()
  {}

  lemma SameLayout(m0: Mem, m1: Mem, root: nat, l: Layout)
    requires MapsExactly(m0, root, l)
    requires forall w: nat {:trigger Pte(m1, root, w)} :: w < VPNS ==> Pte(m1, root, w) == Pte(m0, root, w)
    ensures MapsExactly(m1, root, l)
  {
    hide Pte, InLayout, IsValid, User;
    forall w: nat | w < VPNS ensures UserPage(m1, root, w) == UserPage(m0, root, w) {
      assert Pte(m1, root, w) == Pte(m0, root, w);
      SameUser(m0, m1, root, w);
    }
  }

  /** Twins of the pages after the child's table was made are twins of the pages before. */
  lemma TwinsFrom(m0: Mem, f0: map<nat, Page>, m1: Mem, m2: Mem, f2: map<nat, Page>, root: nat, child: nat, l: Layout)
    requires Twins(m1, f0, root, m2, f2, child, l) && LayoutOk(l)
    requires forall w: nat {:trigger Pte(m1, root, w)} :: w < VPNS ==> Pte(m1, root, w) == Pte(m0, root, w)
    ensures Twins(m0, f0, root, m2, f2, child, l)
  {
    hide Pte, InLayout, UserPage, Flags, LayoutOk;
    forall v: nat | InLayout(l, v) ensures Twin(m0, f0, root, m2, f2, child, v) {
      LayoutBelow(l, v);
      assert Pte(m1, root, v) == Pte(m0, root, v);
      SameContent(m0, m1, f0, root, v);
      var e := Pte(m2, child, v);
    }
  }

  const RWXU: nat := PTE_R + PTE_W + PTE_X + PTE_U

  /** What user code finds in a page, byte for byte. */
  lemma ContentBytes(m: Mem, frames: map<nat, Page>, root: nat, v: nat)
    ensures forall k {:trigger Content(m, frames, root, v)[k]} :: 0 <= k < PGSIZE ==>
              UserByte(m, frames, root, v * PGSIZE + k) == Content(m, frames, root, v)[k]
  {
    hide Pte, Pa;
    forall k | 0 <= k < PGSIZE ensures UserByte(m, frames, root, v * PGSIZE + k) == Content(m, frames, root, v)[k] {
      assert (v * PGSIZE + k) / PGSIZE == v;
    }
  }

  /** The memory part of proc_make_first: the code page, one stack page and no heap. */
  method FirstSpace(vm: Vm, pool: RegionPool, code: Page, trampoline: nat, trapframe: nat)
    returns (first: AddressSpace?)
    requires vm.Valid() && pool.Valid() && trampoline % PGSIZE == 0 && trapframe % PGSIZE == 0
    modifies vm, vm.kpool, vm.upool
    ensures first != null ==>
              && first.Valid()
              && first.Plan() == Layout(2, 1, [])
              && fresh(first)
              && fresh(first.regions)
              && first.regions.pool == pool
    ensures first != null ==> Content(vm.View(), vm.frames, first.pgtbl, 1) == code
    ensures first != null ==> Content(vm.View(), vm.frames, first.pgtbl, STACK_TOP - 1) == ZeroPage()
    // the code begins at the first address of user code, byte for byte
    ensures first != null ==>
              forall k {:trigger code[k]} :: 0 <= k < PGSIZE ==>
                UserByte(vm.View(), vm.frames, first.pgtbl, USER_BASE + k) == code[k]
    // user code may read, write and run the first page, and read and write its stack
    ensures first != null ==>
              var e, f := Pte(vm.View(), first.pgtbl, 1), Pte(vm.View(), first.pgtbl, STACK_TOP - 1);
              User(e) && Readable(e) && Writable(e) && Executable(e) &&
                  User(f) && Readable(f) && Writable(f) && !Executable(f)
    ensures first == null ==> NoMemory(vm)
    // five pages for tables and two frames are enough, and less is not
    ensures first != null <==> 5 <= |old(vm.kpool.free)| && 2 <= |old(vm.upool.free)|
  {
    hide Vm.Valid, Vm.View, Pte, LaidOne, MapsExactly, NoUserPages, Content, RegionPool.Valid, LeafPerm, UserPerm,
         User, Readable, Writable, Executable, Flags, Affords, Paid, TableCount, Started, RegionList.Valid,
         RegionList.Linked, Canonical, Own, Vm.Books, Count, UserByte;
    FirstTables();
    ghost var budget := |vm.kpool.free|;
    var root, ok := NewTableFor(vm, trampoline, trapframe);
    if !ok { return null; }
    FirstPerms();
    ghost var m1, f1, k1, u1 := vm.View(), vm.frames, vm.kpool.free, vm.upool.free;
    FirstNeeds(budget, m1, k1, u1, root);
    FirstShort(m1, k1, u1, root);
    ok := LayPage(vm, root, USER_BASE, code, RWXU);
    if !ok { return null; }
    ghost var m2, f2, k2, u2 := vm.View(), vm.frames, vm.kpool.free, vm.upool.free;
    ok := LayPage(vm, root, TRAPFRAME - PGSIZE, ZeroPage(), RWU);
    FirstPaid(m1, k1, u1, m2, k2, u2, vm.View(), vm.kpool.free, vm.upool.free, root, ok);
    if !ok { return null; }
    FirstLayout(m1, f1, m2, f2, vm.View(), vm.frames, root, code);
    FirstBits(Pte(vm.View(), root, 1), Pte(vm.View(), root, STACK_TOP - 1));
    ContentBytes(vm.View(), vm.frames, root, 1);
    var list := new RegionList(pool);
    first := new AddressSpace(vm, list, root, USER_BASE + PGSIZE, 1);
  }

  /** The pages of the first process. */
  const FIRST: set<nat> := {1} + {STACK_TOP - 1}

  /** The trampoline, the trapframe and the stack share their tables; the code page needs two of its own. */
  lemma FirstTables()
    ensures TableCount(FIXED) == 2 && TableCount(FIXED + FIRST) == 4 && |FIRST| == 2
  {
    hide Walks, L1Pos, L0Pos, Vpn2, Vpn1;
    var a, b, c := VPNS - 1, VPNS - 2, VPNS - 3;
    assert FIXED == {} + {a} + {b} && FIXED + FIRST == {} + {a} + {b} + {c} + {1};
    FirstVpns();
    WalksNone(0);
    WalksNext(0, {}, a);
    WalksNext(0, {} + {a}, b);
    WalksNext(0, {} + {a} + {b}, c);
    WalksNext(0, {} + {a} + {b} + {c}, 1);
    CellIn(0, {} + {a}, b);
    CellIn(0, {} + {a} + {b}, c);
    CellIn(0, {} + {a} + {b} + {c}, 1);
  }

  lemma FirstVpns()
    ensures forall v {:trigger Vpn2(v)} :: VPNS - 3 <= v < VPNS ==> Vpn2(v) == 255 && Vpn1(v) == 511
    ensures Vpn2(1) == 0
  {
    forall v | VPNS - 3 <= v < VPNS ensures Vpn2(v) == 255 && Vpn1(v) == 511 {
      assert v / 0x40000 == 255 && v / 512 == 0x1_FFFF;
    }
  }

  lemma FirstNeeds(budget: nat, m: Mem, kfree: seq<nat>, ufree: seq<nat>, root: nat)
    requires Started(budget, m, kfree, root, FIXED)
    ensures Affords(m, kfree, ufree, root, FIRST) <==> 5 <= budget && 2 <= |ufree|
  {
    FirstTables();
    hide TableCount, HasTables;
  }

  lemma FirstShort(m: Mem, kfree: seq<nat>, ufree: seq<nat>, root: nat)
    ensures !Affords(m, kfree, ufree, root, {1}) ==> !Affords(m, kfree, ufree, root, FIRST)
  {
    hide Affords, Paid;
    PaidNone(m, kfree, ufree, root, 0);
    NoPages(0);
    if !Affords(m, kfree, ufree, root, {1}) { Unaffordable(m, kfree, ufree, m, kfree, ufree, root, {}, {1}, FIRST); }
  }

  lemma FirstPaid(m: Mem, kfree: seq<nat>, ufree: seq<nat>, g: Mem, kfree': seq<nat>, ufree': seq<nat>, h: Mem,
                  kfree'': seq<nat>, ufree'': seq<nat>, root: nat, ok: bool)
    requires Paid(m, kfree, ufree, g, kfree', ufree', root, {1})
    requires if ok then Paid(g, kfree', ufree', h, kfree'', ufree'', root, {STACK_TOP - 1})
             else !Affords(g, kfree', ufree', root, {STACK_TOP - 1})
    ensures ok <==> Affords(m, kfree, ufree, root, FIRST)
  {
    hide Affords, Paid;
    if ok {
      PaidThen(m, kfree, ufree, g, kfree', ufree', h, kfree'', ufree'', root, {1}, {STACK_TOP - 1});
      PaidMeans(m, kfree, ufree, h, kfree'', ufree'', root, FIRST);
    } else {
      Unaffordable(m, kfree, ufree, g, kfree', ufree', root, {1}, {STACK_TOP - 1}, FIRST);
    }
  }

  lemma FirstPerms()
    ensures LeafPerm(RWXU) && UserPerm(RWXU) && LeafPerm(RWU) && UserPerm(RWU)
    ensures USER_BASE / PGSIZE == 1 && (TRAPFRAME - PGSIZE) / PGSIZE == STACK_TOP - 1
    ensures (TRAPFRAME - PGSIZE) % PGSIZE == 0
    ensures Count(USER_BASE + PGSIZE) == 2 && 2 * PGSIZE <= MMAP_BEGIN && 1 <= STACK_TOP - TOP && USER_BASE < VA_MAX
    ensures TRAPFRAME - PGSIZE < VA_MAX
  {
    AreaBounds();
  }

  lemma FirstBits(e: nat, f: nat)
    requires Flags(e) == WithValid(RWXU) && Flags(f) == WithValid(RWU)
    ensures User(e) && Readable(e) && Writable(e) && Executable(e)
    ensures User(f) && Readable(f) && Writable(f) && !Executable(f)
  {
    hide Flags;
  }

  lemma FirstLayout(m1: Mem, f1: map<nat, Page>, m2: Mem, f2: map<nat, Page>, m3: Mem, f3: map<nat, Page>, root: nat,
                    code: Page)
    requires NoUserPages(m1, root)
    requires LaidOne(m1, f1, m2, f2, root, 1, WithValid(RWXU), code)
    requires LaidOne(m2, f2, m3, f3, root, STACK_TOP - 1, WithValid(RWU), ZeroPage())
    ensures MapsExactly(m3, root, Layout(2, 1, [])) && Content(m3, f3, root, 1) == code
    ensures Content(m3, f3, root, STACK_TOP - 1) == ZeroPage()
    ensures Flags(Pte(m3, root, 1)) == WithValid(RWXU) && Flags(Pte(m3, root, STACK_TOP - 1)) == WithValid(RWU)
  {
    AreaBounds();
    hide Pte, Content, IsValid, User, Flags, ZeroPage, WithValid;
    var l := Layout(2, 1, []);
    forall v: nat | v < VPNS
      ensures if InLayout(l, v) then UserPage(m3, root, v)
              else if v >= STACK_TOP then IsValid(Pte(m3, root, v)) && !User(Pte(m3, root, v))
              else !IsValid(Pte(m3, root, v))
    {
      assert InLayout(l, v) <==> v == 1 || v == STACK_TOP - 1;
      if v != STACK_TOP - 1 { assert Pte(m3, root, v) == Pte(m2, root, v); }
      if v != 1 { assert Pte(m2, root, v) == Pte(m1, root, v); }
    }
    assert UserPage(m2, root, 1);
    assert Pte(m3, root, 1) == Pte(m2, root, 1);
  }
}
