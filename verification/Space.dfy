/** The address space of a process: heap, stack, mapped regions and page table together
    (mem/uvm.c, and sys_brk, sys_mmap and sys_munmap of syscall/sysfunc.c). */
module Space {
  import opened Memory
  import opened PageTree
  import opened PageTables
  import opened PageNeeds
  import opened UserCopy
  import opened Uvm
  import opened Spans
  import opened Regions
  import Pmem

  /** The pages a process should have: one code page, the heap up to page `heapEnd`, `stack` stack pages
      and the mapped regions. */
  datatype Layout = Layout(heapEnd: nat, stack: nat, spans: seq<Span>)

  ghost predicate InLayout(l: Layout, v: nat) {
    v == 1 || 2 <= v < l.heapEnd || STACK_TOP - l.stack <= v < STACK_TOP || Covers(l.spans, v)
  }

  ghost predicate LayoutOk(l: Layout) {
    2 <= l.heapEnd <= BOTTOM && l.stack <= STACK_TOP - TOP && Canonical(l.spans, BOTTOM, TOP)
  }

  /** The user pages of table `root` are exactly those of the layout; above them the trapframe and the
      trampoline are mapped for the kernel, and nothing else is mapped. */
  ghost predicate MapsExactly(m: Mem, root: nat, l: Layout) {
    forall v: nat {:trigger Pte(m, root, v)} :: v < VPNS ==>
      if InLayout(l, v) then UserPage(m, root, v)
      else if v >= STACK_TOP then IsValid(Pte(m, root, v)) && !User(Pte(m, root, v))
      else !IsValid(Pte(m, root, v))
  }

  /** Pages that stay in the layout keep their entry and their bytes, and so do all pages of other tables. */
  ghost predicate Preserved(m0: Mem, f0: map<nat, Page>, l0: Layout, m1: Mem, f1: map<nat, Page>, l1: Layout,
                            root: nat) {
    forall q: nat, w: nat {:trigger Pte(m1, q, w)} ::
        w < VPNS && (q != root || (InLayout(l0, w) && InLayout(l1, w))) ==>
      Pte(m1, q, w) == Pte(m0, q, w) && (UserPage(m0, q, w) ==> Content(m1, f1, q, w) == Content(m0, f0, q, w))
  }

  /** Pages that are new in the layout are zero and have the given permissions. */
  ghost predicate NewAreZero(l0: Layout, m1: Mem, f1: map<nat, Page>, l1: Layout, root: nat, perm: nat) {
    forall w: nat {:trigger Pte(m1, root, w)} :: w < VPNS && InLayout(l1, w) && !InLayout(l0, w) ==>
      Flags(Pte(m1, root, w)) == WithValid(perm) && Content(m1, f1, root, w) == ZeroPage()
  }

  /** A layout lies below the fixed kernel mappings. */
  lemma LayoutBelow(l: Layout, v: nat)
    requires LayoutOk(l) && InLayout(l, v)
    ensures v < STACK_TOP < VPNS
  {
    AreaBounds();
  }

  /** Laying pages in a hole extends the layout. */
  lemma GrowLayout(m0: Mem, f0: map<nat, Page>, l0: Layout, m1: Mem, f1: map<nat, Page>, l1: Layout, root: nat, lo: nat,
                   hi: nat, perm: nat)
    requires MapsExactly(m0, root, l0) && Laid(m0, f0, m1, f1, root, lo, hi, Zeroes(perm)) && hi <= STACK_TOP
    requires forall v: nat :: InLayout(l1, v) <==> InLayout(l0, v) || lo <= v < hi
    requires forall v: nat :: lo <= v < hi ==> !InLayout(l0, v)
    ensures MapsExactly(m1, root, l1) && Preserved(m0, f0, l0, m1, f1, l1, root)
    ensures NewAreZero(l0, m1, f1, l1, root, perm)
  {
    hide Pte, InLayout, Content, Flags, IsValid, User, WithValid, ZeroPage;
    forall v: nat | v < VPNS
      ensures if InLayout(l1, v) then UserPage(m1, root, v)
              else if v >= STACK_TOP then IsValid(Pte(m1, root, v)) && !User(Pte(m1, root, v))
              else !IsValid(Pte(m1, root, v))
    {
      assert InLayout(l1, v) <==> InLayout(l0, v) || lo <= v < hi;
      if !(lo <= v < hi) { assert Pte(m1, root, v) == Pte(m0, root, v); }
    }
    forall w: nat | w < VPNS && InLayout(l1, w) && !InLayout(l0, w)
      ensures Flags(Pte(m1, root, w)) == WithValid(perm) && Content(m1, f1, root, w) == ZeroPage()
    {
      assert lo <= w < hi;
    }
    forall w: nat | w < VPNS && InLayout(l0, w) ensures !(lo <= w < hi) {}
  }

  /** Unmapping pages shrinks the layout. */
  lemma ShrinkLayout(m0: Mem, f: map<nat, Page>, l0: Layout, m1: Mem, l1: Layout, root: nat, lo: nat, n: nat)
    requires MapsExactly(m0, root, l0) && Unmapped(m0, m1, root, lo, n) && lo + n <= STACK_TOP
    requires forall v: nat :: InLayout(l1, v) <==> InLayout(l0, v) && !(lo <= v < lo + n)
    ensures MapsExactly(m1, root, l1) && Preserved(m0, f, l0, m1, f, l1, root)
    ensures forall perm: nat :: NewAreZero(l0, m1, f, l1, root, perm)
  {
    hide Pte, InLayout, Flags, IsValid, User, Content;
    OwnZero();
    forall v: nat | v < VPNS
      ensures if InLayout(l1, v) then UserPage(m1, root, v)
              else if v >= STACK_TOP then IsValid(Pte(m1, root, v)) && !User(Pte(m1, root, v))
              else !IsValid(Pte(m1, root, v))
    {
      assert InLayout(l1, v) <==> InLayout(l0, v) && !(lo <= v < lo + n);
      assert Pte(m1, root, v) == Pte(m0, root, v) || (lo <= v < lo + n && !IsValid(Pte(m1, root, v)));
    }
    forall q: nat, w: nat | w < VPNS && (q != root || (InLayout(l0, w) && InLayout(l1, w)))
      ensures Pte(m1, q, w) == Pte(m0, q, w) && Content(m1, f, q, w) == Content(m0, f, q, w)
    {
      SameContent(m0, m1, f, q, w);
    }
  }

  lemma SameContent(m: Mem, g: Mem, f: map<nat, Page>, q: nat, w: nat)
    ensures Pte(g, q, w) == Pte(m, q, w) ==> Content(g, f, q, w) == Content(m, f, q, w)
  {
    hide Pte;
  }

  // Which ranges the operations change

  lemma HeapUp(l: Layout, heapEnd: nat)
    requires LayoutOk(l) && l.heapEnd <= heapEnd <= BOTTOM
    ensures LayoutOk(l.(heapEnd := heapEnd)) && heapEnd <= STACK_TOP
    ensures forall v: nat :: InLayout(l.(heapEnd := heapEnd), v) <==> InLayout(l, v) || l.heapEnd <= v < heapEnd
    ensures forall v: nat :: l.heapEnd <= v < heapEnd ==> !InLayout(l, v)
  {
    AreaBounds();
    forall v: nat | Covers(l.spans, v) ensures BOTTOM <= v { CoveredInArea(l.spans, v); }
  }

  lemma HeapDown(l: Layout, heapEnd: nat)
    requires LayoutOk(l) && 2 <= heapEnd <= l.heapEnd
    ensures LayoutOk(l.(heapEnd := heapEnd)) && l.heapEnd <= STACK_TOP
    ensures forall v: nat :: InLayout(l.(heapEnd := heapEnd), v) <==> InLayout(l, v) && !(heapEnd <= v < l.heapEnd)
  {
    AreaBounds();
    forall v: nat | Covers(l.spans, v) ensures BOTTOM <= v { CoveredInArea(l.spans, v); }
  }

  lemma StackUp(l: Layout, stack: nat)
    requires LayoutOk(l) && l.stack <= stack <= STACK_TOP - TOP
    ensures LayoutOk(l.(stack := stack))
    ensures forall v: nat :: InLayout(l.(stack := stack), v) <==>
              InLayout(l, v) || STACK_TOP - stack <= v < STACK_TOP - l.stack
    ensures forall v: nat :: STACK_TOP - stack <= v < STACK_TOP - l.stack ==> !InLayout(l, v)
  {
    AreaBounds();
    forall v: nat | Covers(l.spans, v) ensures v < TOP { CoveredInArea(l.spans, v); }
  }

  lemma CoveredInArea(spans: seq<Span>, v: nat)
    requires Canonical(spans, BOTTOM, TOP) && Covers(spans, v)
    ensures BOTTOM <= v < TOP
  {}

  /** Pages outside the layout own nothing. */
  lemma CleanOutside(m: Mem, root: nat, l: Layout, lo: nat, hi: nat)
    requires MapsExactly(m, root, l) && lo <= hi <= STACK_TOP && forall v: nat :: lo <= v < hi ==> !InLayout(l, v)
    ensures Clean(m, root, lo, hi - lo)
  {
    hide Pte, InLayout, User, Pa, Inner;
  }

  lemma UserHeap(m: Mem, root: nat, l: Layout, v: nat, n: nat)
    requires MapsExactly(m, root, l) && v + n <= STACK_TOP
    ensures UserRange(m, root, v, n)
  {
    hide Pte, InLayout, IsValid, User;
  }

  /** User code may read and write the bytes of new pages as asked, and finds them zero. */
  ghost predicate NewAreUsable(l0: Layout, m: Mem, f: map<nat, Page>, l1: Layout, root: nat, read: bool, write: bool) {
    forall a: nat
      {:trigger UserByte(m, f, root, a)} {:trigger Can(m, root, a, true)} {:trigger Can(m, root, a, false)} ::
      a < VA_MAX && InLayout(l1, a / PGSIZE) && !InLayout(l0, a / PGSIZE) ==>
        Can(m, root, a, false) == read && Can(m, root, a, true) == write && UserByte(m, f, root, a) == 0
  }

  lemma NewUsable(l0: Layout, m: Mem, f: map<nat, Page>, l1: Layout, root: nat, perm: nat)
    requires NewAreZero(l0, m, f, l1, root, perm) && MapsExactly(m, root, l1) && LeafPerm(perm)
    ensures NewAreUsable(l0, m, f, l1, root, perm / 2 % 2 == 1, perm / 4 % 2 == 1)
  {
    hide Pte, InLayout, Pa, LeafPerm;
    forall a: nat | a < VA_MAX && InLayout(l1, a / PGSIZE) && !InLayout(l0, a / PGSIZE)
      ensures Can(m, root, a, false) == (perm / 2 % 2 == 1) && Can(m, root, a, true) == (perm / 4 % 2 == 1)
      ensures UserByte(m, f, root, a) == 0
    {
      PageBelow(a);
      assert Flags(Pte(m, root, a / PGSIZE)) == WithValid(perm) && Content(m, f, root, a / PGSIZE) == ZeroPage();
      PermBits(perm);
    }
  }

  lemma PermBits(perm: nat)
    ensures WithValid(perm) / 2 % 2 == perm / 2 % 2 && WithValid(perm) / 4 % 2 == perm / 4 % 2
  {
    assert WithValid(perm) / 2 == perm / 2 && WithValid(perm) / 4 == perm / 4;
  }

  lemma RwuBits()
    ensures RWU / 2 % 2 == 1 && RWU / 4 % 2 == 1
  {}

  /** User code reaches the pages of the layout and no others: not the trampoline, not the trapframe. */
  lemma OnlyLayout(m: Mem, root: nat, l: Layout, a: nat, write: bool)
    requires MapsExactly(m, root, l) && Can(m, root, a, write)
    ensures InLayout(l, a / PGSIZE)
  {
    hide Pte, InLayout;
    PageBelow(a);
  }

  function BrkTop(top: nat, addr: nat): nat {
    if addr > top then top + (addr - top) % U32
    else if addr < top && addr >= USER_BASE + PGSIZE then top - (top - addr) % U32
    else top
  }

  /** The heap top stays between the code page and the mmap area. */
  lemma BrkBounds(top: nat, addr: nat)
    requires 2 * PGSIZE <= top <= MMAP_BEGIN && addr <= MMAP_BEGIN
    ensures 2 * PGSIZE <= BrkTop(top, addr) <= MMAP_BEGIN
    ensures addr > top ==> Count(top) <= Count(BrkTop(top, addr)) <= BOTTOM
    ensures addr <= top ==> 2 <= Count(BrkTop(top, addr)) <= Count(top) <= BOTTOM
  {
    AreaBounds();
    var t := BrkTop(top, addr);
    assert addr > top ==> (addr - top) % U32 <= addr - top;
    assert addr <= top ==> (top - addr) % U32 <= top - addr;
  }

  /** The top moves to the address asked for, up to multiples of 2^32, and never the other way. */
  lemma BrkMeets(top: nat, addr: nat)
    ensures BrkMoved(top, addr, BrkTop(top, addr))
  {
    if addr > top {
      var d := addr - top;
      assert addr - (top + d % U32) == U32 * (d / U32);
    } else if addr < top && addr >= USER_BASE + PGSIZE {
      var d := top - addr;
      assert (top - d % U32) - addr == U32 * (d / U32);
    }
  }

  /** What brk promises of the new top. */
  predicate BrkMoved(top: nat, addr: nat, now: int) {
    && (addr > top ==> top <= now < top + U32 && (addr - now) % U32 == 0)
    && (2 * PGSIZE <= addr <= top ==> top - U32 < now <= top && (addr - now) % U32 == 0)
    && (addr < 2 * PGSIZE && addr <= top ==> now == top)
    && (addr >= 2 * PGSIZE && addr - U32 < top < addr + U32 ==> now == addr)
  }

  /** Below the mmap area a page is in the layout exactly when it is behind page 0 and begins below the heap top. */
  lemma HeapPages(l: Layout, top: nat, v: nat)
    requires LayoutOk(l) && l.heapEnd == Count(top) && v < BOTTOM
    ensures InLayout(l, v) <==> 1 <= v && v * PGSIZE < top
  {
    hide Count;
    CountIs(top, v);
    AreaBounds();
  }

  lemma UngrowAt(top: nat, bytes: nat)
    requires bytes < top && 2 * PGSIZE <= top - bytes
    ensures UngrowFrom(top, bytes) == Count(top - bytes) <= Count(top)
  {}

  /** The memory fields of proc_t. */
  class AddressSpace {
    const vm: Vm
    const regions: RegionList
    var pgtbl: nat
    var heapTop: nat
    var ustackPages: nat

    constructor (vm: Vm, regions: RegionList, pgtbl: nat, heapTop: nat, ustackPages: nat)
      ensures this.vm == vm && this.regions == regions && this.pgtbl == pgtbl && this.heapTop == heapTop
      ensures this.ustackPages == ustackPages
    {
      this.vm, this.regions, this.pgtbl, this.heapTop, this.ustackPages := vm, regions, pgtbl, heapTop, ustackPages;
    }

    ghost function Plan(): Layout
      reads this, regions
    {
      Layout(Count(heapTop), ustackPages, regions.spans)
    }

    ghost predicate Valid()
      reads this, vm, vm.kpool, vm.upool, regions, regions.nodes, regions.pool, regions.pool.free
    {
      && vm.Valid() && regions.Valid() && pgtbl in vm.roots
      && Bounds()
      && MapsExactly(vm.View(), pgtbl, Plan())
    }

    ghost predicate Bounds()
      reads this
    {
      2 * PGSIZE <= heapTop <= MMAP_BEGIN && ustackPages <= STACK_TOP - TOP
    }

    lemma PlanOk()
      requires Valid()
      ensures LayoutOk(Plan())
    {
      hide Vm.Valid, MapsExactly, Canonical, RegionList.Linked;
      AreaBounds();
    }

    /** sys_brk: the heap ends at the new top; panics (not ok) when a pool is empty. */
    method Brk(addr: nat) returns (ok: bool)
      requires Valid() && addr <= MMAP_BEGIN
      modifies this`heapTop, vm, vm.kpool, vm.upool
      ensures ok ==> Valid() && heapTop == BrkTop(old(heapTop), addr)
      // the address asked for, when it is less than 2^32 away; the old top for an address below the heap
      ensures ok ==> BrkMoved(old(heapTop), addr, heapTop)
      ensures !ok ==> addr > old(heapTop) && NoMemory(vm)
      ensures ok <==> addr <= old(heapTop) ||
                      Affords(old(vm.View()), old(vm.kpool.free), old(vm.upool.free), pgtbl,
                          Pages(Count(old(heapTop)), Count(BrkTop(old(heapTop), addr))))
      ensures ok ==> Preserved(old(vm.View()), old(vm.frames), old(Plan()), vm.View(), vm.frames, Plan(), pgtbl)
      ensures ok ==> NewAreZero(old(Plan()), vm.View(), vm.frames, Plan(), pgtbl, RWU)
      ensures ok ==> NewAreUsable(old(Plan()), vm.View(), vm.frames, Plan(), pgtbl, true, true)
      ensures ok ==> vm.Books(pgtbl) == old(vm.Books(pgtbl))
    {
      hide Vm.Valid, Vm.View, MapsExactly, Preserved, NewAreZero, Laid, InLayout, LayoutOk, RegionList.Valid, Count,
           Vm.Books, Clean, Unmapped, UserRange, UngrowFrom, Affords, Pages, NewAreUsable, BrkMoved;
      RwuPerm();
      RwuBits();
      BrkMeets(heapTop, addr);
      var top := heapTop;
      ghost var m0, f0, l0 := vm.View(), vm.frames, Plan();
      PlanOk();
      BrkBounds(top, addr);
      ghost var heapEnd := Count(BrkTop(top, addr));
      if addr > top {
        HeapUp(l0, heapEnd);
        CleanOutside(m0, pgtbl, l0, l0.heapEnd, heapEnd);
        heapTop, ok := HeapGrow(vm, pgtbl, top, (addr - top) % U32);
        if ok { GrowLayout(m0, f0, l0, vm.View(), vm.frames, Plan(), pgtbl, l0.heapEnd, heapEnd, RWU); }
      } else {
        HeapDown(l0, heapEnd);
        UnmappedNone(m0, pgtbl, heapEnd);
        if addr < top && addr >= USER_BASE + PGSIZE {
          UngrowAt(top, (top - addr) % U32);
          UserHeap(m0, pgtbl, l0, heapEnd, l0.heapEnd - heapEnd);
          heapTop := HeapUngrow(vm, pgtbl, top, (top - addr) % U32);
        }
        ShrinkLayout(m0, f0, l0, vm.View(), Plan(), pgtbl, heapEnd, l0.heapEnd - heapEnd);
        ok := true;
      }
      if ok { NewUsable(l0, vm.View(), vm.frames, Plan(), pgtbl, RWU); }
    }

    /** The page-fault handler's use of uvm_ustack_grow: -1 outside the stack area, and else the page of the
        faulting address is there afterwards; panics (not ok) when a pool is empty. */
    method GrowStack(fault: nat) returns (r: int, ok: bool)
      requires Valid()
      modifies this`ustackPages, vm, vm.kpool, vm.upool
      ensures ok ==> Valid()
      ensures !ok ==> NoMemory(vm)
      ensures MMAP_END <= fault < TRAPFRAME ==>
                (ok <==> Affords(old(vm.View()), old(vm.kpool.free), old(vm.upool.free), pgtbl,
                        Pages(fault / PGSIZE, old(STACK_TOP - ustackPages))))
      ensures fault >= TRAPFRAME || fault < MMAP_END ==> ok && r == -1 && ustackPages == old(ustackPages)
      ensures MMAP_END <= fault < TRAPFRAME && ok ==>
                ustackPages == r == MaxOf(old(ustackPages), STACK_TOP - fault / PGSIZE)
      // the stack grows down to the page of the fault and no further, and is never cut back
      ensures ok ==> ustackPages >= old(ustackPages)
      ensures ok && ustackPages > old(ustackPages) ==> STACK_TOP - ustackPages == fault / PGSIZE
      ensures MMAP_END <= fault < TRAPFRAME && ok ==> InLayout(Plan(), fault / PGSIZE)
      ensures ok ==> Preserved(old(vm.View()), old(vm.frames), old(Plan()), vm.View(), vm.frames, Plan(), pgtbl)
      ensures ok ==> NewAreZero(old(Plan()), vm.View(), vm.frames, Plan(), pgtbl, RWU)
      ensures ok ==> NewAreUsable(old(Plan()), vm.View(), vm.frames, Plan(), pgtbl, true, true)
      ensures ok ==> vm.Books(pgtbl) == old(vm.Books(pgtbl))
    {
      hide Vm.Valid, Vm.View, MapsExactly, Preserved, NewAreZero, Laid, InLayout, LayoutOk, RegionList.Valid, Count,
           Vm.Books, Clean, NoMemory, Affords, Pages, NewAreUsable;
      RwuPerm();
      RwuBits();
      ghost var m0, f0, l0 := vm.View(), vm.frames, Plan();
      PlanOk();
      StackRange(fault);
      Unchanged(m0, f0, l0, pgtbl, RWU);
      r, ok := StackGrow(vm, pgtbl, ustackPages, fault, MMAP_END);
      if ok && r >= 0 {
        ustackPages := r;
        StackUp(l0, r);
        CleanOutside(m0, pgtbl, l0, STACK_TOP - r, STACK_TOP - l0.stack);
        GrowLayout(m0, f0, l0, vm.View(), vm.frames, Plan(), pgtbl, STACK_TOP - r, STACK_TOP - l0.stack, RWU);
        StackPage(Plan(), fault);
      }
      if ok { NewUsable(l0, vm.View(), vm.frames, Plan(), pgtbl, RWU); }
    }

    /** uvm_mmap: maps zeroed pages at a free place of the area, the lowest one when no start is given;
        panics (not ok) when there is no such place, or no memory. */
    method Mmap(start: nat, npages: nat, perm: nat) returns (addr: nat, ok: bool)
      requires Valid() && 0 < npages && npages * PGSIZE < U32 && start % PGSIZE == 0 && LeafPerm(perm) && UserPerm(perm)
      modifies regions, regions.nodes, regions.pool, regions.pool.free, vm, vm.kpool, vm.upool
      ensures ok ==> Valid() && regions.Stock() == old(regions.Stock())
      ensures !NoPlace(old(regions.spans), start, npages) && old(regions.pool.free) != [] ==>
                && addr % PGSIZE == 0 && Spans.Free(old(regions.spans), addr / PGSIZE, npages)
                && (if start != 0 then addr == start
                    else NoneFree(old(regions.spans), npages, BOTTOM, addr / PGSIZE))
      ensures ok ==>
                forall v: nat :: Covers(regions.spans, v) <==>
                    Covers(old(regions.spans), v) || addr / PGSIZE <= v < addr / PGSIZE + npages
      ensures ok ==> Preserved(old(vm.View()), old(vm.frames), old(Plan()), vm.View(), vm.frames, Plan(), pgtbl)
      ensures ok ==> NewAreZero(old(Plan()), vm.View(), vm.frames, Plan(), pgtbl, perm)
      // bit 1 of `perm` lets user code read the pages, and bit 2 write them
      ensures ok ==>
                NewAreUsable(old(Plan()), vm.View(), vm.frames, Plan(), pgtbl, perm / 2 % 2 == 1, perm / 4 % 2 == 1)
      ensures !ok ==> NoPlace(old(regions.spans), start, npages) || old(regions.pool.free) == [] || NoMemory(vm)
      // it succeeds exactly when there is a place, a region node, a frame for each page and the tables for them
      ensures ok <==>
                && !NoPlace(old(regions.spans), start, npages) && old(regions.pool.free) != []
                && Affords(old(vm.View()), old(vm.kpool.free), old(vm.upool.free), pgtbl,
                       Pages(addr / PGSIZE, addr / PGSIZE + npages))
      ensures ok ==> vm.Books(pgtbl) == old(vm.Books(pgtbl))
    {
      hide Vm.Valid, Vm.View, MapsExactly, Preserved, NewAreZero, Laid, InLayout, LayoutOk, Canonical, RegionList.Valid,
           Count, NoMemory, NoneFree, Spans.Free, Spans.Fits, Covers, RegionList.Stock, RegionPool.Valid, LeafPerm,
           UserPerm, NoPlace, Added, Affords, Pages, NewAreUsable, Vm.Books, Clean;
      ghost var m0, f0, l0 := vm.View(), vm.frames, Plan();
      PlanOk();
      var prev: Region?;
      ghost var first, i;
      prev, addr, ok, first, i := Choose(start, npages);
      if !ok { return 0, false; }
      ok := regions.Add(prev, addr, npages, i, first);
      if !ok { return 0, false; }
      MmapUp(l0, Plan(), i, first, npages);
      CleanOutside(m0, pgtbl, l0, first, first + npages);
      ok := LayRange(vm, pgtbl, addr, npages, perm, first);
      if ok {
        GrowLayout(m0, f0, l0, vm.View(), vm.frames, Plan(), pgtbl, first, first + npages, perm);
        NewUsable(l0, vm.View(), vm.frames, Plan(), pgtbl, perm);
      }
    }

    /** Step 1 of uvm_mmap: where to map. */
    method Choose(start: nat, npages: nat) returns (prev: Region?, addr: nat, ok: bool, ghost first: nat, ghost i: nat)
      requires regions.Valid() && 0 < npages && npages * PGSIZE < U32 && start % PGSIZE == 0
      ensures ok <==> !NoPlace(regions.spans, start, npages)
      ensures ok ==> addr == first * PGSIZE && Spans.Fits(regions.spans, i, Span(first, npages), BOTTOM, TOP)
      ensures ok ==> i <= |regions.nodes| && prev == regions.Before(i)
      ensures ok && start != 0 ==> addr == start
      ensures ok && start == 0 ==> NoneFree(regions.spans, npages, BOTTOM, first)
    {
      hide NoneFree, Spans.Free, Spans.Fits, RegionList.Valid;
      prev, addr, ok, first, i := null, 0, true, 0, 0;
      if start == 0 {
        addr, prev, first, i := regions.FindFree(npages);
        if addr == 0 { ok := false; }
      } else {
        addr := start;
        first := start / PGSIZE;
        prev, ok, i := regions.Place(start, npages);
      }
    }

    /** Midway through uvm_munmap of pages `lo` to `hi`: the first `j` regions of layout `l0` are cut, their
        pages in the range unmapped, and each of their frames given back once. */
    ghost predicate Cutting(m0: Mem, f0: map<nat, Page>, l0: Layout, ufree0: seq<nat>, stock0: set<Region>, j: nat,
                            i: nat, lo: nat, hi: nat)
      reads this, vm, vm.kpool, vm.upool, regions, regions.nodes, regions.pool, regions.pool.free
    {
      && vm.Valid() && regions.Linked() && pgtbl in vm.roots && regions.Stock() == stock0
      && j <= |l0.spans| && i == |Cut(l0.spans[..j], lo, hi)|
      && Plan() == CutLayout(l0, j, lo, hi)
      && TableCut(m0, f0, l0, ufree0, j, lo, hi, pgtbl, vm.View(), vm.frames, vm.upool.free)
    }

    /** In a round of uvm_munmap, between unmapping the overlap and updating the list. */
    ghost predicate HalfCut(m0: Mem, f0: map<nat, Page>, l0: Layout, ufree0: seq<nat>, stock0: set<Region>, j: nat,
                            i: nat, lo: nat, hi: nat, m1: Mem)
      requires j < |l0.spans|
      reads this, vm, vm.kpool, vm.upool, regions, regions.nodes, regions.pool, regions.pool.free
    {
      && vm.Valid() && regions.Linked() && pgtbl in vm.roots && regions.Stock() == stock0
      && i == |Cut(l0.spans[..j], lo, hi)|
      && Plan() == CutLayout(l0, j, lo, hi)
      && TableHalfCut(m0, f0, l0, ufree0, j, lo, hi, pgtbl, m1, vm.View(), vm.frames, vm.upool.free)
    }

    /** The page-table part of one round of uvm_munmap. */
    method UnmapOverlap(walker: Region, start: nat, unmapEnd: nat, ghost m0: Mem, ghost f0: map<nat, Page>,
                        ghost l0: Layout, ghost ufree0: seq<nat>, ghost stock0: set<Region>, ghost j: nat, ghost i: nat,
                        ghost lo: nat, ghost hi: nat)
      requires Cutting(m0, f0, l0, ufree0, stock0, j, i, lo, hi) && LayoutOk(l0)
      requires j < |l0.spans| && i < |regions.nodes| && walker == regions.nodes[i]
      requires start == lo * PGSIZE && unmapEnd == hi * PGSIZE && lo < hi && lo < End(l0.spans[j])
      requires l0.spans[j].first < hi
      modifies vm`tables, vm`owner, vm.upool
      ensures HalfCut(m0, f0, l0, ufree0, stock0, j, i, lo, hi, old(vm.View()))
      ensures vm.Books(pgtbl) == old(vm.Books(pgtbl))
    {
      hide Vm.Books, Vm.Valid, Vm.View, MapsExactly, Preserved, Unmapped, UserRange, FramesOf, FreedBy, InLayout,
           LayoutOk, Canonical, RegionList.Linked, RegionList.Stock, Cut, CutOne, Count, Cutting;
      CuttingParts(m0, f0, l0, ufree0, stock0, j, i, lo, hi);
      CutFacts(l0, Plan(), j, i, lo, hi);
      regions.LinkAt(i);
      var regionEnd := walker.begin + walker.npages * PGSIZE;
      var overlapStart := if start > walker.begin then start else walker.begin;
      var overlapEnd := if unmapEnd < regionEnd then unmapEnd else regionEnd;
      var overlapLen := overlapEnd - overlapStart;
      ghost var from, n := OverlapFrom(l0.spans[j], lo), OverlapCount(l0.spans[j], lo, hi);
      assert overlapStart == from * PGSIZE && overlapLen == n * PGSIZE;
      PageNum(from);
      CountOf(n);
      UserHeap(vm.View(), pgtbl, Plan(), from, n);
      FramesSame(m0, f0, l0, vm.View(), vm.frames, Plan(), pgtbl, from, n, l0.spans[j]);
      var done := vm.UnmapPages(pgtbl, overlapStart, overlapLen, true);
    }

    /** The list part of one round of uvm_munmap. */
    method CutList(prev: Region?, walker: Region, start: nat, unmapEnd: nat, ghost m0: Mem, ghost f0: map<nat, Page>,
                   ghost l0: Layout, ghost ufree0: seq<nat>, ghost stock0: set<Region>, ghost j: nat, ghost i: nat,
                   ghost lo: nat, ghost hi: nat, ghost m1: Mem)
        returns (prevOut: Region?, next: Region?, stop: bool, ok: bool, ghost k: nat)
      requires j < |l0.spans| && HalfCut(m0, f0, l0, ufree0, stock0, j, i, lo, hi, m1) && LayoutOk(l0)
      requires i < |regions.nodes| && walker == regions.nodes[i] && prev == regions.Before(i)
      requires start == lo * PGSIZE && unmapEnd == hi * PGSIZE && lo < hi && lo < End(l0.spans[j])
      requires l0.spans[j].first < hi
      modifies regions, regions.pool, regions.Stock()
      ensures ok ==> Cutting(m0, f0, l0, ufree0, stock0, j + 1, k, lo, hi)
      ensures ok && !stop ==>
                k <= |regions.nodes| && prevOut == regions.Before(k) && next == After(regions.nodes, k - 1)
      ensures stop ==> hi < End(l0.spans[j])
      ensures ok <==> !(Splits(l0.spans[j], lo, hi) && old(regions.pool.free) == [])
      ensures vm.Books(pgtbl) == old(vm.Books(pgtbl))
    {
      hide Vm.Books, Vm.Valid, Vm.View, TableCut, TableHalfCut, LayoutOk, Canonical, RegionList.Linked,
           RegionList.Stock, Cut, CutOne, CutLayout, Splits;
      CutFacts(l0, Plan(), j, i, lo, hi);
      CutLayoutNext(l0, j, i, lo, hi);
      prevOut, next, stop, ok, k := regions.CutAt(prev, walker, start, unmapEnd, i, lo, hi);
      if ok { TableStep(m0, f0, l0, ufree0, j, i, lo, hi, pgtbl, m1, vm.View(), vm.frames, vm.upool.free); }
    }

    /** The loop of uvm_munmap over the regions, for a range within the area. */
    method CutRange(start: nat, npages: nat) returns (ok: bool)
      requires Valid() && 0 < npages && npages * PGSIZE < U32 && start % PGSIZE == 0
      requires MMAP_BEGIN <= start && start + npages * PGSIZE <= MMAP_END
      modifies regions, regions.pool, regions.Stock(), vm`tables, vm`owner, vm.upool
      ensures ok ==> Valid() && regions.Stock() == old(regions.Stock())
      ensures ok ==>
                forall v: nat :: Covers(regions.spans, v) <==>
                    Covers(old(regions.spans), v) && !(start / PGSIZE <= v < start / PGSIZE + npages)
      ensures ok ==> Preserved(old(vm.View()), old(vm.frames), old(Plan()), vm.View(), vm.frames, Plan(), pgtbl)
      ensures ok ==>
                vm.upool.free == FreedBy(old(vm.View()), pgtbl, old(regions.spans), start / PGSIZE, start / PGSIZE +
                    npages) + old(vm.upool.free)
      ensures ok <==>
                SomeSplits(old(regions.spans), start / PGSIZE, start / PGSIZE + npages) ==> old(regions.pool.free) != []
      ensures vm.Books(pgtbl) == old(vm.Books(pgtbl))
    {
      hide Vm.Books, Splits, Vm.Valid, Vm.View, MapsExactly, Preserved, FreedBy, InLayout, LayoutOk, Canonical,
           RegionList.Linked, RegionList.Stock, Cut, Cutting, Covers, Behind, RegionList.Valid, HalfCut;
      var unmapEnd := start + npages * PGSIZE;
      ghost var m0, f0, l0, ufree0, stock0 := vm.View(), vm.frames, Plan(), vm.upool.free, regions.Stock();
      ghost var lo, hi, i, j := start / PGSIZE, start / PGSIZE + npages, 0, 0;
      PlanOk();
      CuttingStart(lo, hi);
      NoneBefore(l0.spans, lo, hi);
      var walker: Region?, prev: Region? := regions.head, null;
      ghost var passed := false;
      ghost var nodes0 := regions.pool.free;
      while walker != null
        invariant 0 <= i && 0 <= j && Cutting(m0, f0, l0, ufree0, stock0, j, i, lo, hi) && !passed
        invariant i <= |regions.nodes| && prev == regions.Before(i) && walker == After(regions.nodes, i - 1)
        invariant AllBefore(l0.spans, j, lo) ==> regions.pool.free == nodes0
        invariant nodes0 == [] ==> NoSplit(l0.spans, j, lo, hi)
        invariant vm.Books(pgtbl) == old(vm.Books(pgtbl))
        decreases |l0.spans| - j
      {
        WalkerAt(m0, f0, l0, ufree0, stock0, j, i, lo, hi);
        var regionEnd := walker.begin + walker.npages * PGSIZE;
        if unmapEnd <= walker.begin {
          passed := true;
          RestBehind(l0, j, hi);
          break;
        }
        if start >= regionEnd {
          Skip(m0, f0, l0, ufree0, stock0, j, i, lo, hi);
          SkippedBefore(l0.spans, j, lo, hi);
          prev := walker;
          walker := walker.next;
          i, j := i + 1, j + 1;
        } else {
          ghost var m1 := vm.View();
          UnmapOverlap(walker, start, unmapEnd, m0, f0, l0, ufree0, stock0, j, i, lo, hi);
          var stop;
          StockSame(m0, f0, l0, ufree0, stock0, j, i, lo, hi, m1);
          prev, walker, stop, ok, i := CutList(prev, walker, start, unmapEnd, m0, f0, l0, ufree0, stock0, j, i, lo, hi,
              m1);
          CutOnce(l0, j, lo, hi);
          if !ok { return false; }
          j := j + 1;
          if stop {
            passed := true;
            RestAfter(l0, j, hi);
            break;
          }
        }
      }
      if !passed { AllWalked(m0, f0, l0, ufree0, stock0, j, i, lo, hi); }
      CuttingEnd(m0, f0, l0, ufree0, stock0, j, i, lo, hi);
      NoSplitAtAll(l0.spans, j, lo, hi);
      return true;
    }

    /** uvm_munmap: takes exactly the pages of the range out of the regions and of the page table, and gives
        each of their frames back once; panics (not ok) exactly on a bad range, or when a region must be split and no
        region node is left. The end of the range is computed in 64 bits; one that wraps around is not noticed, and
        nothing is unmapped. */
    method Munmap(start: nat, npages: nat) returns (ok: bool)
      requires Valid() && 0 < npages && npages * PGSIZE < U32 && start % PGSIZE == 0 && start < U64
      modifies regions, regions.pool, regions.Stock(), vm`tables, vm`owner, vm.upool
      ensures ok ==> Valid() && regions.Stock() == old(regions.Stock())
      ensures ok ==>
                forall v: nat :: Covers(regions.spans, v) <==>
                    Covers(old(regions.spans), v) && !(start / PGSIZE <= v < start / PGSIZE + npages)
      ensures ok ==> Preserved(old(vm.View()), old(vm.frames), old(Plan()), vm.View(), vm.frames, Plan(), pgtbl)
      ensures ok ==>
                vm.upool.free == FreedBy(old(vm.View()), pgtbl, old(regions.spans), start / PGSIZE, start / PGSIZE +
                    npages) + old(vm.upool.free)
      ensures ok <==>
                && MMAP_BEGIN <= start && Wrap(start + npages * PGSIZE) <= MMAP_END
                && (SomeSplits(old(regions.spans), start / PGSIZE, start / PGSIZE + npages) ==>
                    old(regions.pool.free) != [])
      // no page is lost or gained, in this table or any other
      ensures vm.Books(pgtbl) == old(vm.Books(pgtbl))
    {
      hide Vm.Books, Vm.Valid, Vm.View, MapsExactly, Preserved, FreedBy, RegionList.Linked, RegionList.Stock, Covers,
           RegionList.Valid, SomeSplits, Wrap, Canonical, Behind, LayoutOk;
      PlanOk();
      WrapEnd(start, npages);
      FirstRegion();
      var unmapEnd := Wrap(start + npages * PGSIZE);
      if start < MMAP_BEGIN || unmapEnd > MMAP_END { return false; }
      if regions.head == null || unmapEnd <= regions.head.begin {
        Outside(Plan(), start, npages);
        NothingCut(vm.View(), pgtbl, Plan(), start / PGSIZE, start / PGSIZE + npages);
        Unchanged(vm.View(), vm.frames, Plan(), pgtbl, 0);
        return true;
      }
      ok := CutRange(start, npages);
    }

    /** Where the first region begins. */
    lemma FirstRegion()
      requires Valid()
      ensures regions.head == null <==> regions.spans == []
      ensures regions.head != null ==>
                regions.head.begin == regions.spans[0].first * PGSIZE && MMAP_BEGIN <= regions.head.begin <= MMAP_END
    {
      hide Vm.Valid, MapsExactly;
      AreaBounds();
      if regions.nodes != [] { regions.LinkAt(0); }
    }

    lemma CuttingParts(m0: Mem, f0: map<nat, Page>, l0: Layout, ufree0: seq<nat>, stock0: set<Region>, j: nat, i: nat,
                       lo: nat, hi: nat)
      requires Cutting(m0, f0, l0, ufree0, stock0, j, i, lo, hi)
      ensures vm.Valid() && regions.Linked() && pgtbl in vm.roots && regions.Stock() == stock0
      ensures j <= |l0.spans| && i == |Cut(l0.spans[..j], lo, hi)|
      ensures Plan() == CutLayout(l0, j, lo, hi)
      ensures MapsExactly(vm.View(), pgtbl, Plan()) && Preserved(m0, f0, l0, vm.View(), vm.frames, Plan(), pgtbl)
      ensures vm.upool.free == FreedBy(m0, pgtbl, l0.spans[..j], lo, hi) + ufree0
    {
      hide Vm.Valid, Vm.View, MapsExactly, Preserved, FreedBy, RegionList.Linked, RegionList.Stock, Cut;
    }

    lemma StockSame(m0: Mem, f0: map<nat, Page>, l0: Layout, ufree0: seq<nat>, stock0: set<Region>, j: nat, i: nat,
                    lo: nat, hi: nat, m1: Mem)
      requires j < |l0.spans| && HalfCut(m0, f0, l0, ufree0, stock0, j, i, lo, hi, m1)
      ensures regions.Stock() == stock0
    {}

    /** What the walker points to. */
    lemma WalkerAt(m0: Mem, f0: map<nat, Page>, l0: Layout, ufree0: seq<nat>, stock0: set<Region>, j: nat, i: nat,
                   lo: nat, hi: nat)
      requires Cutting(m0, f0, l0, ufree0, stock0, j, i, lo, hi) && i < |regions.nodes|
      ensures j < |l0.spans| && regions.nodes[i].next == After(regions.nodes, i)
      ensures regions.nodes[i].begin == l0.spans[j].first * PGSIZE && regions.nodes[i].npages == l0.spans[j].n
    {
      hide Vm.Valid, Vm.View, MapsExactly, Preserved, FreedBy, RegionList.Linked, RegionList.Stock, Cut;
      regions.LinkAt(i);
    }

    /** A region before the range stays as it is. */
    lemma Skip(m0: Mem, f0: map<nat, Page>, l0: Layout, ufree0: seq<nat>, stock0: set<Region>, j: nat, i: nat, lo: nat,
               hi: nat)
      requires Cutting(m0, f0, l0, ufree0, stock0, j, i, lo, hi) && i < |regions.nodes| && j < |l0.spans|
      requires End(l0.spans[j]) <= lo
      ensures Cutting(m0, f0, l0, ufree0, stock0, j + 1, i + 1, lo, hi)
    {
      hide Vm.Valid, Vm.View, MapsExactly, Preserved, FreedBy, RegionList.Linked, RegionList.Stock, Cut;
      CutSplit(l0.spans, j, i, lo, hi);
      FreedByNext(m0, pgtbl, l0.spans, j, lo, hi);
      assert FramesOf(m0, pgtbl, OverlapFrom(l0.spans[j], lo), OverlapCount(l0.spans[j], lo, hi)) == [];
      assert [] + FreedBy(m0, pgtbl, l0.spans[..j], lo, hi) == FreedBy(m0, pgtbl, l0.spans[..j], lo, hi);
    }

    lemma AllWalked(m0: Mem, f0: map<nat, Page>, l0: Layout, ufree0: seq<nat>, stock0: set<Region>, j: nat, i: nat,
                    lo: nat, hi: nat)
      requires Cutting(m0, f0, l0, ufree0, stock0, j, i, lo, hi) && i >= |regions.nodes|
      ensures Behind(l0.spans, j, hi)
    {
      hide Vm.Valid, Vm.View, MapsExactly, Preserved, FreedBy, RegionList.Stock, Cut;
    }

    /** After the last round. */
    lemma CuttingEnd(m0: Mem, f0: map<nat, Page>, l0: Layout, ufree0: seq<nat>, stock0: set<Region>, j: nat, i: nat,
                     lo: nat, hi: nat)
      requires Cutting(m0, f0, l0, ufree0, stock0, j, i, lo, hi) && Behind(l0.spans, j, hi) && LayoutOk(l0) && lo < hi
      requires Bounds()
      ensures Valid() && regions.Stock() == stock0 && Preserved(m0, f0, l0, vm.View(), vm.frames, Plan(), pgtbl)
      ensures forall v: nat :: Covers(regions.spans, v) <==> Covers(l0.spans, v) && !(lo <= v < hi)
      ensures vm.upool.free == FreedBy(m0, pgtbl, l0.spans, lo, hi) + ufree0
    {
      hide Vm.Valid, Vm.View, MapsExactly, Preserved, FreedBy, RegionList.Linked, RegionList.Stock, Cut, Covers,
           Canonical;
      CutRest(l0.spans, j, lo, hi);
      FreedRest(m0, pgtbl, l0.spans, j, lo, hi);
      CutKeeps(l0.spans, lo, hi, BOTTOM, TOP);
      forall v: nat
        ensures Covers(regions.spans, v) <==> Covers(l0.spans, v) && !(lo <= v < hi)
      {
        CutCovers(l0.spans, lo, hi, v);
      }
    }

    /** Before the first round. */
    lemma CuttingStart(lo: nat, hi: nat)
      requires Valid()
      ensures Cutting(vm.View(), vm.frames, Plan(), vm.upool.free, regions.Stock(), 0, 0, lo, hi)
      ensures regions.head == After(regions.nodes, -1)
    {
      hide Vm.Valid, Vm.View, MapsExactly, Canonical, RegionList.Stock;
      Unchanged(vm.View(), vm.frames, Plan(), pgtbl, 0);
      var spans := regions.spans;
      assert spans[..0] == [] && [] + spans[0..] == spans;
      assert FreedBy(vm.View(), pgtbl, [], lo, hi) + vm.upool.free == vm.upool.free;
    }
  }

  /** Some run has pages on both sides of pages `lo` to `hi`. */
  ghost predicate SomeSplits(spans: seq<Span>, lo: nat, hi: nat) {
    exists k :: 0 <= k < |spans| && Splits(spans[k], lo, hi)
  }

  ghost predicate NoSplit(spans: seq<Span>, j: nat, lo: nat, hi: nat) {
    forall k :: 0 <= k < j && k < |spans| ==> !Splits(spans[k], lo, hi)
  }

  /** The first `j` runs end before page `lo`. */
  ghost predicate AllBefore(spans: seq<Span>, j: nat, lo: nat) {
    forall k {:trigger spans[k]} :: 0 <= k < j && k < |spans| ==> End(spans[k]) <= lo
  }

  lemma NoneBefore(spans: seq<Span>, lo: nat, hi: nat)
    ensures NoSplit(spans, 0, lo, hi)
  {}

  lemma SkippedBefore(spans: seq<Span>, j: nat, lo: nat, hi: nat)
    requires j < |spans| && End(spans[j]) <= lo < hi
    ensures AllBefore(spans, j + 1, lo) ==> AllBefore(spans, j, lo)
    ensures NoSplit(spans, j, lo, hi) ==> NoSplit(spans, j + 1, lo, hi)
  {}

  /** A run that overlaps pages `lo` to `hi` is not before them; when they lie inside it, all earlier runs are. */
  lemma CutOnce(l: Layout, j: nat, lo: nat, hi: nat)
    requires LayoutOk(l) && j < |l.spans| && lo < End(l.spans[j])
    ensures !AllBefore(l.spans, j + 1, lo)
    ensures Splits(l.spans[j], lo, hi) ==> AllBefore(l.spans, j, lo) && SomeSplits(l.spans, lo, hi)
    ensures NoSplit(l.spans, j, lo, hi) && !Splits(l.spans[j], lo, hi) ==> NoSplit(l.spans, j + 1, lo, hi)
  {
    assert End(l.spans[j]) > lo;
  }

  /** An end that wraps around comes out below the area. */
  lemma WrapEnd(start: nat, npages: nat)
    requires start < U64 && npages * PGSIZE < U32
    ensures if start + npages * PGSIZE < U64 then Wrap(start + npages * PGSIZE) == start + npages * PGSIZE
            else Wrap(start + npages * PGSIZE) < MMAP_BEGIN && MMAP_END <= start
  {
    AreaBounds();
  }

  /** A range behind which, or before which, all regions lie has no page in any of them. */
  lemma NothingCut(m: Mem, root: nat, l: Layout, lo: nat, hi: nat)
    requires LayoutOk(l) && lo < hi && (TOP <= lo || Behind(l.spans, 0, hi))
    ensures !SomeSplits(l.spans, lo, hi) && FreedBy(m, root, l.spans, lo, hi) == []
    ensures forall v: nat :: Covers(l.spans, v) ==> !(lo <= v < hi)
  {
    FreedNothing(m, root, l.spans, lo, hi);
  }

  /** uvm_munmap stops at its first region only for a range behind which, or before which, all regions lie. */
  lemma Outside(l: Layout, start: nat, npages: nat)
    requires LayoutOk(l) && start < U64 && start % PGSIZE == 0 && 0 < npages && npages * PGSIZE < U32
    requires l.spans != [] ==> Wrap(start + npages * PGSIZE) <= l.spans[0].first * PGSIZE
    ensures TOP <= start / PGSIZE || Behind(l.spans, 0, start / PGSIZE + npages)
  {
    AreaBounds();
    WrapEnd(start, npages);
    if start + npages * PGSIZE < U64 && l.spans != [] { RestBehind(l, 0, start / PGSIZE + npages); }
  }

  lemma {:induction false} FreedNothing(m: Mem, root: nat, spans: seq<Span>, lo: nat, hi: nat)
    requires forall k {:trigger spans[k]} :: 0 <= k < |spans| ==> End(spans[k]) <= lo || hi <= spans[k].first
    ensures FreedBy(m, root, spans, lo, hi) == []
  {
    if spans != [] {
      assert OverlapCount(spans[|spans| - 1], lo, hi) == 0;
      FreedNothing(m, root, spans[..|spans| - 1], lo, hi);
    }
  }

  lemma NoSplitAtAll(spans: seq<Span>, j: nat, lo: nat, hi: nat)
    requires Behind(spans, j, hi) && lo < hi
    ensures NoSplit(spans, j, lo, hi) ==> !SomeSplits(spans, lo, hi)
  {}

  /** There is no free place: not at `start`, or nowhere when no start is given. */
  ghost predicate NoPlace(spans: seq<Span>, start: nat, npages: nat) {
    if start == 0 then NoneFree(spans, npages, BOTTOM, TOP - npages + 1)
    else !(MMAP_BEGIN <= start && start + npages * PGSIZE <= MMAP_END && Spans.Free(spans, start / PGSIZE, npages))
  }

  lemma Unchanged(m: Mem, f: map<nat, Page>, l: Layout, root: nat, perm: nat)
    ensures Preserved(m, f, l, m, f, l, root) && NewAreZero(l, m, f, l, root, perm)
  {}

  lemma StackRange(fault: nat)
    ensures STACK_TOP * PGSIZE == TRAPFRAME && TOP <= STACK_TOP
    ensures MMAP_END <= fault < TRAPFRAME ==> TOP <= fault / PGSIZE < STACK_TOP
  {
    AreaBounds();
  }

  lemma StackPage(l: Layout, fault: nat)
    requires STACK_TOP - l.stack <= fault / PGSIZE < STACK_TOP
    ensures InLayout(l, fault / PGSIZE)
  {}

  /** A new run of pages in the area. */
  lemma MmapUp(l0: Layout, l1: Layout, i: nat, first: nat, n: nat)
    requires LayoutOk(l0) && Spans.Fits(l0.spans, i, Span(first, n), BOTTOM, TOP)
    requires l1 == l0.(spans := Added(l0.spans, i, Span(first, n)))
    ensures LayoutOk(l1) && first + n <= STACK_TOP && Spans.Free(l0.spans, first, n)
    ensures forall v: nat :: Covers(l1.spans, v) <==> Covers(l0.spans, v) || first <= v < first + n
    ensures forall v: nat :: InLayout(l1, v) <==> InLayout(l0, v) || first <= v < first + n
    ensures forall v: nat :: first <= v < first + n ==> !InLayout(l0, v)
  {
    AreaBounds();
    AddedKeeps(l0.spans, i, Span(first, n), BOTTOM, TOP);
    FreeMeans(l0.spans, first, n);
    forall v: nat
      ensures Covers(l1.spans, v) <==> Covers(l0.spans, v) || first <= v < first + n
    {
      assert Within(Span(first, n), v) <==> first <= v < first + n;
    }
  }

  function OverlapFrom(s: Span, lo: nat): nat { if lo > s.first then lo else s.first }

  function OverlapCount(s: Span, lo: nat, hi: nat): nat {
    var end := if hi < End(s) then hi else End(s);
    if end > OverlapFrom(s, lo) then end - OverlapFrom(s, lo) else 0
  }

  /** The frames behind the pages of the regions in the range, each once. */
  ghost function FreedBy(m: Mem, root: nat, spans: seq<Span>, lo: nat, hi: nat): seq<nat> {
    if spans == [] then []
    else var s := spans[|spans| - 1];
         FramesOf(m, root, OverlapFrom(s, lo), OverlapCount(s, lo, hi)) + FreedBy(m, root, spans[..|spans| - 1], lo, hi)
  }

  lemma FreedByNext(m: Mem, root: nat, spans: seq<Span>, j: nat, lo: nat, hi: nat)
    requires j < |spans|
    ensures FreedBy(m, root, spans[..j + 1], lo, hi) ==
            FramesOf(m, root, OverlapFrom(spans[j], lo), OverlapCount(spans[j], lo, hi)) +
                FreedBy(m, root, spans[..j], lo, hi)
  {
    assert spans[..j + 1][..j] == spans[..j];
  }

  lemma {:induction false} FramesAgree(m: Mem, g: Mem, root: nat, v: nat, n: nat)
    requires forall w: nat :: v <= w < v + n && w < VPNS ==> Pte(g, root, w) == Pte(m, root, w)
    ensures FramesOf(g, root, v, n) == FramesOf(m, root, v, n)
  {
    if n > 0 { FramesAgree(m, g, root, v, n - 1); }
  }

  /** The pages still to be unmapped have the frames they had at the start. */
  lemma FramesSame(m0: Mem, f0: map<nat, Page>, l0: Layout, m1: Mem, f1: map<nat, Page>, l1: Layout, root: nat, v: nat,
                   n: nat, s: Span)
    requires Preserved(m0, f0, l0, m1, f1, l1, root) && s in l0.spans && s in l1.spans && s.first <= v
    requires v + n <= End(s)
    ensures FramesOf(m1, root, v, n) == FramesOf(m0, root, v, n)
  {
    hide Pte, Content, UserPage;
    forall w: nat | v <= w < v + n && w < VPNS ensures Pte(m1, root, w) == Pte(m0, root, w) {
      CoversBy(l0.spans, s, w);
      CoversBy(l1.spans, s, w);
    }
    FramesAgree(m0, m1, root, v, n);
  }

  lemma CoversBy(spans: seq<Span>, s: Span, w: nat)
    requires s in spans && s.first <= w < End(s)
    ensures Covers(spans, w)
  {
    var i :| 0 <= i < |spans| && spans[i] == s;
    assert Within(spans[i], w);
  }

  lemma PreservedTrans(m0: Mem, f0: map<nat, Page>, l0: Layout, m1: Mem, f1: map<nat, Page>, l1: Layout, m2: Mem,
                       f2: map<nat, Page>, l2: Layout, root: nat)
    requires Preserved(m0, f0, l0, m1, f1, l1, root) && Preserved(m1, f1, l1, m2, f2, l2, root)
    requires forall v: nat :: InLayout(l2, v) ==> InLayout(l1, v)
    ensures Preserved(m0, f0, l0, m2, f2, l2, root)
  {
    hide Pte, Content, InLayout, UserPage;
    forall q: nat, w: nat | w < VPNS && (q != root || (InLayout(l0, w) && InLayout(l2, w)))
      ensures Pte(m2, q, w) == Pte(m0, q, w) && (UserPage(m0, q, w) ==> Content(m2, f2, q, w) == Content(m0, f0, q, w))
    {
      assert Pte(m2, q, w) == Pte(m1, q, w) && Pte(m1, q, w) == Pte(m0, q, w);
      SameUser(m0, m1, q, w);
    }
  }

  /** Region `i` of the current list is region `j` of the original one. */
  lemma CutFacts(l0: Layout, l1: Layout, j: nat, i: nat, lo: nat, hi: nat)
    requires LayoutOk(l0) && j < |l0.spans| && i == |Cut(l0.spans[..j], lo, hi)|
    requires l1 == CutLayout(l0, j, lo, hi)
    requires lo < End(l0.spans[j]) && l0.spans[j].first < hi && lo < hi
    ensures i < |l1.spans| && l1.spans[i] == l0.spans[j] && |l1.spans| == i + |l0.spans| - j && l0.spans[j] in l0.spans
    ensures l0.spans[j] in l1.spans
    ensures 0 < l0.spans[j].n && OverlapCount(l0.spans[j], lo, hi) > 0
    ensures OverlapFrom(l0.spans[j], lo) >= l0.spans[j].first
    ensures OverlapFrom(l0.spans[j], lo) + OverlapCount(l0.spans[j], lo, hi) <= End(l0.spans[j]) <= TOP <= STACK_TOP
    ensures (OverlapFrom(l0.spans[j], lo) + OverlapCount(l0.spans[j], lo, hi)) * PGSIZE + PGSIZE <= U64
  {
    AreaBounds();
  }

  /** Cutting region `j` removes exactly the overlap from the layout. */
  lemma CutShrinks(l0: Layout, l1: Layout, l2: Layout, j: nat, i: nat, lo: nat, hi: nat)
    requires LayoutOk(l0) && j < |l0.spans| && i == |Cut(l0.spans[..j], lo, hi)| && lo < hi
    requires l1 == CutLayout(l0, j, lo, hi)
    requires l2 == l1.(spans := l1.spans[..i] + CutOne(l1.spans[i], lo, hi) + l1.spans[i + 1..])
    ensures l2 == CutLayout(l0, j + 1, lo, hi)
    ensures var s := l0.spans[j];
            forall v: nat :: InLayout(l2, v) <==>
                InLayout(l1, v) && !(OverlapFrom(s, lo) <= v < OverlapFrom(s, lo) + OverlapCount(s, lo, hi))
  {
    CutSplit(l0.spans, j, i, lo, hi);
    AreaBounds();
    var s, a, b := l0.spans[j], Cut(l0.spans[..j], lo, hi), l0.spans[j + 1..];
    assert l1.spans == a + [s] + b && l2.spans == a + CutOne(s, lo, hi) + b;
    hide Covers, Cut, CutOne, Canonical;
    SpanInside(l0.spans, j);
    forall v: nat
      ensures InLayout(l2, v) <==>
                InLayout(l1, v) && !(OverlapFrom(s, lo) <= v < OverlapFrom(s, lo) + OverlapCount(s, lo, hi))
    {
      CoversAppend(a + [s], b, v);
      CoversAppend(a, [s], v);
      CoversAppend(a + CutOne(s, lo, hi), b, v);
      CoversAppend(a, CutOne(s, lo, hi), v);
      CutOneCovers(s, lo, hi, v);
      CoversOne(s, v);
      CutCovers(l0.spans[..j], lo, hi, v);
      Around(l0.spans, j, v);
    }
  }

  lemma SpanInside(spans: seq<Span>, j: nat)
    requires Canonical(spans, BOTTOM, TOP) && j < |spans|
    ensures BOTTOM <= spans[j].first && End(spans[j]) <= TOP
  {}

  /** Earlier runs lie below a run, later ones above it. */
  lemma Around(spans: seq<Span>, j: nat, v: nat)
    requires Canonical(spans, BOTTOM, TOP) && j < |spans|
    ensures Covers(spans[..j], v) ==> v < spans[j].first
    ensures Covers(spans[j + 1..], v) ==> End(spans[j]) <= v
  {}

  lemma CutSplit(spans: seq<Span>, j: nat, i: nat, lo: nat, hi: nat)
    requires j < |spans| && i == |Cut(spans[..j], lo, hi)|
    ensures var t := Cut(spans[..j], lo, hi) + spans[j..];
            && i < |t| && t[i] == spans[j] && t[..i] == Cut(spans[..j], lo, hi) && t[i + 1..] == spans[j + 1..]
            && t == Cut(spans[..j], lo, hi) + [spans[j]] + spans[j + 1..]
    ensures Cut(spans[..j + 1], lo, hi) == Cut(spans[..j], lo, hi) + CutOne(spans[j], lo, hi)
  {
    hide Cut, CutOne;
    assert spans[..j + 1] == spans[..j] + [spans[j]];
    CutAppend(spans[..j], spans[j], lo, hi);
  }

  /** The runs from number `j` on lie behind page `hi`. */
  ghost predicate Behind(spans: seq<Span>, j: nat, hi: nat) {
    forall k {:trigger spans[k]} :: j <= k < |spans| ==> hi <= spans[k].first
  }

  lemma RestBehind(l: Layout, j: nat, hi: nat)
    requires LayoutOk(l) && j < |l.spans| && hi <= l.spans[j].first
    ensures Behind(l.spans, j, hi)
  {}

  lemma RestAfter(l: Layout, j: nat, hi: nat)
    requires LayoutOk(l) && 0 < j <= |l.spans| && hi < End(l.spans[j - 1])
    ensures Behind(l.spans, j, hi)
  {}

  lemma CutRest(spans: seq<Span>, j: nat, lo: nat, hi: nat)
    requires j <= |spans| && Behind(spans, j, hi)
    ensures Cut(spans, lo, hi) == Cut(spans[..j], lo, hi) + spans[j..]
  {
    hide Cut;
    CutTwo(spans[..j], spans[j..], lo, hi);
    assert spans[..j] + spans[j..] == spans;
    CutBehind(spans[j..], lo, hi);
  }

  lemma {:induction false} FreedRest(m: Mem, root: nat, spans: seq<Span>, j: nat, lo: nat, hi: nat)
    requires j <= |spans| && Behind(spans, j, hi)
    ensures FreedBy(m, root, spans, lo, hi) == FreedBy(m, root, spans[..j], lo, hi)
  {
    if j < |spans| {
      var s := spans[|spans| - 1];
      assert OverlapCount(s, lo, hi) == 0;
      FreedRest(m, root, spans[..|spans| - 1], j, lo, hi);
      assert spans[..|spans| - 1][..j] == spans[..j];
    } else {
      assert spans[..j] == spans;
    }
  }

  /** The layout with the first `j` regions cut. */
  ghost function CutLayout(l0: Layout, j: nat, lo: nat, hi: nat): Layout
    requires j <= |l0.spans|
  {
    l0.(spans := Cut(l0.spans[..j], lo, hi) + l0.spans[j..])
  }

  /** The page-table side of a partly done uvm_munmap. */
  ghost predicate TableCut(m0: Mem, f0: map<nat, Page>, l0: Layout, ufree0: seq<nat>, j: nat, lo: nat, hi: nat,
                           root: nat, m: Mem, f: map<nat, Page>, ufree: seq<nat>)
    requires j <= |l0.spans|
  {
    && MapsExactly(m, root, CutLayout(l0, j, lo, hi))
    && Preserved(m0, f0, l0, m, f, CutLayout(l0, j, lo, hi), root)
    && ufree == FreedBy(m0, root, l0.spans[..j], lo, hi) + ufree0
  }

  /** In table `m1` the first `j` regions were cut; in `m` the overlap with region `j` is unmapped too. */
  ghost predicate TableHalfCut(m0: Mem, f0: map<nat, Page>, l0: Layout, ufree0: seq<nat>, j: nat, lo: nat, hi: nat,
                               root: nat, m1: Mem, m: Mem, f: map<nat, Page>, ufree: seq<nat>)
    requires j < |l0.spans|
  {
    && MapsExactly(m1, root, CutLayout(l0, j, lo, hi))
    && Preserved(m0, f0, l0, m1, f, CutLayout(l0, j, lo, hi), root)
    && Unmapped(m1, m, root, OverlapFrom(l0.spans[j], lo), OverlapCount(l0.spans[j], lo, hi))
    && ufree == FramesOf(m0, root, OverlapFrom(l0.spans[j], lo), OverlapCount(l0.spans[j], lo, hi)) +
        (FreedBy(m0, root, l0.spans[..j], lo, hi) + ufree0)
  }

  lemma TableStep(m0: Mem, f0: map<nat, Page>, l0: Layout, ufree0: seq<nat>, j: nat, i: nat, lo: nat, hi: nat,
                  root: nat, m1: Mem, m: Mem, f: map<nat, Page>, ufree: seq<nat>)
    requires LayoutOk(l0) && j < |l0.spans| && i == |Cut(l0.spans[..j], lo, hi)| && lo < hi && lo < End(l0.spans[j])
    requires l0.spans[j].first < hi
    requires TableHalfCut(m0, f0, l0, ufree0, j, lo, hi, root, m1, m, f, ufree)
    ensures TableCut(m0, f0, l0, ufree0, j + 1, lo, hi, root, m, f, ufree)
  {
    hide MapsExactly, Preserved, Unmapped, FramesOf, FreedBy, InLayout, LayoutOk, Canonical, Cut, CutOne, CutLayout;
    var from, n := OverlapFrom(l0.spans[j], lo), OverlapCount(l0.spans[j], lo, hi);
    var l1, l2 := CutLayout(l0, j, lo, hi), CutLayout(l0, j + 1, lo, hi);
    CutFacts(l0, l1, j, i, lo, hi);
    CutLayoutNext(l0, j, i, lo, hi);
    CutShrinks(l0, l1, l2, j, i, lo, hi);
    ShrinkLayout(m1, f, l1, m, l2, root, from, n);
    PreservedTrans(m0, f0, l0, m1, f, l1, m, f, l2, root);
    FreedByNext(m0, root, l0.spans, j, lo, hi);
    assert FramesOf(m0, root, from, n) + (FreedBy(m0, root, l0.spans[..j], lo, hi) + ufree0) ==
        FreedBy(m0, root, l0.spans[..j + 1], lo, hi) + ufree0;
  }

  /** The layout after region `j` is cut as well. */
  lemma CutLayoutNext(l0: Layout, j: nat, i: nat, lo: nat, hi: nat)
    requires j < |l0.spans| && i == |Cut(l0.spans[..j], lo, hi)|
    ensures var l1 := CutLayout(l0, j, lo, hi);
            && i < |l1.spans| && l1.spans[i] == l0.spans[j] && l1.heapEnd == l0.heapEnd && l1.stack == l0.stack
            && CutLayout(l0, j + 1, lo, hi) ==
                l1.(spans := l1.spans[..i] + CutOne(l1.spans[i], lo, hi) + l1.spans[i + 1..])
    ensures |Cut(l0.spans[..j + 1], lo, hi)| == i + |CutOne(l0.spans[j], lo, hi)|
  {
    hide Cut, CutOne;
    CutSplit(l0.spans, j, i, lo, hi);
  }
}
