/** Filling and copying ranges of user pages (mem/uvm.c). */
module Uvm {
  import opened Memory
  import opened RadixForest
  import opened PageTree
  import opened PageTables
  import opened PageAccounts
  import opened PageNeeds
  import opened UserCopy
  import Pmem

  /** Page `v` is mapped for user code. */
  ghost predicate UserPage(m: Mem, root: nat, v: nat) {
    IsValid(Pte(m, root, v)) && User(Pte(m, root, v))
  }

  /** The frame contents behind page `v`. */
  ghost function Content(m: Mem, frames: map<nat, Page>, root: nat, v: nat): Page {
    var b := Pa(Pte(m, root, v));
    if b in frames then frames[b] else ZeroPage()
  }

  /** What new pages are to hold: zeroes, or a copy of the same page of table `src`. */
  datatype Source = Zeroes(perm: nat) | CopyOf(src: nat)

  ghost function WantFlags(s: Source, m: Mem, v: nat): nat {
    match s case Zeroes(perm) => WithValid(perm) case CopyOf(src) => Flags(Pte(m, src, v))
  }

  ghost function WantPage(s: Source, m: Mem, frames: map<nat, Page>, v: nat): Page {
    match s case Zeroes(_) => ZeroPage() case CopyOf(src) => Content(m, frames, src, v)
  }

  /** Page `v` has changed to a user page with the given flags and contents, and nothing else has changed. */
  ghost predicate LaidOne(m0: Mem, f0: map<nat, Page>, m1: Mem, f1: map<nat, Page>, root: nat, v: nat, flags: nat,
                          page: Page) {
    && UserPage(m1, root, v) && Flags(Pte(m1, root, v)) == flags && Content(m1, f1, root, v) == page
    && (forall q: nat, w: nat {:trigger Pte(m1, q, w)} :: w < VPNS && !(q == root && w == v) ==>
          Pte(m1, q, w) == Pte(m0, q, w) && (UserPage(m0, q, w) ==> Content(m1, f1, q, w) == Content(m0, f0, q, w)))
  }

  /** Pages `lo` to `hi` of table `root` are user pages that hold what `s` says; every other page of every
      table is mapped as before and holds the same bytes. */
  ghost predicate Laid(m0: Mem, f0: map<nat, Page>, m1: Mem, f1: map<nat, Page>, root: nat, lo: nat, hi: nat,
                       s: Source) {
    && (forall w: nat {:trigger Pte(m1, root, w)} :: lo <= w < hi ==>
          UserPage(m1, root, w) && Flags(Pte(m1, root, w)) == WantFlags(s, m0, w) &&
              Content(m1, f1, root, w) == WantPage(s, m0, f0, w))
    && (forall q: nat, w: nat {:trigger Pte(m1, q, w)} :: w < VPNS && !(q == root && lo <= w < hi) ==>
          Pte(m1, q, w) == Pte(m0, q, w) && (UserPage(m0, q, w) ==> Content(m1, f1, q, w) == Content(m0, f0, q, w)))
  }

  lemma LaidNone(m: Mem, f: map<nat, Page>, root: nat, lo: nat, s: Source)
    ensures Laid(m, f, m, f, root, lo, lo, s)
  {
    hide Pte, Content, UserPage, Flags;
  }

  /** One more page at either end of the range. */
  lemma LaidMore(m0: Mem, f0: map<nat, Page>, m1: Mem, f1: map<nat, Page>, m2: Mem, f2: map<nat, Page>, root: nat,
                 lo: nat, hi: nat, v: nat, s: Source)
    requires lo <= hi <= VPNS && (v == hi || v + 1 == lo) && v < VPNS
    requires Laid(m0, f0, m1, f1, root, lo, hi, s)
    requires LaidOne(m1, f1, m2, f2, root, v, WantFlags(s, m0, v), WantPage(s, m0, f0, v))
    ensures Laid(m0, f0, m2, f2, root, if v == hi then lo else v, if v == hi then hi + 1 else hi, s)
  {
    hide Pte, Content, Flags, WantFlags, WantPage, UserPage;
    var lo2, hi2 := if v == hi then lo else v, if v == hi then hi + 1 else hi;
    forall w: nat | lo2 <= w < hi2
      ensures UserPage(m2, root, w) && Flags(Pte(m2, root, w)) == WantFlags(s, m0, w)
      ensures Content(m2, f2, root, w) == WantPage(s, m0, f0, w)
    {
      if w != v {
        assert Pte(m2, root, w) == Pte(m1, root, w);
        SameUser(m1, m2, root, w);
      }
    }
    forall q: nat, w: nat | w < VPNS && !(q == root && lo2 <= w < hi2)
      ensures Pte(m2, q, w) == Pte(m0, q, w) && (UserPage(m0, q, w) ==> Content(m2, f2, q, w) == Content(m0, f0, q, w))
    {
      assert Pte(m2, q, w) == Pte(m1, q, w) && Pte(m1, q, w) == Pte(m0, q, w);
      SameUser(m0, m1, q, w);
    }
  }

  lemma SameUser(m: Mem, g: Mem, q: nat, w: nat)
    requires Pte(m, q, w) == Pte(g, q, w)
    ensures UserPage(m, q, w) == UserPage(g, q, w)
  {}

  /** No user page lies in frame `b`. */
  ghost predicate Unmapped0(m: Mem, f: map<nat, Page>, b: nat) {
    forall q: nat, w: nat {:trigger Pte(m, q, w)} :: w < VPNS && UserPage(m, q, w) ==>
        Pa(Pte(m, q, w)) in f && Pa(Pte(m, q, w)) != b
  }

  lemma FreeUnmapped(vm: Vm, b: nat)
    requires vm.Valid() && b in vm.upool.free
    ensures Unmapped0(vm.View(), vm.frames, b)
  {
    hide Consistent, Pooled, Vm.Pools, Pte, IsValid, User, Pa, Level, LeafPos;
    forall q: nat, w: nat | w < VPNS && UserPage(vm.View(), q, w)
      ensures Pa(Pte(vm.View(), q, w)) in vm.frames && Pa(Pte(vm.View(), q, w)) != b
    {
      LeafFrame(vm.View(), vm.owner, vm.kpool, vm.kpool.free, vm.upool, vm.upool.free, vm.frames.Keys, q, w);
    }
  }

  /** memset or memmove of a frame that is not mapped yet. */
  method WriteFrame(vm: Vm, b: nat, page: Page)
    requires vm.Valid() && vm.Loose(b)
    modifies vm`frames
    ensures vm.Valid() && vm.Loose(b) && vm.frames == old(vm.frames)[b := page]
  {
    hide Consistent, Pooled, Vm.Pools;
    vm.frames := vm.frames[b := page];
    assert vm.frames.Keys == old(vm.frames.Keys);
  }

  lemma OneUsable(vm: Vm, root: nat, v: nat, b: nat)
    requires vm.Loose(b)
    ensures AllUsable(root, v, b, Count(PGSIZE), vm.owner, vm.upool, vm.upool.free, vm.frames.Keys)
  {
    assert Count(PGSIZE) == 1;
    forall i: nat | i < 1 ensures UsableAt(root, v, b, i, vm.owner, vm.upool, vm.upool.free, vm.frames.Keys) {}
  }

  lemma LaidByMap(m0: Mem, f0: map<nat, Page>, m1: Mem, f1: map<nat, Page>, root: nat, v: nat, b: nat, page: Page,
                  perm: nat)
    requires LeafPerm(perm) && UserPerm(perm) && b % PGSIZE == 0 && v < VPNS
    requires Mapped(m0, m1, root, v, 1, b, perm) && Unmapped0(m0, f0, b)
    requires b in f1 && f1[b] == page && forall c :: c in f0 && c != b ==> c in f1 && f1[c] == f0[c]
    ensures LaidOne(m0, f0, m1, f1, root, v, WithValid(perm), page)
  {
    MadePte(b, perm);
    MadePerm(b, perm);
    hide Pte, MakePte, Flags, Pa, User, IsValid;
    assert Pte(m1, root, v) == MakePte(b, perm);
    forall q: nat, w: nat | w < VPNS && !(q == root && w == v)
      ensures Pte(m1, q, w) == Pte(m0, q, w) && (UserPage(m0, q, w) ==> Content(m1, f1, q, w) == Content(m0, f0, q, w))
    {
      assert Pte(m1, q, w) == Pte(m0, q, w);
    }
  }

  /** One of the page pools is empty. */
  ghost predicate NoMemory(vm: Vm)
    reads vm.kpool, vm.upool
  {
    vm.kpool.free == [] || vm.upool.free == []
  }

  /** pmem_alloc(false), memset or memmove, vm_mappages of one page: panics (not ok) when a pool is empty. */
  method LayPage(vm: Vm, root: nat, va: nat, page: Page, perm: nat) returns (ok: bool)
    requires vm.Valid() && root in vm.roots && va % PGSIZE == 0 && va < U64 && LeafPerm(perm) && UserPerm(perm)
    modifies vm, vm.kpool, vm.upool
    ensures vm.Valid() && vm.roots == old(vm.roots)
    ensures ok ==>
              && va < VA_MAX
              && LaidOne(old(vm.View()), old(vm.frames), vm.View(), vm.frames, root, va / PGSIZE, WithValid(perm), page)
    ensures !ok ==> NoMemory(vm) || va >= VA_MAX
    // it succeeds exactly when there is a frame and a page for every table that is missing
    ensures ok <==>
              && va < VA_MAX
              && Affords(old(vm.View()), old(vm.kpool.free), old(vm.upool.free), root, {va / PGSIZE})
    ensures ok ==>
              Paid(old(vm.View()), old(vm.kpool.free), old(vm.upool.free), vm.View(), vm.kpool.free, vm.upool.free,
                  root, {va / PGSIZE})
    // over an empty entry, the frame has moved from its pool to the table
    ensures ok && Own(old(Pte(vm.View(), root, va / PGSIZE))) == 0 ==> vm.Books(root) == old(vm.Books(root))
  {
    hide Vm.Valid, Vm.View, Pte, LeafPerm, UserPerm, Mapped, MakePte, Took, AllUsable, LaidOne, Vm.Loose, Unmapped0,
         Count, Clean, AccountOf, With, UserRun, Own, Tabled, HasTables, Pages;
    OnePage(va / PGSIZE);
    ghost var m0, f0 := vm.View(), vm.frames;
    if vm.upool.free != [] { FreeUnmapped(vm, vm.upool.free[0]); }
    ghost var first := if vm.upool.free != [] then vm.upool.free[0] else 0;
    PageBelow0(va);
    LastPageFits(va);
    FixedPerms();
    vm.PoolsApart(perm);
    var pa, got := vm.AllocFrame();
    if !got { return false; }
    assert pa == first;
    FrameTaken(root, vm.owner, vm.kpool.free, pa, vm.upool.free);
    WriteFrame(vm, pa, page);
    OneUsable(vm, root, va / PGSIZE, pa);
    ok := vm.MapPages(root, va, pa, PGSIZE, perm);
    if ok {
      LaidByMap(m0, f0, vm.View(), vm.frames, root, va / PGSIZE, pa, page, perm);
      OneClean(m0, root, va / PGSIZE, pa, perm);
    }
  }

  lemma OnePage(v: nat)
    ensures Pages(v, v + Count(PGSIZE)) == {v} && |{v}| == 1
  {}

  lemma OneClean(m: Mem, root: nat, v: nat, pa: nat, perm: nat)
    ensures Own(Pte(m, root, v)) == 0 ==> Clean(m, root, v, Count(PGSIZE))
    ensures UserPerm(perm) ==> UserRun(perm, pa, Count(PGSIZE)) == {pa}
  {
    hide Pte, Own, UserPerm;
    assert Count(PGSIZE) == 1 && Nth(pa, 0) == pa;
    assert RunSet(pa, 1) == RunSet(pa, 0) + {Nth(pa, 0)};
  }

  lemma LastPageFits(va: nat)
    ensures va % PGSIZE == 0 ==> (va + PGSIZE <= VA_MAX <==> va < VA_MAX)
  {}

  /** One more page after the range of new pages. */
  method LayAfter(vm: Vm, ghost m0: Mem, ghost f0: map<nat, Page>, root: nat, ghost lo: nat, ghost hi: nat, va: nat,
                  ghost v: nat, page: Page, perm: nat, ghost s: Source) returns (ok: bool)
    requires vm.Valid() && root in vm.roots && va == v * PGSIZE && LeafPerm(perm) && UserPerm(perm)
    requires Laid(m0, f0, vm.View(), vm.frames, root, lo, hi, s) && lo <= hi <= VPNS && v == hi
    requires page == WantPage(s, m0, f0, v) && WithValid(perm) == WantFlags(s, m0, v)
    modifies vm, vm.kpool, vm.upool
    ensures vm.Valid() && vm.roots == old(vm.roots)
    ensures ok ==> v < VPNS && Laid(m0, f0, vm.View(), vm.frames, root, lo, hi + 1, s)
    ensures !ok ==> NoMemory(vm) || v >= VPNS
    ensures ok && Own(old(Pte(vm.View(), root, v))) == 0 ==> vm.Books(root) == old(vm.Books(root))
    ensures !ok && v < VPNS ==> !Affords(old(vm.View()), old(vm.kpool.free), old(vm.upool.free), root, {v})
    ensures ok ==>
              Paid(old(vm.View()), old(vm.kpool.free), old(vm.upool.free), vm.View(), vm.kpool.free, vm.upool.free,
                  root, {v})
  {
    hide Own, Vm.Books, Vm.Valid, Vm.View, Pte, LaidOne, Laid, LeafPerm, UserPerm, WantPage, WantFlags, WithValid,
         Affords, Paid;
    PageNum(v);
    ghost var m1, f1 := vm.View(), vm.frames;
    ok := LayPage(vm, root, va, page, perm);
    if ok { LaidMore(m0, f0, m1, f1, vm.View(), vm.frames, root, lo, hi, v, s); }
  }

  /** What there is at page `k` while pages `lo` to `hi` of an empty range are new. */
  lemma TargetAt(m0: Mem, f0: map<nat, Page>, m: Mem, f: map<nat, Page>, s: Source, root: nat, lo: nat, hi: nat, v: nat,
                 n: nat, k: nat)
    requires Laid(m0, f0, m, f, root, lo, hi, s) && !(lo <= k < hi) && v <= k < v + n
    ensures Clean(m0, root, v, n) && k < VPNS ==> Own(Pte(m, root, k)) == 0
  {
    hide Pte, Own, Content, UserPage, Flags, WantFlags, WantPage;
    if k < VPNS { assert Pte(m, root, k) == Pte(m0, root, k); }
  }

  /** One more page before the range of new pages. */
  method LayBefore(vm: Vm, ghost m0: Mem, ghost f0: map<nat, Page>, root: nat, ghost lo: nat, ghost hi: nat, va: nat,
                   ghost v: nat, page: Page, perm: nat, ghost s: Source) returns (ok: bool)
    requires vm.Valid() && root in vm.roots && va == v * PGSIZE && LeafPerm(perm) && UserPerm(perm)
    requires Laid(m0, f0, vm.View(), vm.frames, root, lo, hi, s) && lo <= hi <= VPNS && v + 1 == lo
    requires page == WantPage(s, m0, f0, v) && WithValid(perm) == WantFlags(s, m0, v)
    modifies vm, vm.kpool, vm.upool
    ensures vm.Valid() && vm.roots == old(vm.roots)
    ensures ok ==> v < VPNS && Laid(m0, f0, vm.View(), vm.frames, root, v, hi, s)
    ensures !ok ==> NoMemory(vm) || v >= VPNS
    ensures !ok && v < VPNS ==> !Affords(old(vm.View()), old(vm.kpool.free), old(vm.upool.free), root, {v})
    ensures ok ==>
              Paid(old(vm.View()), old(vm.kpool.free), old(vm.upool.free), vm.View(), vm.kpool.free, vm.upool.free,
                  root, {v})
    ensures ok && Own(old(Pte(vm.View(), root, v))) == 0 ==> vm.Books(root) == old(vm.Books(root))
  {
    hide Vm.Valid, Vm.View, Pte, LaidOne, Laid, LeafPerm, UserPerm, WantPage, WantFlags, WithValid, Affords, Paid,
         Own, Vm.Books;
    PageNum(v);
    ghost var m1, f1 := vm.View(), vm.frames;
    ok := LayPage(vm, root, va, page, perm);
    if ok { LaidMore(m0, f0, m1, f1, vm.View(), vm.frames, root, lo, hi, v, s); }
  }

  lemma PageNum(v: nat)
    ensures v * PGSIZE / PGSIZE == v && v * PGSIZE % PGSIZE == 0 && (v * PGSIZE < VA_MAX <==> v < VPNS)
  {}

  const RWU: nat := PTE_R + PTE_W + PTE_U
  const USER_BASE: nat := PGSIZE

  /** `(a + PGSIZE - 1) & ~(PGSIZE - 1)` */
  function RoundUp(a: nat): nat { Count(a) * PGSIZE }

  /** `a & ~(PGSIZE - 1)` */
  function RoundDown(a: nat): nat { a / PGSIZE * PGSIZE }

  lemma Rounding(a: nat)
    ensures a <= RoundUp(a) < a + PGSIZE && RoundDown(a) <= a < RoundDown(a) + PGSIZE && RoundUp(a) == Count(a) * PGSIZE
  {}

  /** Paying for page `v`, at either end of the pages paid for, or failing to. */
  lemma PaidNext(m0: Mem, k0: seq<nat>, u0: seq<nat>, m: Mem, k: seq<nat>, u: seq<nat>, vm: Vm, root: nat, lo: nat,
                 hi: nat, v: nat, all: set<nat>, ok: bool)
    requires Paid(m0, k0, u0, m, k, u, root, Pages(lo, hi)) && lo <= hi && (v == hi || v + 1 == lo)
    requires if ok then Paid(m, k, u, vm.View(), vm.kpool.free, vm.upool.free, root, {v})
             else !Affords(m, k, u, root, {v})
    ensures ok ==>
              Paid(m0, k0, u0, vm.View(), vm.kpool.free, vm.upool.free, root,
                  if v == hi then Pages(lo, hi + 1) else Pages(v, hi))
    ensures !ok && Pages(lo, hi) <= all && v in all ==> !Affords(m0, k0, u0, root, all)
  {
    hide Paid, Affords, Vm.View;
    if ok {
      PaidThen(m0, k0, u0, m, k, u, vm.View(), vm.kpool.free, vm.upool.free, root, Pages(lo, hi), {v});
      assert Pages(lo, hi) + {v} == if v == hi then Pages(lo, hi + 1) else Pages(v, hi);
    } else if Pages(lo, hi) <= all && v in all {
      Unaffordable(m0, k0, u0, m, k, u, root, Pages(lo, hi), {v}, all);
    }
  }

  /** The part of uvm_mmap that maps new pages. */
  method LayRange(vm: Vm, root: nat, va: nat, npages: nat, perm: nat, ghost first: nat) returns (ok: bool)
    requires vm.Valid() && root in vm.roots && va == first * PGSIZE && first + npages <= VPNS && LeafPerm(perm)
    requires UserPerm(perm)
    modifies vm, vm.kpool, vm.upool
    ensures vm.Valid() && vm.roots == old(vm.roots)
    ensures ok ==> Laid(old(vm.View()), old(vm.frames), vm.View(), vm.frames, root, first, first + npages, Zeroes(perm))
    ensures !ok ==> NoMemory(vm)
    ensures ok <==>
              Affords(old(vm.View()), old(vm.kpool.free), old(vm.upool.free), root, Pages(first, first + npages))
    ensures ok && Clean(old(vm.View()), root, first, npages) ==> vm.Books(root) == old(vm.Books(root))
  {
    hide Vm.Valid, Vm.View, Pte, LeafPerm, UserPerm, Laid, WithValid, ZeroPage, Affords, Paid, Pages, Vm.Books, Clean,
         Own;
    ghost var m0, f0, k0, u0 := vm.View(), vm.frames, vm.kpool.free, vm.upool.free;
    LaidNone(m0, f0, root, first, Zeroes(perm));
    PaidNone(m0, k0, u0, root, first);
    var i, at := 0, va;
    while i < npages
      invariant i <= npages && at == (first + i) * PGSIZE && vm.Valid() && vm.roots == old(vm.roots)
      invariant Laid(m0, f0, vm.View(), vm.frames, root, first, first + i, Zeroes(perm))
      invariant Paid(m0, k0, u0, vm.View(), vm.kpool.free, vm.upool.free, root, Pages(first, first + i))
      invariant Clean(m0, root, first, npages) ==> vm.Books(root) == old(vm.Books(root))
    {
      TargetAt(m0, f0, vm.View(), vm.frames, Zeroes(perm), root, first, first + i, first, npages, first + i);
      ghost var m, k, u := vm.View(), vm.kpool.free, vm.upool.free;
      ok := LayAfter(vm, m0, f0, root, first, first + i, at, first + i, ZeroPage(), perm, Zeroes(perm));
      PaidNext(m0, k0, u0, m, k, u, vm, root, first, first + i, first + i, Pages(first, first + npages), ok);
      if !ok { return false; }
      i := i + 1;
      at := at + PGSIZE;
    }
    PaidMeans(m0, k0, u0, vm.View(), vm.kpool.free, vm.upool.free, root, Pages(first, first + npages));
    return true;
  }

  /** uvm_heap_grow: panics (not ok) when a pool is empty or the address space ends. */
  method HeapGrow(vm: Vm, root: nat, curTop: nat, len: nat) returns (newTop: nat, ok: bool)
    requires vm.Valid() && root in vm.roots && curTop + len <= VA_MAX
    modifies vm, vm.kpool, vm.upool
    ensures vm.Valid() && vm.roots == old(vm.roots)
    ensures ok ==> newTop == curTop + len
    ensures ok ==>
              Laid(old(vm.View()), old(vm.frames), vm.View(), vm.frames, root, Count(curTop), Count(newTop),
                  Zeroes(RWU))
    ensures !ok ==> NoMemory(vm)
    ensures ok <==>
              Affords(old(vm.View()), old(vm.kpool.free), old(vm.upool.free), root,
                  Pages(Count(curTop), Count(curTop + len)))
    ensures ok && Count(curTop) <= Count(curTop + len) ==>
              Clean(old(vm.View()), root, Count(curTop), Count(curTop + len) - Count(curTop)) ==>
                vm.Books(root) == old(vm.Books(root))
  {
    hide Vm.Valid, Vm.View, Pte, Laid, RoundUp, Count, WithValid, LeafPerm, UserPerm, ZeroPage, Affords, Paid, Pages,
         Vm.Books, Clean, Own;
    ghost var m0, f0, v, k0, u0 := vm.View(), vm.frames, Count(curTop), vm.kpool.free, vm.upool.free;
    LaidNone(m0, f0, root, v, Zeroes(RWU));
    PaidNone(m0, k0, u0, root, v);
    newTop := curTop + len;
    RwuPerm();
    TopsInPages(curTop, newTop);
    var a := RoundUp(curTop);
    ghost var k := v;
    while a < newTop
      invariant a == k * PGSIZE && v <= k <= Count(newTop) && vm.Valid() && vm.roots == old(vm.roots)
      invariant Laid(m0, f0, vm.View(), vm.frames, root, v, k, Zeroes(RWU))
      invariant Paid(m0, k0, u0, vm.View(), vm.kpool.free, vm.upool.free, root, Pages(v, k))
      invariant v <= Count(newTop) && (Clean(m0, root, v, Count(newTop) - v) ==> vm.Books(root) == old(vm.Books(root)))
      decreases newTop - a
    {
      TargetAt(m0, f0, vm.View(), vm.frames, Zeroes(RWU), root, v, k, v, Count(newTop) - v, k);
      ghost var m, kf, u := vm.View(), vm.kpool.free, vm.upool.free;
      ok := LayAfter(vm, m0, f0, root, v, k, a, k, ZeroPage(), RWU, Zeroes(RWU));
      PaidNext(m0, k0, u0, m, kf, u, vm, root, v, k, k, Pages(v, Count(newTop)), ok);
      if !ok { return 0, false; }
      k := k + 1;
      a := a + PGSIZE;
    }
    PaidMeans(m0, k0, u0, vm.View(), vm.kpool.free, vm.upool.free, root, Pages(v, k));
    return newTop, true;
  }

  lemma RwuPerm()
    ensures LeafPerm(RWU) && UserPerm(RWU)
  {}

  lemma TopsInPages(a: nat, b: nat)
    requires a <= b <= VA_MAX
    ensures Count(a) <= Count(b) <= VPNS && RoundUp(a) == Count(a) * PGSIZE
    ensures b <= Count(b) * PGSIZE < b + PGSIZE
  {}

  /** uvm_ustack_grow: -1 outside the stack area, the old size when the page is there already, and else
      the new number of pages; panics (not ok) when a pool is empty. */
  method StackGrow(vm: Vm, root: nat, pages: nat, fault: nat, mmapEnd: nat) returns (newPages: int, ok: bool)
    requires vm.Valid() && root in vm.roots && pages <= STACK_TOP
    modifies vm, vm.kpool, vm.upool
    ensures vm.Valid() && vm.roots == old(vm.roots)
    ensures fault >= TRAPFRAME || fault < mmapEnd ==> ok && newPages == -1
    ensures mmapEnd <= fault < TRAPFRAME && ok ==> newPages == MaxOf(pages, STACK_TOP - fault / PGSIZE)
    ensures ok && newPages <= pages ==> vm.View() == old(vm.View()) && vm.frames == old(vm.frames)
    ensures ok && newPages <= pages ==> vm.Books(root) == old(vm.Books(root))
    ensures ok && newPages >= pages ==> newPages <= STACK_TOP
    ensures ok && newPages >= pages ==>
              Laid(old(vm.View()), old(vm.frames), vm.View(), vm.frames, root, STACK_TOP - newPages, STACK_TOP - pages,
                  Zeroes(RWU))
    ensures !ok ==> NoMemory(vm)
    ensures mmapEnd <= fault < TRAPFRAME ==>
              (ok <==> Affords(old(vm.View()), old(vm.kpool.free), old(vm.upool.free), root,
                      Pages(fault / PGSIZE, STACK_TOP - pages)))
    ensures ok && newPages >= pages ==>
              Clean(old(vm.View()), root, STACK_TOP - newPages, newPages - pages) ==>
                vm.Books(root) == old(vm.Books(root))
  {
    hide Vm.Valid, Vm.View, Pte, Laid, RoundDown, WithValid, LeafPerm, UserPerm, ZeroPage, Affords, Paid, Pages,
         Vm.Books, Clean, Own;
    ghost var m0, f0, k0, u0 := vm.View(), vm.frames, vm.kpool.free, vm.upool.free;
    LaidNone(m0, f0, root, STACK_TOP - pages, Zeroes(RWU));
    NoNeed(m0, k0, u0, root, fault / PGSIZE, STACK_TOP - pages);
    RwuPerm();
    StackBounds(fault, pages);
    if fault >= TRAPFRAME { return -1, true; }
    if fault < mmapEnd { return -1, true; }
    var bottom := TRAPFRAME - pages * PGSIZE;
    if fault >= bottom { return pages, true; }
    var target := RoundDown(fault);
    var needed := (bottom - target) / PGSIZE;
    ghost var lo := STACK_TOP - pages;
    var i := 0;
    while i < needed
      invariant i <= needed && vm.Valid() && vm.roots == old(vm.roots)
      invariant Laid(m0, f0, vm.View(), vm.frames, root, lo - i, STACK_TOP - pages, Zeroes(RWU))
      invariant Paid(m0, k0, u0, vm.View(), vm.kpool.free, vm.upool.free, root, Pages(lo - i, lo))
      invariant Clean(m0, root, lo - needed, needed) ==> vm.Books(root) == old(vm.Books(root))
    {
      TargetAt(m0, f0, vm.View(), vm.frames, Zeroes(RWU), root, lo - i, lo, lo - needed, needed, lo - i - 1);
      var va := bottom - (i + 1) * PGSIZE;
      ghost var m, k, u := vm.View(), vm.kpool.free, vm.upool.free;
      ok := LayBefore(vm, m0, f0, root, lo - i, STACK_TOP - pages, va, lo - i - 1, ZeroPage(), RWU, Zeroes(RWU));
      PaidNext(m0, k0, u0, m, k, u, vm, root, lo - i, lo, lo - i - 1, Pages(lo - needed, lo), ok);
      if !ok { return 0, false; }
      i := i + 1;
    }
    PaidMeans(m0, k0, u0, vm.View(), vm.kpool.free, vm.upool.free, root, Pages(lo - needed, lo));
    return pages + needed, true;
  }

  lemma NoNeed(m: Mem, kfree: seq<nat>, ufree: seq<nat>, root: nat, lo: nat, hi: nat)
    ensures lo >= hi ==> Affords(m, kfree, ufree, root, Pages(lo, hi))
    ensures Paid(m, kfree, ufree, m, kfree, ufree, root, Pages(hi, hi))
  {
    PaidNone(m, kfree, ufree, root, hi);
    hide Paid, Lacking;
    if lo >= hi {
      assert Pages(lo, hi) == Pages(hi, hi);
      PaidMeans(m, kfree, ufree, m, kfree, ufree, root, Pages(hi, hi));
    }
  }

  /** The first page above the user stack. */
  const STACK_TOP: nat := TRAPFRAME / PGSIZE

  function MaxOf(a: int, b: int): int { if a < b then b else a }

  lemma StackBounds(fault: nat, pages: nat)
    requires pages <= STACK_TOP
    ensures STACK_TOP * PGSIZE == TRAPFRAME && STACK_TOP < VPNS
    ensures fault < TRAPFRAME ==> fault / PGSIZE < STACK_TOP
    ensures fault < TRAPFRAME - pages * PGSIZE ==>
              (TRAPFRAME - pages * PGSIZE - RoundDown(fault)) / PGSIZE == STACK_TOP - pages - fault / PGSIZE > 0
    ensures TRAPFRAME - pages * PGSIZE <= fault ==> STACK_TOP - fault / PGSIZE <= pages
  {
    assert TRAPFRAME - pages * PGSIZE - RoundDown(fault) == (STACK_TOP - pages - fault / PGSIZE) * PGSIZE;
  }

  /** The first page that uvm_heap_ungrow unmaps. */
  function UngrowFrom(top: nat, bytes: nat): nat {
    var p := Count(if top > bytes then top - bytes else 0);
    if p < 2 then 2 else p
  }

  /** uvm_heap_ungrow */
  method HeapUngrow(vm: Vm, root: nat, top: nat, bytes: nat) returns (newTop: nat)
    requires vm.Valid() && root in vm.roots && top + 2 * PGSIZE <= U64
    requires UngrowFrom(top, bytes) <= Count(top) ==>
               UserRange(vm.View(), root, UngrowFrom(top, bytes), Count(top) - UngrowFrom(top, bytes))
    modifies vm`tables, vm`owner, vm.upool
    ensures vm.Valid()
    ensures newTop == if top > bytes then top - bytes else 0
    ensures var v := UngrowFrom(top, bytes);
            var n := if bytes != 0 && Count(top) > v then Count(top) - v else 0;
            && Unmapped(old(vm.View()), vm.View(), root, v, n)
            && vm.upool.free == FramesOf(old(vm.View()), root, v, n) + old(vm.upool.free)
    ensures vm.Books(root) == old(vm.Books(root))
  {
    hide Vm.Valid, Vm.View, Pte, UserRange, RoundUp, Count, Unmapped, Vm.Books;
    UnmappedNone(vm.View(), root, UngrowFrom(top, bytes));
    ghost var v := UngrowFrom(top, bytes);
    newTop := if top > bytes then top - bytes else 0;
    Rounding(top);
    if bytes == 0 { return top; }
    var alignedCurr := RoundUp(top);
    var alignedNew := RoundUp(newTop);
    Rounding(newTop);
    if alignedNew < USER_BASE + PGSIZE { alignedNew := USER_BASE + PGSIZE; }
    assert alignedNew == v * PGSIZE;
    if alignedCurr > alignedNew {
      PageNum(v);
      CountOf(Count(top) - v);
      var ok := vm.UnmapPages(root, alignedNew, alignedCurr - alignedNew, true);
    }
  }

  lemma CountOf(n: nat)
    ensures Count(n * PGSIZE) == n
  {}

  datatype CopyEnd = Done | Missing | Out

  /** copy_virt_range: panics when a source page is missing or a pool is empty. */
  method CopyRange(vm: Vm, src: nat, dst: nat, start: nat, end: nat, ghost v: nat, ghost n: nat) returns (r: CopyEnd)
    requires vm.Valid() && src in vm.roots && dst in vm.roots && src != dst
    requires start == v * PGSIZE && end == (v + n) * PGSIZE && v + n <= VPNS && UserRange(vm.View(), src, v, n)
    modifies vm, vm.kpool, vm.upool
    ensures vm.Valid() && vm.roots == old(vm.roots)
    ensures r == Done ==> Laid(old(vm.View()), old(vm.frames), vm.View(), vm.frames, dst, v, v + n, CopyOf(src))
    ensures r == Out ==> NoMemory(vm)
    ensures r == Missing ==> exists w :: v <= w < v + n && !UserPage(old(vm.View()), src, w)
    ensures r == Done && Clean(old(vm.View()), dst, v, n) ==> vm.Books(dst) == old(vm.Books(dst))
    ensures r == Done <==>
              && (forall w :: v <= w < v + n ==> UserPage(old(vm.View()), src, w))
              && Affords(old(vm.View()), old(vm.kpool.free), old(vm.upool.free), dst, Pages(v, v + n))
    ensures r == Done ==>
              Paid(old(vm.View()), old(vm.kpool.free), old(vm.upool.free), vm.View(), vm.kpool.free, vm.upool.free,
                  dst, Pages(v, v + n))
  {
    hide Clean, Own, Vm.Books, Vm.Valid, Vm.View, Pte, Laid, UserRange, UserPage, Content, IsValid, User, Flags, Pa,
         WithValid, LeafPerm, UserPerm, Vm.At, Grew, SameLookups, Affords, Paid, Pages, Tabled, Broke;
    ghost var m0, f0, k0, u0 := vm.View(), vm.frames, vm.kpool.free, vm.upool.free;
    LaidNone(m0, f0, dst, v, CopyOf(src));
    PaidNone(m0, k0, u0, dst, v);
    var va := start;
    ghost var k := v;
    while va < end
      invariant va == k * PGSIZE && v <= k <= v + n && vm.Valid() && vm.roots == old(vm.roots)
      invariant Laid(m0, f0, vm.View(), vm.frames, dst, v, k, CopyOf(src))
      invariant Clean(m0, dst, v, n) ==> vm.Books(dst) == old(vm.Books(dst))
      invariant forall w :: v <= w < k ==> UserPage(m0, src, w)
      invariant Paid(m0, k0, u0, vm.View(), vm.kpool.free, vm.upool.free, dst, Pages(v, k))
      decreases end - va
    {
      ghost var m, kf, u := vm.View(), vm.kpool.free, vm.upool.free;
      PageNum(k);
      TargetAt(m0, f0, vm.View(), vm.frames, CopyOf(src), dst, v, k, v, n, k);
      SourceAt(vm, m0, f0, src, dst, v, k, n);
      var w := vm.GetPte(src, va, false);
      if !w.Slot? { return Missing; }
      var e := vm.tables[w.table][w.idx];
      if !IsValid(e) { return Missing; }
      var ok := LayAfter(vm, m0, f0, dst, v, k, va, k, vm.frames[Pa(e)], Flags(e), CopyOf(src));
      PaidNext(m0, k0, u0, m, kf, u, vm, dst, v, k, k, Pages(v, v + n), ok);
      if !ok { return Out; }
      k := k + 1;
      va := va + PGSIZE;
    }
    PaidMeans(m0, k0, u0, vm.View(), vm.kpool.free, vm.upool.free, dst, Pages(v, v + n));
    return Done;
  }


  /** What the copy finds at page `k` of the source. */
  lemma SourceAt(vm: Vm, m0: Mem, f0: map<nat, Page>, src: nat, dst: nat, v: nat, k: nat, n: nat)
    requires vm.Valid() && src != dst && v <= k < v + n && k < VPNS
    requires Laid(m0, f0, vm.View(), vm.frames, dst, v, k, CopyOf(src)) && UserRange(m0, src, v, n)
    ensures var e := Pte(vm.View(), src, k);
            && e == Pte(m0, src, k) && !IsValid(0)
            && (!IsValid(e) ==> !UserPage(m0, src, k))
            && (IsValid(e) ==>
                UserPage(m0, src, k) && Pa(e) in vm.frames && vm.frames[Pa(e)] == Content(m0, f0, src, k))
            && (IsValid(e) ==> LeafPerm(Flags(e)) && UserPerm(Flags(e)) && WithValid(Flags(e)) == Flags(e))
  {
    hide Consistent, Pooled, Vm.Pools, Pte, Pa, Level, LeafPos;
    var e := Pte(vm.View(), src, k);
    assert e == Pte(m0, src, k);
    if IsValid(e) {
      assert UserPage(m0, src, k);
      LeafFrame(vm.View(), vm.owner, vm.kpool, vm.kpool.free, vm.upool, vm.upool.free, vm.frames.Keys, src, k);
      assert Content(vm.View(), vm.frames, src, k) == Content(m0, f0, src, k);
    }
  }
}
