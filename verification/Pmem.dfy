/** The free-page pools (mem/pmem.c). */
module Pmem {
  import opened Memory

  predicate PageIn(page: nat, lo: nat, hi: nat) {
    lo <= page < hi && page % PGSIZE == 0
  }

  predicate Aligned(page: nat) { page % PGSIZE == 0 }

  lemma NoPage(lo: nat)
    ensures forall page: nat :: !PageIn(page, lo, lo)
  {}

  lemma NextPage(lo: nat, hi: nat)
    requires lo <= hi && Aligned(hi)
    ensures Aligned(hi + PGSIZE)
    ensures forall page: nat :: PageIn(page, lo, hi + PGSIZE) <==> PageIn(page, lo, hi) || page == hi
  {
    Multiple(hi);
    assert hi + PGSIZE == PGSIZE * (hi / PGSIZE + 1);
    forall page: nat ensures PageIn(page, lo, hi + PGSIZE) <==> PageIn(page, lo, hi) || page == hi {
      if page % PGSIZE == 0 && hi <= page < hi + PGSIZE { Multiple(page); }
    }
  }

  /** An aligned address is a multiple of the page size. */
  lemma Multiple(a: nat)
    requires a % PGSIZE == 0
    ensures a == PGSIZE * (a / PGSIZE)
  {}

  lemma FitsBefore(lo: nat, page: nat, end: nat)
    requires lo <= page < end && Aligned(page) && Aligned(end)
    ensures page + PGSIZE <= end && PageIn(page, lo, end) && !PageIn(page, lo, page)
  {}

  /** A pool of free pages, linked through the first word of each free page. */
  class Pool {
    const begin: nat
    const end: nat
    var allocable: nat
    /** list_head.next; 0 is NULL. */
    var head: nat
    /** The first word of each page that has been on the list. */
    var links: map<nat, nat>
    /** The free pages, first to be handed out first. */
    ghost var free: seq<nat>

    predicate InRange(page: nat) {
      PageIn(page, begin, end)
    }

    /** The free list holds pages of the pool, each once. */
    ghost predicate Valid()
      reads this
    {
      && 0 < begin <= end && Aligned(begin) && Aligned(end)
      && allocable == |free|
      && (forall i {:trigger free[i]} :: 0 <= i < |free| ==> InRange(free[i]))
      && (forall i, j {:trigger free[i], free[j]} :: 0 <= i < j < |free| ==> free[i] != free[j])
      && head == At(0)
      && (forall i {:trigger free[i]} :: 0 <= i < |free| ==> free[i] in links && links[free[i]] == At(i + 1))
    }

    ghost function At(i: nat): nat
      reads this
    {
      if i < |free| then free[i] else 0
    }

    /** init_pool: every page of the range is free. */
    constructor (begin: nat, end: nat)
      requires 0 < begin <= end && Aligned(begin) && Aligned(end)
      ensures Valid() && this.begin == begin && this.end == end
      ensures forall page: nat :: page in free <==> InRange(page)
    {
      this.begin, this.end := begin, end;
      allocable, head, links, free := 0, 0, map[], [];
      new;
      Fill();
    }

    /** The loop of init_pool. */
    method Fill()
      requires Valid() && free == []
      modifies this
      ensures Valid()
      ensures forall page: nat :: page in free <==> InRange(page)
    {
      assert begin <= end && Aligned(begin) && Aligned(end);
      hide PageIn, Aligned, Valid;
      var addr := begin;
      NoPage(begin);
      while addr < end
        invariant begin <= addr <= end && Aligned(addr) && Valid()
        invariant forall page: nat :: page in free <==> PageIn(page, begin, addr)
      {
        NextPage(begin, addr);
        FitsBefore(begin, addr, end);
        Push(addr);
        addr := addr + PGSIZE;
      }
    }

    /** pmem_alloc: the page at the head of the list; panics (not ok) when there is none. */
    method Alloc() returns (page: nat, ok: bool)
      requires Valid()
      modifies this
      ensures Valid()
      ensures ok <==> old(free) != []
      ensures ok ==> old(free) == [page] + free && InRange(page) && page != 0 && page !in free
      ensures !ok ==> free == old(free)
    {
      page := head;
      if page == 0 {
        return 0, false;
      }
      assert page == free[0];
      head := links[page];
      allocable := allocable - 1;
      free := free[1..];
      return page, true;
    }

    /** pmem_free: panics (not ok) on an address that is not a page of the pool. */
    method Free(page: nat) returns (ok: bool)
      requires Valid() && page !in free
      modifies this
      ensures Valid()
      ensures ok <==> InRange(page)
      ensures free == if ok then [page] + old(free) else old(free)
    {
      if page % PGSIZE != 0 { return false; }
      if page < begin || page >= end { return false; }
      Push(page);
      return true;
    }

    /** Insert a page at the head of the list. */
    method Push(page: nat)
      requires Valid() && InRange(page) && page !in free
      modifies this
      ensures Valid() && free == [page] + old(free)
    {
      links := links[page := head];
      head := page;
      allocable := allocable + 1;
      free := [page] + free;
    }
  }
}
