/** Destroying a page table (uvm_destroy_pgtbl of mem/uvm.c). */
module TableFree {
  import opened PageAccounts
  import opened RadixForest
  import opened PageTree
  import opened PageTables
  import Pmem

  /** The table pages among `s`. */
  ghost function TablesIn(owner: map<nat, Pos>, s: set<nat>): set<nat> {
    set b | b in s && b in owner && Level(RANK, owner[b]) > 0
  }

  /** The user frames among `s`. */
  ghost function FramesIn(owner: map<nat, Pos>, s: set<nat>): set<nat> {
    set b | b in s && b in owner && Level(RANK, owner[b]) <= 0
  }

  /** Exactly the pages `s` have been given back to their pools, whose free pages were `k0` and `u0`. */
  ghost predicate Freed(vm: Vm, k0: set<nat>, u0: set<nat>, s: set<nat>)
    reads vm, vm.kpool, vm.upool
  {
    && vm.Pools()
    && Elements(vm.kpool.free) == k0 + TablesIn(vm.owner, s)
    && Elements(vm.upool.free) == u0 + FramesIn(vm.owner, s)
  }

  /** None of the pages `s` is free initially. */
  ghost predicate HeldAt(vm: Vm, k0: set<nat>, u0: set<nat>, s: set<nat>)
    reads vm
  {
    forall b {:trigger b in s} :: b in s && b in vm.owner ==>
      if Level(RANK, vm.owner[b]) > 0 then vm.kpool.InRange(b) && b !in k0
      else vm.upool.InRange(b) && b !in u0
  }

  lemma FreedNone(vm: Vm, k0: set<nat>, u0: set<nat>, s: set<nat>)
    requires vm.Pools() && k0 == Elements(vm.kpool.free) && u0 == Elements(vm.upool.free) && s == {}
    ensures Freed(vm, k0, u0, s)
  {
    hide Level, Vm.Pools;
  }

  /** The free sets midway. */
  lemma FreedSets(vm: Vm, k0: set<nat>, u0: set<nat>, s: set<nat>)
    requires Freed(vm, k0, u0, s)
    ensures vm.Pools()
    ensures Elements(vm.kpool.free) == k0 + TablesIn(vm.owner, s)
    ensures Elements(vm.upool.free) == u0 + FramesIn(vm.owner, s)
  {
    hide Level, Vm.Pools;
  }

  /** Freeing `t` after `s` frees `s + t`. */
  lemma FreedJoin(vm: Vm, k0: set<nat>, u0: set<nat>, k1: set<nat>, u1: set<nat>, s: set<nat>, t: set<nat>)
    requires k1 == k0 + TablesIn(vm.owner, s) && u1 == u0 + FramesIn(vm.owner, s) && Freed(vm, k1, u1, t)
    ensures Freed(vm, k0, u0, s + t)
  {
    hide Level, Vm.Pools;
    assert TablesIn(vm.owner, s + t) == TablesIn(vm.owner, s) + TablesIn(vm.owner, t);
    assert FramesIn(vm.owner, s + t) == FramesIn(vm.owner, s) + FramesIn(vm.owner, t);
  }

  /** What has been freed does not include pages outside `s`. */
  lemma StillHeld(vm: Vm, k0: set<nat>, u0: set<nat>, s: set<nat>, t: set<nat>, all: set<nat>)
    requires Freed(vm, k0, u0, s) && HeldAt(vm, k0, u0, all) && t <= all && s !! t
    ensures HeldAt(vm, Elements(vm.kpool.free), Elements(vm.upool.free), t)
  {
    hide Level, Vm.Pools;
  }

  /** A table page and what lies behind its entries. */
  lemma TableSplit(m: Mem, owner: map<nat, Pos>, p: Pos, t: nat)
    requires Consistent(m, owner) && t != 0 && Ptr(Trees(m), p) == t && Level(RANK, p) > 0
    ensures BelowFirst(owner, p, 0) == {} && Below(owner, p) == BelowFirst(owner, p, ENTRIES) + {t}
    ensures t !in BelowFirst(owner, p, ENTRIES) && t in owner && owner[t] == p && t in m.tables && t in Below(owner, p)
  {
    PtrEntry(m, owner, p, 0);
    assert t in Trees(m).kids && |Trees(m).kids[t]| == ENTRIES && Trees(m).rank == RANK;
    hide Trees, Ptr, Level;
    BelowAll(Trees(m), owner, p, ENTRIES);
  }

  /** What one round meets: entry `i` leads to everything below cell `Sub(p, i)`. */
  lemma EntryFacts(m: Mem, owner: map<nat, Pos>, p: Pos, t: nat, i: nat)
    requires Consistent(m, owner) && t != 0 && Ptr(Trees(m), p) == t && Level(RANK, p) > 0 && i < ENTRIES
    ensures t in m.tables && Level(RANK, Sub(p, i)) == Level(RANK, p) - 1
    ensures var e := m.tables[t][i]; var c := Ptr(Trees(m), Sub(p, i));
            && c == (if IsValid(e) && (Level(RANK, p) > 1 || User(e)) then Pa(e) else 0)
            && (IsValid(e) && (Level(RANK, p) > 1 || User(e)) ==> c != 0)
            && (c == 0 ==> Below(owner, Sub(p, i)) == {})
            && (c != 0 && Level(RANK, p) == 1 ==> Below(owner, Sub(p, i)) == {c} && c in owner && owner[c] == Sub(p, i))
    ensures BelowFirst(owner, p, i + 1) == BelowFirst(owner, p, i) + Below(owner, Sub(p, i))
    ensures BelowFirst(owner, p, i) !! Below(owner, Sub(p, i)) && Below(owner, Sub(p, i)) <= Below(owner, p)
  {
    PtrEntry(m, owner, p, i);
    SubLevel(p, i);
    EntryOwn(m, owner, t, i);
    assert Trees(m).rank == RANK;
    hide Trees, Level, IsValid, User, Pa, Own;
    BelowNext(owner, p, i);
    BelowSub(owner, p, i);
    var c := Ptr(Trees(m), Sub(p, i));
    if c == 0 { BelowEmpty(Trees(m), owner, Sub(p, i)); }
    if c != 0 && Level(RANK, p) == 1 {
      BelowAll(Trees(m), owner, Sub(p, i), 0);
      assert BelowFirst(owner, Sub(p, i), 0) == {};
    }
  }

  lemma BelowSub(owner: map<nat, Pos>, p: Pos, i: nat)
    ensures Below(owner, Sub(p, i)) <= Below(owner, p)
  {
    forall b | b in owner && Under(Sub(p, i), owner[b]) ensures Under(p, owner[b]) { UnderBranch(p, owner[b], i); }
  }

  lemma EntryOwn(m: Mem, owner: map<nat, Pos>, t: nat, i: nat)
    requires Consistent(m, owner) && t in owner && t in m.tables && Level(RANK, owner[t]) > 0 && i < ENTRIES
    ensures var e := m.tables[t][i];
            && Own(e) == (if IsValid(e) && (Level(RANK, owner[t]) > 1 || User(e)) then Pa(e) else 0)
            && (IsValid(e) && (Level(RANK, owner[t]) > 1 || User(e)) ==> Pa(e) != 0)
  {
    hide Level, Owned, Flags;
  }

  /** free_pagetable_recursive: give back the table `t` of cell `p` with everything behind it. */
  method FreeTable(vm: Vm, ghost p: Pos, t: nat, level: nat)
    requires vm.Pools() && Consistent(vm.View(), vm.owner) && vm.At(p, t) && Level(RANK, p) == level + 1
    requires HeldAt(vm, Elements(vm.kpool.free), Elements(vm.upool.free), Below(vm.owner, p))
    modifies vm.kpool, vm.upool
    ensures Freed(vm, Elements(old(vm.kpool.free)), Elements(old(vm.upool.free)), Below(vm.owner, p))
    decreases level, 1
  {
    hide Trees, Ptr, Cell, TablesOk, Owned, Own, Owns, Level, Below, BelowFirst, HeldAt, Freed, Elements, TablesIn,
         FramesIn, Vm.Pools;
    ghost var k0, u0 := Elements(vm.kpool.free), Elements(vm.upool.free);
    TableSplit(vm.View(), vm.owner, p, t);
    FreedNone(vm, k0, u0, BelowFirst(vm.owner, p, 0));
    var i := 0;
    while i < ENTRIES
      invariant 0 <= i <= ENTRIES
      invariant Freed(vm, k0, u0, BelowFirst(vm.owner, p, i))
    {
      FreeEntry(vm, p, t, level, i, k0, u0);
      i := i + 1;
    }
    FreePage(vm, p, t, true, k0, u0, BelowFirst(vm.owner, p, ENTRIES), Below(vm.owner, p));
  }

  /** One round of free_pagetable_recursive. */
  method FreeEntry(vm: Vm, ghost p: Pos, t: nat, level: nat, i: nat, ghost k0: set<nat>, ghost u0: set<nat>)
    requires Consistent(vm.View(), vm.owner) && vm.At(p, t) && Level(RANK, p) == level + 1 && i < ENTRIES
    requires HeldAt(vm, k0, u0, Below(vm.owner, p)) && Freed(vm, k0, u0, BelowFirst(vm.owner, p, i))
    modifies vm.kpool, vm.upool
    ensures Freed(vm, k0, u0, BelowFirst(vm.owner, p, i + 1))
    decreases level, 0
  {
    hide Trees, Ptr, Cell, TablesOk, Owned, Own, Owns, Level, Below, BelowFirst, HeldAt, Freed, Elements, TablesIn,
         FramesIn, Vm.Pools, IsValid, User, Pa, Consistent;
    ghost var q, s := Sub(p, i), BelowFirst(vm.owner, p, i);
    EntryFacts(vm.View(), vm.owner, p, t, i);
    FreedSets(vm, k0, u0, s);
    StillHeld(vm, k0, u0, s, Below(vm.owner, q), Below(vm.owner, p));
    var pte := vm.tables[t][i];
    if IsValid(pte) {
      var child := Pa(pte);
      if level > 0 {
        FreeTable(vm, q, child, level - 1);
        FreedJoin(vm, k0, u0, Elements(old(vm.kpool.free)), Elements(old(vm.upool.free)), s, Below(vm.owner, q));
      } else {
        if User(pte) {
          FreePage(vm, q, child, false, k0, u0, s, Below(vm.owner, p));
        }
      }
    }
    assert s + {} == s;
  }

  /** pmem_free of the page `b` of cell `p`, which is not yet among the freed pages `s`. */
  method FreePage(vm: Vm, ghost p: Pos, b: nat, inKernel: bool, ghost k0: set<nat>, ghost u0: set<nat>,
                  ghost s: set<nat>, ghost all: set<nat>)
    requires Freed(vm, k0, u0, s) && HeldAt(vm, k0, u0, all) && b in all && b !in s
    requires b in vm.owner && vm.owner[b] == p && (inKernel <==> Level(RANK, p) > 0)
    modifies vm.kpool, vm.upool
    ensures Freed(vm, k0, u0, s + {b})
  {
    NotFreed(vm, k0, u0, s, b, all);
    FreedSets(vm, k0, u0, s);
    hide Level, Freed, HeldAt, Elements, TablesIn, FramesIn, Vm.Pools, Pmem.Pool.Valid;
    ghost var k1, u1 := Elements(vm.kpool.free), Elements(vm.upool.free);
    PoolsOf(vm);
    if inKernel {
      var ok := vm.kpool.Free(b);
      ElementsPush(old(vm.kpool.free), b);
    } else {
      var ok := vm.upool.Free(b);
      ElementsPush(old(vm.upool.free), b);
    }
    FreedOne(vm, k1, u1, b);
    FreedJoin(vm, k0, u0, k1, u1, s, {b});
  }

  lemma PoolsOf(vm: Vm)
    ensures vm.Pools() <==>
              vm.kpool != vm.upool && vm.kpool.Valid() && vm.upool.Valid() && vm.kpool.end <= vm.upool.begin
  {
    hide Pmem.Pool.Valid;
  }

  lemma NotFreed(vm: Vm, k0: set<nat>, u0: set<nat>, s: set<nat>, b: nat, all: set<nat>)
    requires Freed(vm, k0, u0, s) && HeldAt(vm, k0, u0, all) && b in all && b !in s && b in vm.owner
    ensures if Level(RANK, vm.owner[b]) > 0 then vm.kpool.InRange(b) && b !in vm.kpool.free
              else vm.upool.InRange(b) && b !in vm.upool.free
  {
    hide Level, Vm.Pools;
    assert b in vm.kpool.free ==> b in Elements(vm.kpool.free);
    assert b in vm.upool.free ==> b in Elements(vm.upool.free);
  }

  lemma ElementsPush(s: seq<nat>, b: nat)
    ensures Elements([b] + s) == Elements(s) + {b}
  {
    forall x ensures x in Elements([b] + s) <==> x in Elements(s) + {b} { assert x in [b] + s <==> x == b || x in s; }
  }

  lemma FreedOne(vm: Vm, k1: set<nat>, u1: set<nat>, b: nat)
    requires vm.Pools() && b in vm.owner
    requires Elements(vm.kpool.free) == k1 + if Level(RANK, vm.owner[b]) > 0 then {b} else {}
    requires Elements(vm.upool.free) == u1 + if Level(RANK, vm.owner[b]) > 0 then {} else {b}
    ensures Freed(vm, k1, u1, {b})
  {
    hide Level, Vm.Pools, Elements;
  }

  /** Everything that hangs on the root of a page table. */
  ghost function TreeOf(owner: map<nat, Pos>, root: nat): set<nat> {
    set b | b in owner && Root(owner[b]) == root
  }

  /** uvm_destroy_pgtbl: gives back every table page and every user frame of the table, each once,
      and leaves every other table as it was. */
  method DestroyPgtbl(vm: Vm, root: nat)
    requires vm.Valid() && root in vm.roots
    modifies vm, vm.kpool, vm.upool
    ensures vm.Valid() && vm.roots == old(vm.roots) - {root} && vm.frames == old(vm.frames)
    ensures Elements(vm.kpool.free) == Elements(old(vm.kpool.free)) +
              TablesIn(old(vm.owner), TreeOf(old(vm.owner), root))
    ensures Elements(vm.upool.free) == Elements(old(vm.upool.free)) +
              FramesIn(old(vm.owner), TreeOf(old(vm.owner), root))
    // nothing of it was free before, so each page came back exactly once
    ensures Elements(old(vm.kpool.free)) !! TreeOf(old(vm.owner), root)
    ensures Elements(old(vm.upool.free)) !! TreeOf(old(vm.owner), root)
    ensures vm.owner == WithoutRoot(old(vm.owner), root)
    ensures vm.Books(root) == old(vm.Books(root))
    ensures forall q: nat, w: nat {:trigger Pte(vm.View(), q, w)} ::
              Pte(vm.View(), q, w) == if q == root then 0 else Pte(old(vm.View()), q, w)
  {
    hide Trees, Ptr, Cell, TablesOk, Owned, Own, Owns, Level, Below, Freed, Elements, TablesIn, FramesIn, Pooled,
         WithoutRoot, TreeOf, HeldAt, Pte, Vm.Pools, AccountOf;
    ghost var k0, u0 := Elements(vm.kpool.free), Elements(vm.upool.free);
    RootOk(vm.View(), vm.owner, root);
    Levels(root, 0);
    AllHeld(vm, root);
    LeavesFramed(vm);
    FreeTable(vm, RootPos(root), root, 2);
    FreedSets(vm, k0, u0, TreeOf(vm.owner, root));
    DropRootKeeps(vm.View(), vm.owner, root);
    Dropped(vm, root, k0, u0, vm.frames.Keys);
    ghost var m := vm.View();
    GivenBack(root, vm.owner, old(vm.kpool.free), old(vm.upool.free), vm.kpool.free, vm.upool.free);
    vm.roots := vm.roots - {root};
    vm.owner := WithoutRoot(vm.owner, root);
    assert vm.View() == DropRoot(m, root);
  }

  /** Giving back all pages of table `root` keeps its account. */
  lemma GivenBack(root: nat, owner: map<nat, Pos>, k0: seq<nat>, u0: seq<nat>, k: seq<nat>, u: seq<nat>)
    requires Elements(k) == Elements(k0) + TablesIn(owner, TreeOf(owner, root))
    requires Elements(u) == Elements(u0) + FramesIn(owner, TreeOf(owner, root))
    ensures AccountOf(root, WithoutRoot(owner, root), k, u) == AccountOf(root, owner, k0, u0)
  {
    hide Level, Elements;
    var rest := WithoutRoot(owner, root);
    assert WithoutRoot(rest, root) == rest;
    assert Tables(owner) == Tables(rest) + TablesIn(owner, TreeOf(owner, root));
    assert Leaves(owner) == Leaves(rest) + FramesIn(owner, TreeOf(owner, root));
  }

  /** Before destruction every page of the table is held. */
  lemma AllHeld(vm: Vm, root: nat)
    requires vm.Valid()
    ensures vm.Pools() && Below(vm.owner, RootPos(root)) == TreeOf(vm.owner, root)
    ensures HeldAt(vm, Elements(vm.kpool.free), Elements(vm.upool.free), vm.owner.Keys)
    ensures HeldAt(vm, Elements(vm.kpool.free), Elements(vm.upool.free), TreeOf(vm.owner, root))
    ensures Elements(vm.kpool.free) !! TreeOf(vm.owner, root) && Elements(vm.upool.free) !! TreeOf(vm.owner, root)
  {
    forall b | b in vm.owner ensures Under(RootPos(root), vm.owner[b]) <==> Root(vm.owner[b]) == root {
      UnderTop(root, 0, vm.owner[b]);
      OnlySlot(vm.View(), vm.owner, b);
    }
    hide Level, Consistent, Under, Root, RootSlot;
  }

  lemma OnlySlot(m: Mem, owner: map<nat, Pos>, b: nat)
    requires Consistent(m, owner) && b in owner
    ensures RootSlot(owner[b]) == 0
  {
    hide TablesOk;
    SlotZero(m, owner[b]);
  }

  lemma {:induction false} SlotZero(m: Mem, p: Pos)
    requires Ptr(Trees(m), p) != 0
    ensures RootSlot(p) == 0
  {
    if p.Sub? { SlotZero(m, p.up); }
  }

  /** The pages of the remaining tables stay taken. */
  lemma Dropped(vm: Vm, root: nat, k0: set<nat>, u0: set<nat>, frames: set<nat>)
    requires HeldAt(vm, k0, u0, vm.owner.Keys)
    requires Elements(vm.kpool.free) == k0 + TablesIn(vm.owner, TreeOf(vm.owner, root))
    requires Elements(vm.upool.free) == u0 + FramesIn(vm.owner, TreeOf(vm.owner, root))
    requires forall b {:trigger vm.owner[b]} :: b in vm.owner && Level(RANK, vm.owner[b]) <= 0 ==> b in frames
    ensures Pooled(WithoutRoot(vm.owner, root), vm.kpool, vm.kpool.free, vm.upool, vm.upool.free, frames)
  {
    hide Level, Root;
    forall b | b in WithoutRoot(vm.owner, root)
      ensures b in vm.kpool.free ==> b in k0
      ensures b in vm.upool.free ==> b in u0
    {
      assert b in vm.kpool.free ==> b in Elements(vm.kpool.free);
      assert b in vm.upool.free ==> b in Elements(vm.upool.free);
    }
  }

  lemma LeavesFramed(vm: Vm)
    requires vm.Valid()
    ensures forall b {:trigger vm.owner[b]} :: b in vm.owner && Level(RANK, vm.owner[b]) <= 0 ==> b in vm.frames
  {
    hide Level, Consistent, Vm.Pools;
  }

  /** The user frames that hang on a table are exactly the frames behind its user entries, so destroying the
      table of a forked child gives back exactly the frames its pages were copied to. */
  lemma FramesBehind(m: Mem, owner: map<nat, Pos>, root: nat)
    requires Consistent(m, owner)
    ensures forall b :: b in FramesIn(owner, TreeOf(owner, root)) <==>
                        exists v: nat :: IsValid(Pte(m, root, v)) && User(Pte(m, root, v)) && Pa(Pte(m, root, v)) == b
  {
    hide Consistent, Level, Pte, Pa, IsValid, User;
    forall b | b in FramesIn(owner, TreeOf(owner, root))
      ensures exists v: nat :: IsValid(Pte(m, root, v)) && User(Pte(m, root, v)) && Pa(Pte(m, root, v)) == b
    {
      var v := LeafFor(m, owner, root, b);
    }
    forall v: nat | IsValid(Pte(m, root, v)) && User(Pte(m, root, v))
      ensures Pa(Pte(m, root, v)) in FramesIn(owner, TreeOf(owner, root))
    {
      EntryOwned(m, owner, root, v);
    }
  }

  lemma EntryOwned(m: Mem, owner: map<nat, Pos>, root: nat, v: nat)
    requires Consistent(m, owner) && IsValid(Pte(m, root, v)) && User(Pte(m, root, v))
    ensures Pa(Pte(m, root, v)) in FramesIn(owner, TreeOf(owner, root))
  {
    LeafOwns(m, owner, root, v);
    UserEntry(m, owner, root, v);
    Levels(root, v);
    hide Pte, LeafEntry;
    assert Root(L1Pos(root, v)) == root && Root(L0Pos(root, v)) == root;
    assert Root(LeafPos(root, v)) == root;
  }

  /** A valid user entry has a frame. */
  lemma UserEntry(m: Mem, owner: map<nat, Pos>, root: nat, v: nat)
    requires Consistent(m, owner)
    ensures var e := Pte(m, root, v); LeafEntry(e) && (Own(e) != 0 ==> IsValid(e) && User(e) && Pa(e) == Own(e))
  {
    var p := L0Pos(root, v);
    Levels(root, v);
    hide L0Pos, Owns;
    if Ptr(Trees(m), p) != 0 { PtrEntry(m, owner, p, Vpn0(v)); }
  }

  /** The page whose entry leads to frame `b`. */
  lemma LeafFor(m: Mem, owner: map<nat, Pos>, root: nat, b: nat) returns (v: nat)
    requires Consistent(m, owner) && b in FramesIn(owner, TreeOf(owner, root))
    ensures IsValid(Pte(m, root, v)) && User(Pte(m, root, v)) && Pa(Pte(m, root, v)) == b
  {
    var p := owner[b];
    v := PageAt(m, p);
    LeafOwns(m, owner, root, v);
    UserEntry(m, owner, root, v);
    hide Pte, LeafEntry;
  }

  lemma {:induction false} TopLevel(m: Mem, p: Pos)
    requires Ptr(Trees(m), p) != 0
    ensures Level(RANK, p) <= 3 && (Level(RANK, p) == 3 ==> p == RootPos(Root(p)))
  {
    if p.Sub? { TopLevel(m, p.up); }
  }

  lemma PageAt(m: Mem, p: Pos) returns (v: nat)
    requires Ptr(Trees(m), p) != 0 && Level(RANK, p) <= 0
    ensures p == LeafPos(Root(p), v)
  {
    assert p.Sub? && Ptr(Trees(m), p.up) != 0 && Level(RANK, p.up) == 1 && p.j < ENTRIES;
    var q := p.up;
    assert q.Sub? && Ptr(Trees(m), q.up) != 0 && Level(RANK, q.up) == 2 && q.j < ENTRIES;
    var r := q.up;
    assert r.Sub? && Ptr(Trees(m), r.up) != 0 && Level(RANK, r.up) == 3 && r.j < ENTRIES;
    TopLevel(m, r.up);
    assert Root(q) == Root(r) == r.up.who;
    v := PageNumber(r.j, q.j, p.j);
    Digits(r.j, q.j, p.j);
  }

  function PageNumber(i: nat, j: nat, k: nat): nat { 0x40000 * i + ENTRIES * j + k }

  lemma Digits(i: nat, j: nat, k: nat)
    requires i < ENTRIES && j < ENTRIES && k < ENTRIES
    ensures var v := PageNumber(i, j, k); Vpn2(v) == i && Vpn1(v) == j && Vpn0(v) == k
  {
    var v := PageNumber(i, j, k);
    assert v == ENTRIES * (ENTRIES * i + j) + k;
    assert v / ENTRIES == ENTRIES * i + j && v % ENTRIES == k;
    assert v / 0x40000 == i;
  }
}
