/** A forked address space destroyed again: proc_fork of proc/proc.c and uvm_destroy_pgtbl of mem/uvm.c together. */
module ForkUndo {
  import opened Memory
  import opened RadixForest
  import opened PageTree
  import opened PageTables
  import opened PageAccounts
  import opened Uvm
  import opened Space
  import opened Regions
  import opened TableFree
  import Fork

  /** A cell with a page in it belongs to a table in use. */
  lemma {:induction false} RootInUse(m: Mem, p: Pos)
    requires Ptr(Trees(m), p) != 0
    ensures Root(p) in m.roots
  {
    if p.Sub? { RootInUse(m, p.up); }
  }

  /** A table not in use owns nothing. */
  lemma OwnsNothing(m: Mem, owner: map<nat, Pos>, root: nat)
    requires Consistent(m, owner) && root !in m.roots
    ensures WithoutRoot(owner, root) == owner
  {
    hide Trees, TablesOk;
    forall b | b in owner ensures Root(owner[b]) != root {
      RootInUse(m, owner[b]);
    }
  }

  /** No page is both free and owned. */
  lemma FreeApart(vm: Vm)
    requires vm.Valid()
    ensures Elements(vm.kpool.free) !! Tables(vm.owner) && Elements(vm.upool.free) !! Leaves(vm.owner)
    ensures Consistent(vm.View(), vm.owner) && vm.View().roots == vm.roots
  {
    hide Consistent, Level;
  }

  /** An account fixes the free pages once the owners are the same. */
  lemma SameFree(root: nat, owner: map<nat, Pos>, k0: seq<nat>, u0: seq<nat>, k: seq<nat>, u: seq<nat>)
    requires AccountOf(root, owner, k, u) == AccountOf(root, owner, k0, u0)
    requires Elements(k0) !! Tables(owner) && Elements(u0) !! Leaves(owner)
    requires Elements(k) !! Tables(owner) && Elements(u) !! Leaves(owner)
    ensures Elements(k) == Elements(k0) && Elements(u) == Elements(u0)
  {
    hide Tables, Leaves, Elements, WithoutRoot;
    assert Elements(k) == Elements(k) + Tables(owner) - Tables(owner);
    assert Elements(u) == Elements(u) + Leaves(owner) - Leaves(owner);
  }

  /** Forking and then destroying the child gives back exactly what the fork took: both pools have the same free pages
      as before, and every page of every other table has the same owner. */
  method ForkThenDestroy(parent: AddressSpace, trampoline: nat, trapframe: nat) returns (forked: bool)
    requires parent.Valid() && trampoline % PGSIZE == 0 && trapframe % PGSIZE == 0
    modifies parent.vm, parent.vm.kpool, parent.vm.upool, parent.regions.pool, parent.regions.Stock()
    ensures forked ==> parent.Valid() && parent.Plan() == old(parent.Plan())
    ensures forked ==> parent.vm.roots == old(parent.vm.roots)
    ensures forked ==> Elements(parent.vm.kpool.free) == Elements(old(parent.vm.kpool.free))
    ensures forked ==> Elements(parent.vm.upool.free) == Elements(old(parent.vm.upool.free))
    ensures forked ==> parent.vm.owner == old(parent.vm.owner)
    ensures !forked ==> NoMemory(parent.vm) || parent.regions.pool.free == []
    ensures forked <==>
              Fork.CanFork(old(parent.Plan()), |old(parent.vm.kpool.free)|, |old(parent.vm.upool.free)|,
                  |old(parent.regions.pool.free)|)
  {
    hide Vm.Valid, AddressSpace.Valid, WithoutRoot, Elements, TablesIn, FramesIn, TreeOf, Fork.Twins, Separate, Pte,
         Consistent, Tables, Leaves, Vm.View, RegionList.Valid, AddressSpace.Bounds, MapsExactly,
         Fork.CanFork;
    SpaceParts(parent);
    FreeApart(parent.vm);
    ghost var vm, m0, o0 := parent.vm, parent.vm.View(), parent.vm.owner;
    ghost var k0, u0 := vm.kpool.free, vm.upool.free;
    var child := Fork.ForkSpace(parent, trampoline, trapframe);
    if child == null { return false; }
    SpaceParts(child);
    ghost var root, m1 := child.pgtbl, vm.View();
    SpaceParts(parent);
    OwnsNothing(m0, o0, root);
    DestroyPgtbl(parent.vm, child.pgtbl);
    FreeApart(vm);
    SameFree(root, o0, k0, u0, vm.kpool.free, vm.upool.free);
    SpaceStays(parent, m1);
    return true;
  }

  lemma SpaceParts(space: AddressSpace)
    requires space.Valid()
    ensures space.vm.Valid() && space.pgtbl in space.vm.roots && space.regions.Valid() && space.Bounds()
    ensures MapsExactly(space.vm.View(), space.pgtbl, space.Plan())
  {
    hide Vm.Valid, MapsExactly, RegionList.Valid;
  }

  /** A space whose entries are as in `m` is as well formed as it was. */
  lemma SpaceStays(space: AddressSpace, m: Mem)
    requires space.vm.Valid() && space.pgtbl in space.vm.roots && space.regions.Valid() && space.Bounds()
    requires MapsExactly(m, space.pgtbl, space.Plan())
    requires forall w: nat {:trigger Pte(space.vm.View(), space.pgtbl, w)} :: w < VPNS ==>
               Pte(space.vm.View(), space.pgtbl, w) == Pte(m, space.pgtbl, w)
    ensures space.Valid()
  {
    hide Vm.Valid, MapsExactly, RegionList.Valid, Pte, Vm.View;
    Fork.SameLayout(m, space.vm.View(), space.pgtbl, space.Plan());
  }
}
