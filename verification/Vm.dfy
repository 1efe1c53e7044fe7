/** Walking, filling and emptying page tables (mem/kvm.c) over the two page pools (mem/pmem.c). */
module PageTables {
  import opened Memory
  import opened RadixForest
  import opened PageTree
  import opened PageAccounts
  import opened PageNeeds
  import Pmem

  const U64: nat := 0x1_0000_0000_0000_0000

  type Page = s: seq<Byte> | |s| == PGSIZE witness seq(PGSIZE, _ => 0)

  function ZeroPage(): Page { seq(PGSIZE, _ => 0) }

  /** The outcome of vm_getpte: the place of an entry, NULL, or a panic because no page is left for a table. */
  datatype Walk = Slot(table: nat, idx: nat) | Null | Panic

  // Lookups before and after

  ghost predicate SameLookups(m: Mem, g: Mem) {
    forall r: nat, v: nat {:trigger Pte(g, r, v)} :: Pte(g, r, v) == Pte(m, r, v)
  }

  lemma SameTrans(m: Mem, g: Mem, h: Mem)
    requires SameLookups(m, g) && SameLookups(g, h)
    ensures SameLookups(m, h)
  {
    hide Pte;
  }

  /** Only the lookup of page `v` in table `root` has changed, to `e`. */
  ghost predicate OnlyPte(m: Mem, g: Mem, root: nat, v: nat, e: nat) {
    forall r: nat, w: nat {:trigger Pte(g, r, w)} :: w < VPNS ==>
      Pte(g, r, w) == if r == root && w == v then e else Pte(m, r, w)
  }

  /** `n` pages from page `v` on are mapped to consecutive frames from `pa` on; no other lookup has changed. */
  ghost predicate Mapped(m: Mem, g: Mem, root: nat, v: nat, n: nat, pa: nat, perm: nat)
    requires perm < 1024
  {
    forall r: nat, w: nat {:trigger Pte(g, r, w)} :: w < VPNS ==>
      Pte(g, r, w) == if r == root && v <= w < v + n then MakePte(pa + (w - v) * PGSIZE, perm) else Pte(m, r, w)
  }

  /** The valid entries of `n` pages from page `v` on are cleared; no other lookup has changed. */
  ghost predicate Unmapped(m: Mem, g: Mem, root: nat, v: nat, n: nat) {
    forall r: nat, w: nat {:trigger Pte(g, r, w)} :: w < VPNS ==>
      Pte(g, r, w) == if r == root && v <= w < v + n && IsValid(Pte(m, r, w)) then 0 else Pte(m, r, w)
  }

  lemma OnlyAfterSame(m: Mem, g: Mem, h: Mem, root: nat, v: nat, e: nat)
    requires SameLookups(m, g) && OnlyPte(g, h, root, v, e)
    ensures OnlyPte(m, h, root, v, e)
  {
    hide Pte;
  }

  lemma MappedNext(m: Mem, g: Mem, k: Mem, root: nat, v: nat, n: nat, pa: nat, perm: nat)
    requires perm < 1024 && Mapped(m, g, root, v, n, pa, perm) && v + n < VPNS
    requires OnlyPte(g, k, root, v + n, MakePte(Nth(pa, n), perm))
    ensures Mapped(m, k, root, v, n + 1, pa, perm)
  {
    hide Pte, MakePte;
  }

  lemma UnmappedNext(m: Mem, g: Mem, h: Mem, root: nat, v: nat, n: nat)
    requires Unmapped(m, g, root, v, n) && v + n < VPNS && OnlyPte(g, h, root, v + n, 0)
    requires IsValid(Pte(m, root, v + n))
    ensures Unmapped(m, h, root, v, n + 1)
  {
    hide Pte, IsValid;
  }

  lemma UnmappedSkip(m: Mem, g: Mem, root: nat, v: nat, n: nat)
    requires Unmapped(m, g, root, v, n) && (v + n < VPNS ==> !IsValid(Pte(g, root, v + n)))
    ensures Unmapped(m, g, root, v, n + 1)
  {
    hide Pte, IsValid;
  }

  /** The frames behind the valid entries of `n` pages from page `v` on, last page first. */
  ghost function FramesOf(m: Mem, root: nat, v: nat, n: nat): seq<nat> {
    if n == 0 then []
    else (if v + n - 1 < VPNS && IsValid(Pte(m, root, v + n - 1)) then [Pa(Pte(m, root, v + n - 1))] else []) +
         FramesOf(m, root, v, n - 1)
  }

  function Count(len: nat): nat { (len + PGSIZE - 1) / PGSIZE }

  /** Exactly the pages that begin below byte `len` have a byte of it. */
  lemma CountIs(len: nat, v: nat)
    ensures v < Count(len) <==> v * PGSIZE < len
  {
    var c := Count(len);
    assert PGSIZE * c <= len + PGSIZE - 1 < PGSIZE * c + PGSIZE;
  }

  /** Table pages are taken from the kernel pool, leaf frames from the user pool. */
  ghost predicate Pooled(owner: map<nat, Pos>, k: Pmem.Pool, kfree: seq<nat>, u: Pmem.Pool, ufree: seq<nat>,
                         frames: set<nat>) {
    forall b {:trigger owner[b]} {:trigger b in owner} :: b in owner ==>
      if Level(RANK, owner[b]) > 0 then k.InRange(b) && b !in kfree
      else u.InRange(b) && b !in ufree && b in frames
  }

  lemma PooledTable(owner: map<nat, Pos>, k: Pmem.Pool, kfree: seq<nat>, u: Pmem.Pool, ufree: seq<nat>,
                    frames: set<nat>, b: nat, p: Pos, rest: seq<nat>)
    requires Pooled(owner, k, kfree, u, ufree, frames) && kfree == [b] + rest && k.InRange(b) && b !in rest
    requires Level(RANK, p) > 0
    ensures Pooled(owner[b := p], k, rest, u, ufree, frames)
  {
    hide Level;
    forall c | c in rest ensures c in kfree {}
  }

  lemma PooledReown(owner: map<nat, Pos>, k: Pmem.Pool, kfree: seq<nat>, u: Pmem.Pool, ufree: seq<nat>,
                    frames: set<nat>, p: Pos, was: nat, now: nat)
    requires Pooled(owner, k, kfree, u, ufree, frames) && Level(RANK, p) == 0
    requires now != 0 ==> u.InRange(now) && now !in ufree && now in frames
    ensures Pooled(Reown(owner, p, was, now), k, kfree, u, ufree, frames)
  {
    hide Level;
  }

  lemma PooledAlloc(owner: map<nat, Pos>, k: Pmem.Pool, kfree: seq<nat>, u: Pmem.Pool, ufree: seq<nat>,
                    frames: set<nat>, b: nat, rest: seq<nat>)
    requires Pooled(owner, k, kfree, u, ufree, frames) && ufree == [b] + rest
    ensures Pooled(owner, k, kfree, u, rest, frames + {b})
  {
    hide Level;
    forall c | c in rest ensures c in ufree {}
  }

  lemma PooledFreed(owner: map<nat, Pos>, k: Pmem.Pool, kfree: seq<nat>, u: Pmem.Pool, ufree: seq<nat>,
                    frames: set<nat>, b: nat, p: Pos)
    requires Pooled(owner, k, kfree, u, ufree, frames)
    ensures Pooled(Reown(owner, p, b, 0), k, kfree, u, [b] + ufree, frames)
  {
    hide Level;
  }

  /** A page at the head of the kernel pool's list is not part of any table. */
  lemma FreshPage(owner: map<nat, Pos>, k: Pmem.Pool, kfree: seq<nat>, u: Pmem.Pool, ufree: seq<nat>, frames: set<nat>,
                  b: nat)
    requires Pooled(owner, k, kfree, u, ufree, frames) && k.end <= u.begin
    requires (k.InRange(b) && b in kfree) || (u.InRange(b) && b in ufree)
    ensures b !in owner
  {
    hide Level;
  }

  ghost predicate UsableIn(b: nat, p: Pos, owner: map<nat, Pos>, u: Pmem.Pool, ufree: seq<nat>, frames: set<nat>) {
    u.InRange(b) && b !in ufree && b in frames && (b in owner ==> owner[b] == p)
  }

  /** Frame number `i` from `pa` on may be mapped by the page number `i` from page `v` on. */
  ghost predicate UsableAt(root: nat, v: nat, pa: nat, i: nat, owner: map<nat, Pos>, u: Pmem.Pool, ufree: seq<nat>,
                           frames: set<nat>) {
    UsableIn(Nth(pa, i), LeafPos(root, v + i), owner, u, ufree, frames)
  }

  /** The first `n` frames from `pa` on may be mapped by the pages from page `v` on. */
  ghost predicate AllUsable(root: nat, v: nat, pa: nat, n: nat, owner: map<nat, Pos>, u: Pmem.Pool, ufree: seq<nat>,
                            frames: set<nat>) {
    forall i: nat {:trigger UsableAt(root, v, pa, i, owner, u, ufree, frames)} :: i < n ==>
        UsableAt(root, v, pa, i, owner, u, ufree, frames)
  }

  /** Mapping the first `k` frames leaves the next one usable. */
  lemma UsableNext(root: nat, v: nat, pa: nat, k: nat, n: nat, was: map<nat, Pos>, now: map<nat, Pos>, kp: Pmem.Pool,
                   u: Pmem.Pool, ufree: seq<nat>, frames: set<nat>)
    requires AllUsable(root, v, pa, n, was, u, ufree, frames) && k < n
    requires kp.end <= u.begin && Took(kp, was, now, pa, k)
    ensures UsableIn(Nth(pa, k), LeafPos(root, v + k), now, u, ufree, frames)
  {
    assert UsableAt(root, v, pa, k, was, u, ufree, frames);
  }

  /** A frame stays usable while tables are added. */
  lemma UsableKept(b: nat, p: Pos, was: map<nat, Pos>, now: map<nat, Pos>, k: Pmem.Pool, u: Pmem.Pool, ufree: seq<nat>,
                   frames: set<nat>)
    requires UsableIn(b, p, was, u, ufree, frames) && k.end <= u.begin
    requires Grew(k, was, now)
    ensures UsableIn(b, p, now, u, ufree, frames)
  {}

  /** Pages that got an owner were taken from pool `k`. */
  ghost predicate Grew(k: Pmem.Pool, was: map<nat, Pos>, now: map<nat, Pos>) {
    && (forall b {:trigger now[b]} {:trigger b in was} :: b in was ==> b in now && now[b] == was[b])
    && (forall b {:trigger b in now} :: b in now && b !in was ==> k.InRange(b))
  }

  lemma GrewTrans(k: Pmem.Pool, a: map<nat, Pos>, b: map<nat, Pos>, c: map<nat, Pos>)
    requires Grew(k, a, b) && Grew(k, b, c)
    ensures Grew(k, a, c)
  {}

  /** The cells vm_getpte visits. */
  function WalkPos(root: nat, v: nat, level: nat): Pos {
    if level == 0 then L0Pos(root, v) else if level == 1 then L1Pos(root, v) else RootPos(root)
  }

  lemma WalkIn(root: nat, v: nat, level: nat)
    requires level < 2
    ensures WalkPos(root, v, level) in Walks(root, {v})
  {
    assert v in {v};
    hide L1Pos, L0Pos;
  }

  lemma WalkLevel(root: nat, va: nat, level: nat)
    requires 0 < level <= 2
    ensures Level(RANK, WalkPos(root, va / PGSIZE, level)) == level + 1
    ensures Sub(WalkPos(root, va / PGSIZE, level), AddrVpn(va, level)) == WalkPos(root, va / PGSIZE, level - 1)
    ensures Root(WalkPos(root, va / PGSIZE, level)) == root
  {
    Levels(root, va / PGSIZE);
    VpnOf(va);
  }

  lemma NoLowTable(m: Mem, root: nat, v: nat, level: nat)
    requires level < 2 && Ptr(Trees(m), WalkPos(root, v, level)) == 0
    ensures Pte(m, root, v) == 0
  {
    hide Trees;
  }

  lemma LeafAt(m: Mem, owner: map<nat, Pos>, root: nat, v: nat)
    requires Consistent(m, owner) && Ptr(Trees(m), L0Pos(root, v)) != 0
    ensures var t := Ptr(Trees(m), L0Pos(root, v)); t in m.tables && m.tables[t][Vpn0(v)] == Pte(m, root, v)
  {
    hide Trees, Ptr, TablesOk, Vpn0, L0Pos, Owned;
    LeafOwns(m, owner, root, v);
  }

  lemma RootOk(m: Mem, owner: map<nat, Pos>, root: nat)
    requires Consistent(m, owner) && root in m.roots
    ensures root != 0 && Ptr(Trees(m), RootPos(root)) == root
  {}

  class Vm {
    const kpool: Pmem.Pool
    const upool: Pmem.Pool
    /** Root pages of the page tables in use. */
    var roots: set<nat>
    /** The contents of pages used as page tables, and of user frames. */
    var tables: map<nat, Table>
    var frames: map<nat, Page>
    ghost var owner: map<nat, Pos>

    function View(): Mem
      reads this`roots, this`tables
    {
      Mem(roots, tables)
    }

    ghost predicate Pools()
      reads kpool, upool
    {
      kpool != upool && kpool.Valid() && upool.Valid() && kpool.end <= upool.begin
    }

    ghost predicate Valid()
      reads this, kpool, upool
    {
      && Pools()
      && Consistent(View(), owner)
      && Pooled(owner, kpool, kpool.free, upool, upool.free, frames.Keys)
    }

    /** The account of table `root`. */
    ghost function Books(root: nat): Account
      reads this, kpool, upool
    {
      AccountOf(root, owner, kpool.free, upool.free)
    }

    /** Cell `p` points to the page `t`. */
    ghost predicate At(p: Pos, t: nat)
      reads this
    {
      t != 0 && Ptr(Trees(View()), p) == t
    }

    constructor (kpool: Pmem.Pool, upool: Pmem.Pool)
      requires kpool != upool && kpool.Valid() && upool.Valid() && kpool.end <= upool.begin
      ensures Valid() && this.kpool == kpool && this.upool == upool && roots == {} && owner == map[]
    {
      this.kpool, this.upool := kpool, upool;
      roots, tables, frames, owner := {}, map[], map[], map[];
      new;
      NothingMapped(View());
    }

    /** One level of vm_getpte: follow entry `idx` of the table `t`, adding a table when asked to. */
    method Descend(ghost p: Pos, t: nat, idx: nat, alloc: bool) returns (next: Walk)
      requires Valid() && At(p, t) && Level(RANK, p) > 1 && idx < ENTRIES
      modifies if alloc then {this, kpool} else {}
      ensures roots == old(roots) && frames == old(frames)
      ensures Valid()
      ensures SameLookups(old(View()), View()) && Grew(kpool, old(owner), owner)
      ensures next.Slot? ==> At(Sub(p, idx), next.table)
      ensures next.Null? ==> !alloc && Ptr(Trees(View()), Sub(p, idx)) == 0
      ensures next.Panic? ==> alloc && kpool.free == [] && Ptr(Trees(View()), Sub(p, idx)) == 0
      ensures Books(Root(p)) == old(Books(Root(p)))
      ensures Spent(old(View()), old(kpool.free), View(), kpool.free, {Sub(p, idx)})
    {
      hide Trees, Ptr, Cell, Pte, TablesOk, Owned, Own, Owns, Pooled, Level, MakePte, Pa, Vpn0, L0Pos, AccountOf, Spent;
      SpentNone(View(), kpool.free, {Sub(p, idx)});
      SubLevel(p, idx);
      PtrEntry(View(), owner, p, idx);
      UpperIs(View(), owner, t, idx);
      var e := tables[t][idx];
      if !IsValid(e) {
        if !alloc { return Null; }
        var b, ok := kpool.Alloc();
        if !ok { return Panic; }
        FreshPage(owner, kpool, old(kpool.free), upool, upool.free, frames.Keys, b);
        AttachTableKeeps(View(), owner, p, idx, b);
        PooledTable(owner, kpool, old(kpool.free), upool, upool.free, frames.Keys, b, Sub(p, idx), kpool.free);
        TableTaken(Root(p), owner, b, Sub(p, idx), kpool.free, upool.free);
        ghost var m := View();
        SpentOne(m, AttachTable(m, t, idx, b), Sub(p, idx), b, kpool.free);
        tables := AttachTable(View(), t, idx, b).tables;
        owner := owner[b := Sub(p, idx)];
        assert View() == AttachTable(m, t, idx, b);
        assert tables[t][idx] == MakePte(b, 0) by { AttachedEntry(m, t, idx, b); }
        OwnInner(b);
      } else if !Inner(e) {
        assert false; // no leaf above the lowest level
      }
      next := Slot(Pa(tables[t][idx]), 0);
    }

    lemma WalkStart(root: nat, va: nat)
      requires Valid() && root in roots
      ensures At(RootPos(root), root) && RootPos(root) == WalkPos(root, va / PGSIZE, 2) && Grew(kpool, owner, owner)
      ensures SameLookups(View(), View()) && Root(RootPos(root)) == root
    {
      hide Trees, Ptr, Consistent, Pooled, Pte;
      RootOk(View(), owner, root);
    }

    lemma EntryAt(root: nat, va: nat, t: nat)
      requires Valid() && At(WalkPos(root, va / PGSIZE, 0), t)
      ensures AddrVpn(va, 0) == Vpn0(va / PGSIZE) && WalkPos(root, va / PGSIZE, 0) == L0Pos(root, va / PGSIZE)
      ensures t in tables && tables[t][Vpn0(va / PGSIZE)] == Pte(View(), root, va / PGSIZE)
    {
      hide Trees, Ptr, Consistent, Pooled, Pte;
      VpnOf(va);
      LeafAt(View(), owner, root, va / PGSIZE);
    }

    lemma LowestTable(root: nat, va: nat, t: nat)
      requires At(WalkPos(root, va / PGSIZE, 0), t)
      ensures Lacking(View(), Walks(root, {va / PGSIZE})) == {}
    {
      hide Trees, Ptr, Lacking, Walks;
      WalkDone(View(), root, va / PGSIZE);
    }

    lemma NoEntry(root: nat, va: nat, level: nat)
      requires level < 2 && Ptr(Trees(View()), WalkPos(root, va / PGSIZE, level)) == 0
      ensures Pte(View(), root, va / PGSIZE) == 0
    {
      NoLowTable(View(), root, va / PGSIZE, level);
    }

    /** vm_getpte: no lookup changes, with or without `alloc`. */
    method GetPte(root: nat, va: nat, alloc: bool) returns (r: Walk)
      requires Valid() && root in roots
      modifies if alloc then {this, kpool} else {}
      ensures roots == old(roots) && frames == old(frames)
      ensures Valid()
      ensures SameLookups(old(View()), View()) && Grew(kpool, old(owner), owner)
      ensures va >= VA_MAX ==> r.Null?
      ensures r.Null? && va < VA_MAX ==> !alloc && Pte(View(), root, va / PGSIZE) == 0
      ensures r.Panic? ==> alloc && kpool.free == []
      ensures r.Slot? ==> va < VA_MAX && At(L0Pos(root, va / PGSIZE), r.table) && r.idx == Vpn0(va / PGSIZE)
      ensures r.Slot? ==> r.table in tables && tables[r.table][r.idx] == Pte(View(), root, va / PGSIZE)
      ensures Books(root) == old(Books(root))
      // pages were taken for the tables missing on the walk, and for nothing else
      ensures r.Slot? ==> Tabled(old(View()), old(kpool.free), View(), kpool.free, root, {va / PGSIZE})
      ensures r.Panic? ==> Broke(old(View()), old(kpool.free), View(), kpool.free, root, {va / PGSIZE})
    {
      hide Trees, Ptr, Cell, Pte, Consistent, Own, Owns, Vpn0, Vpn1, Vpn2, Pooled, Level, Grew, AddrVpn, WalkPos, L0Pos,
           RootPos, Root, Books, Valid, View, At, SameLookups, Spent, Walks, Lacking;
      WalkStart(root, va);
      SpentNone(View(), kpool.free, Walks(root, {va / PGSIZE}));
      if va >= VA_MAX { return Null; }
      ghost var v := va / PGSIZE;
      var table := root;
      ghost var p := RootPos(root);
      var level := 2;
      while level > 0
        invariant 0 <= level <= 2 && Valid() && Grew(kpool, old(owner), owner)
        invariant SameLookups(old(View()), View())
        invariant At(p, table) && p == WalkPos(root, v, level)
        invariant roots == old(roots) && frames == old(frames) && Books(root) == old(Books(root))
        invariant Spent(old(View()), old(kpool.free), View(), kpool.free, Walks(root, {v}))
      {
        ghost var m, was, kfree := View(), owner, kpool.free;
        WalkLevel(root, va, level);
        WalkIn(root, v, level - 1);
        var next := Descend(p, table, AddrVpn(va, level), alloc);
        SpentStep(old(View()), old(kpool.free), m, kfree, View(), kpool.free, Walks(root, {v}),
            Sub(p, AddrVpn(va, level)));
        GrewTrans(kpool, old(owner), was, owner);
        SameTrans(old(View()), m, View());
        if next.Null? {
          NoEntry(root, va, level - 1);
          return Null;
        }
        if next.Panic? {
          WalkBroken(View(), root, v, Sub(p, AddrVpn(va, level)));
          return Panic;
        }
        table := next.table;
        p := Sub(p, AddrVpn(va, level));
        level := level - 1;
      }
      EntryAt(root, va, table);
      LowestTable(root, va, table);
      return Slot(table, AddrVpn(va, 0));
    }

    /** A user frame that is allocated but not mapped anywhere else than in cell `p`. */
    ghost predicate Usable(b: nat, p: Pos)
      reads this, upool
    {
      UsableIn(b, p, owner, upool, upool.free, frames.Keys)
    }

    /** An allocated user frame that is not mapped anywhere. */
    ghost predicate Loose(b: nat)
      reads this, upool
    {
      upool.InRange(b) && b !in upool.free && b in frames && b !in owner
    }

    /** pmem_alloc(false): a zeroed user frame; panics (not ok) when there is none. */
    method AllocFrame() returns (b: nat, ok: bool)
      requires Valid()
      modifies this`frames, upool
      ensures Valid()
      ensures ok <==> old(upool.free) != []
      ensures !ok ==> frames == old(frames) && upool.free == old(upool.free)
      ensures ok ==>
                && Loose(b)
                && b % PGSIZE == 0
                && b != 0
                && old(upool.free) == [b] + upool.free
                && frames == old(frames)[b := ZeroPage()]
    {
      hide Consistent, Pooled;
      b, ok := upool.Alloc();
      if ok {
        FreshPage(owner, kpool, kpool.free, upool, old(upool.free), frames.Keys, b);
        PooledAlloc(owner, kpool, kpool.free, upool, old(upool.free), frames.Keys, b, upool.free);
        frames := frames[b := ZeroPage()];
        assert frames.Keys == old(frames.Keys) + {b};
      }
    }

    /** Store `e` in entry `j` of the table `t`, which is the entry for page `v`. */
    method SetEntry(ghost root: nat, ghost v: nat, t: nat, j: nat, e: nat)
      requires Consistent(View(), owner) && v < VPNS && At(L0Pos(root, v), t) && j == Vpn0(v) && LeafEntry(e)
      requires Own(e) == 0 || Own(e) !in owner || owner[Own(e)] == LeafPos(root, v)
      modifies this`tables, this`owner
      ensures Consistent(View(), owner)
      ensures OnlyPte(old(View()), View(), root, v, e)
      ensures owner == Reown(old(owner), LeafPos(root, v), Own(Pte(old(View()), root, v)), Own(e))
      ensures Tabled(old(View()), kpool.free, View(), kpool.free, root, {})
    {
      hide Trees, Ptr, Cell, Pte, Consistent, Own, Owns, Vpn0, Reown, Level, L0Pos, LeafEntry, LeafPos, Tabled;
      SetLeaf(View(), owner, root, v, e);
      ghost var m := View();
      LeafTabled(m, PutEntry(m, t, j, e), root, v, kpool.free);
      owner := Reown(owner, LeafPos(root, v), Own(Pte(View(), root, v)), Own(e));
      tables := tables[t := tables[t][j := e]];
      assert View() == PutEntry(m, t, j, e);
    }

    /** Store the entry that maps page `v` to the frame at `pa`. */
    method PutLeaf(ghost root: nat, ghost v: nat, t: nat, j: nat, pa: nat, perm: nat)
      requires Valid() && v < VPNS && At(L0Pos(root, v), t) && j == Vpn0(v) && PageStart(pa) && LeafPerm(perm)
      requires UserPerm(perm) ==> Usable(pa, LeafPos(root, v))
      modifies this`tables, this`owner
      ensures Valid() && OnlyPte(old(View()), View(), root, v, MakePte(pa, perm))
      ensures Took(kpool, old(owner), owner, pa, 1)
      ensures Own(old(Pte(View(), root, v))) == 0 ==>
                Books(root) == With(old(Books(root)), if UserPerm(perm) then {pa} else {})
      ensures Tabled(old(View()), kpool.free, View(), kpool.free, root, {})
    {
      hide Trees, Ptr, Cell, Pte, Consistent, Own, Owns, Vpn0, Pooled, Level, L0Pos, LeafEntry, MakePte, Reown, OnlyPte,
           Took, LeafPos, AccountOf, Root, IsValid, User, With, Tabled;
      MadeLeaf(pa, perm);
      LeafRoot(root, v);
      ghost var m, was, e := View(), owner, MakePte(pa, perm);
      TookOne(kpool, was, pa, LeafPos(root, v), Own(Pte(m, root, v)), Own(e));
      if Own(Pte(m, root, v)) == 0 {
        MappedBooks(root, v, m, was, kpool, upool, upool.free, frames.Keys, kpool.free, pa, perm);
      }
      SetEntry(root, v, t, j, MakePte(pa, perm));
      PooledReown(was, kpool, kpool.free, upool, upool.free, frames.Keys, LeafPos(root, v), Own(Pte(m, root, v)),
          Own(e));
    }

    /** One round of vm_mappages: map the page at `va` to the frame at `pa`. */
    method MapOne(root: nat, va: nat, pa: nat, perm: nat) returns (ok: bool)
      requires Valid() && root in roots && PageStart(va) && PageStart(pa) && LeafPerm(perm)
      requires UserPerm(perm) ==> Usable(pa, LeafPos(root, PageOf(va)))
      modifies this, kpool
      ensures roots == old(roots) && frames == old(frames)
      ensures Valid()
      ensures ok ==> va < VA_MAX && OnlyPte(old(View()), View(), root, PageOf(va), MakePte(pa, perm))
      ensures !ok ==> va >= VA_MAX || kpool.free == []
      ensures Took(kpool, old(owner), owner, pa, 1)
      ensures ok && Own(old(Pte(View(), root, PageOf(va)))) == 0 ==>
                Books(root) == With(old(Books(root)), if UserPerm(perm) then {pa} else {})
      ensures ok ==> Tabled(old(View()), old(kpool.free), View(), kpool.free, root, {PageOf(va)})
      ensures !ok && va < VA_MAX ==> Broke(old(View()), old(kpool.free), View(), kpool.free, root, {PageOf(va)})
    {
      hide Trees, Ptr, Pte, Consistent, Own, Vpn0, Pooled, Level, L0Pos, MakePte, OnlyPte, SameLookups, Grew, Took,
           LeafPos, Books, With, Valid, View, At, LeafPerm, UserPerm, UsableIn, Tabled, Broke;
      ghost var v := PageOf(va);
      PageBelow0(va);
      PoolsApart(perm);
      var w := GetPte(root, va, true);
      if UserPerm(perm) {
        UsableKept(pa, LeafPos(root, v), old(owner), owner, kpool, upool, upool.free, frames.Keys);
      }
      TookGrew(kpool, old(owner), owner, pa);
      if !w.Slot? { return false; }
      ghost var m, was := View(), owner;
      PutLeaf(root, v, w.table, w.idx, pa, perm);
      TabledThen(old(View()), old(kpool.free), m, kpool.free, View(), kpool.free, root, {v}, {});
      assert {v} + {} == {v};
      OnlyAfterSame(old(View()), m, View(), root, v, MakePte(pa, perm));
      TookBoth(kpool, old(owner), was, owner, pa);
      if Own(old(Pte(View(), root, v))) == 0 { SameEntry(old(View()), m, root, v); }
      return true;
    }

    /** Midway through vm_mappages: the first `k` of `n` pages are mapped. */
    ghost predicate Mapping(m0: Mem, owner0: map<nat, Pos>, a0: Account, root: nat, v: nat, pa: nat, perm: nat, k: nat,
                            n: nat)
      requires LeafPerm(perm)
      reads this, kpool, upool
    {
      && Valid() && k <= n
      && Mapped(m0, View(), root, v, k, pa, perm)
      && Took(kpool, owner0, owner, pa, k)
      && (UserPerm(perm) ==> AllUsable(root, v, pa, n, owner0, upool, upool.free, frames.Keys))
      && (Clean(m0, root, v, n) ==> Books(root) == With(a0, UserRun(perm, pa, k)))
    }

    lemma PoolsApart(perm: nat)
      requires Valid() && LeafPerm(perm)
      ensures kpool != upool && kpool.end <= upool.begin && perm < 1024
    {
      hide Consistent;
    }

    method MapStep(ghost m0: Mem, ghost owner0: map<nat, Pos>, ghost a0: Account, ghost kfree0: seq<nat>, root: nat,
                   ghost v: nat, va: nat, ghost pa: nat, currP: nat, perm: nat, ghost k: nat, ghost n: nat)
        returns (ok: bool)
      requires LeafPerm(perm) && Mapping(m0, owner0, a0, root, v, pa, perm, k, n) && k < n && root in roots
      requires Tabled(m0, kfree0, View(), kpool.free, root, Pages(v, v + k))
      requires PageStart(va) && PageOf(va) == v + k && currP == Nth(pa, k) && PageStart(currP)
      modifies this, kpool
      ensures roots == old(roots) && frames == old(frames)
      ensures Valid() && Took(kpool, owner0, owner, pa, n)
      ensures ok ==> va < VA_MAX && Mapping(m0, owner0, a0, root, v, pa, perm, k + 1, n)
      ensures ok ==> Tabled(m0, kfree0, View(), kpool.free, root, Pages(v, v + k + 1))
      ensures !ok ==> va >= VA_MAX || kpool.free == []
      ensures !ok ==> va >= VA_MAX || !HasTables(m0, kfree0, root, Pages(v, v + n))
    {
      hide Pte, Valid, Mapped, Took, OnlyPte, AllUsable, LeafPos, MakePte, SameLookups, Nth, UsableAt, UsableIn,
           UserPerm, LeafPerm, View, PageStart, PageOf, Clean, Books, With, RunSet, Tabled, Broke, HasTables,
           Pages;
      ghost var m, was, kfree := View(), owner, kpool.free;
      PoolsApart(perm);
      if UserPerm(perm) { UsableNext(root, v, pa, k, n, owner0, owner, kpool, upool, upool.free, frames.Keys); }
      ok := MapOne(root, va, currP, perm);
      TookNext(kpool, owner0, was, owner, pa, k);
      TookWider(kpool, owner0, owner, pa, k + 1, n);
      if va < VA_MAX { TabledNext(m0, kfree0, m, kfree, View(), kpool.free, root, v, k, n, ok); }
      if !ok { return false; }
      PageBelow(va);
      MappedNext(m0, m, View(), root, v, k, pa, perm);
      if Clean(m0, root, v, n) {
        CleanAt(m0, m, root, v, k, n, pa, perm);
        RunNext(a0, perm, pa, k);
      }
    }

    /** The loop of vm_mappages. */
    method MapRange(root: nat, va: nat, pa: nat, len: nat, perm: nat, last: nat) returns (ok: bool)
      requires Valid() && root in roots && LeafPerm(perm) && va % PGSIZE == 0 && pa % PGSIZE == 0
      requires va < U64 && 0 < len < U64 && last == LastAddr(va, len) && last < VA_MAX
      requires UserPerm(perm) ==> AllUsable(root, va / PGSIZE, pa, Count(len), owner, upool, upool.free, frames.Keys)
      modifies this, kpool
      ensures roots == old(roots) && frames == old(frames)
      ensures Valid()
      ensures ok ==> va + len <= VA_MAX && Mapped(old(View()), View(), root, va / PGSIZE, Count(len), pa, perm)
      ensures ok ==>
                Tabled(old(View()), old(kpool.free), View(), kpool.free, root,
                    Pages(va / PGSIZE, va / PGSIZE + Count(len)))
      ensures !ok ==> va + len > VA_MAX || kpool.free == []
      ensures !ok ==> va + len > VA_MAX ||
                      !HasTables(old(View()), old(kpool.free), root, Pages(va / PGSIZE, va / PGSIZE + Count(len)))
      ensures Took(kpool, old(owner), owner, pa, Count(len))
      ensures ok && Clean(old(View()), root, va / PGSIZE, Count(len)) ==>
                Books(root) == With(old(Books(root)), UserRun(perm, pa, Count(len)))
    {
      hide Mapping, Mapped, Took, AllUsable, View, Valid, LeafPerm, UserPerm, Count, Nth, LastAddr, PageBase, Wrap,
           Clean, Books, With, UserRun, Tabled, HasTables, Pages;
      ghost var v, n, k := va / PGSIZE, Count(len), 0;
      ghost var m0, owner0, a0, kfree0 := View(), owner, Books(root), kpool.free;
      TabledNone(m0, kfree0, root, v);
      MappingStart(root, v, pa, perm, n);
      SomePages(len);
      var currV, currP := va, pa;
      NthPage(va, 0);
      NthPage(pa, 0);
      while true
        invariant k < n && currV == Nth(va, k) && currP == Nth(pa, k) && currV < U64
        invariant Mapping(m0, owner0, a0, root, v, pa, perm, k, n) && roots == old(roots) && frames == old(frames)
        invariant Tabled(m0, kfree0, View(), kpool.free, root, Pages(v, v + k))
        decreases VA_MAX - currV
      {
        NthPage(va, k);
        NthPage(pa, k);
        ok := MapStep(m0, owner0, a0, kfree0, root, v, currV, pa, currP, perm, k, n);
        BeyondEnd(va, len, k);
        if !ok { return false; }
        LastPage(va, len, k);
        NoWrap(currV);
        k := k + 1;
        if currV == PageBase(last) { break; }
        currV := Wrap(currV + PGSIZE);
        currP := currP + PGSIZE;
        if currV < va { break; }
      }
      MappingDone(m0, owner0, a0, root, v, pa, perm, n);
      return true;
    }

    lemma MappingStart(root: nat, v: nat, pa: nat, perm: nat, n: nat)
      requires Valid() && LeafPerm(perm)
      requires UserPerm(perm) ==> AllUsable(root, v, pa, n, owner, upool, upool.free, frames.Keys)
      ensures Mapping(View(), owner, Books(root), root, v, pa, perm, 0, n)
    {
      hide Valid, AllUsable, Books;
      RunNone(Books(root), perm, pa);
      MappedNone(View(), root, v, pa, perm);
      TookNone(kpool, owner, pa);
    }

    lemma MappingDone(m0: Mem, owner0: map<nat, Pos>, a0: Account, root: nat, v: nat, pa: nat, perm: nat, n: nat)
      requires LeafPerm(perm)
      ensures Mapping(m0, owner0, a0, root, v, pa, perm, n, n) ==>
                && Valid()
                && Mapped(m0, View(), root, v, n, pa, perm)
                && Took(kpool, owner0, owner, pa, n)
                && (Clean(m0, root, v, n) ==> Books(root) == With(a0, UserRun(perm, pa, n)))
    {
      hide Clean, Books, UserRun, With, Valid, Mapped, Took, AllUsable;
    }

    /** vm_mappages: panics (not ok) on a bad range or when no page is left for a table. */
    method MapPages(root: nat, va: nat, pa: nat, len: nat, perm: nat) returns (ok: bool)
      requires Valid() && root in roots && va < U64 && len < U64 && LeafPerm(perm)
      // a user mapping gets frames that are not mapped elsewhere
      requires UserPerm(perm) ==> AllUsable(root, va / PGSIZE, pa, Count(len), owner, upool, upool.free, frames.Keys)
      modifies this, kpool
      ensures roots == old(roots) && frames == old(frames)
      ensures Valid()
      ensures ok ==> va % PGSIZE == 0 && pa % PGSIZE == 0 && 0 < len && va + len <= VA_MAX
      ensures ok ==> Mapped(old(View()), View(), root, va / PGSIZE, Count(len), pa, perm)
      ensures !ok ==> va % PGSIZE != 0 || pa % PGSIZE != 0 || len == 0 || va + len > VA_MAX || kpool.free == []
      // it succeeds exactly when the range is good and the kernel pool has a page for every missing table
      ensures var s := Pages(va / PGSIZE, va / PGSIZE + Count(len));
              && (ok <==>
                  && va % PGSIZE == 0 && pa % PGSIZE == 0 && 0 < len && va + len <= VA_MAX
                  && HasTables(old(View()), old(kpool.free), root, s))
              && (ok ==> Tabled(old(View()), old(kpool.free), View(), kpool.free, root, s))
      ensures Took(kpool, old(owner), owner, pa, Count(len))
      // over empty entries, the frames have moved to the table and nothing else has
      ensures ok && Clean(old(View()), root, va / PGSIZE, Count(len)) ==>
                Books(root) == With(old(Books(root)), UserRun(perm, pa, Count(len)))
    {
      TookNone(kpool, owner, pa);
      TookWider(kpool, owner, owner, pa, 0, Count(len));
      hide Valid, Mapped, Took, AllUsable, LeafPerm, Count, View, Clean, Books, With, UserRun, Tabled, HasTables, Pages;
      if va % PGSIZE != 0 { return false; }
      if pa % PGSIZE != 0 { return false; }
      if len == 0 { return false; }
      var last := LastAddr(va, len);
      if last >= VA_MAX { return false; }
      ok := MapRange(root, va, pa, len, perm, last);
      if ok {
        TabledMeans(old(View()), old(kpool.free), View(), kpool.free, root,
            Pages(va / PGSIZE, va / PGSIZE + Count(len)));
      }
    }

    /** Clear the valid entry `e` for page `v`, and give its frame back when asked to. */
    method ClearEntry(ghost root: nat, ghost v: nat, t: nat, j: nat, e: nat, doFree: bool)
      requires Valid() && v < VPNS && At(L0Pos(root, v), t) && j == Vpn0(v)
      requires e == Pte(View(), root, v) && IsValid(e) && (doFree ==> User(e))
      modifies this`tables, this`owner, upool
      ensures Valid() && OnlyPte(old(View()), View(), root, v, 0) && Shrunk(old(owner), owner)
      ensures upool.free == (if doFree then [Pa(e)] else []) + old(upool.free)
      ensures doFree ==> Books(root) == old(Books(root))
    {
      Levels(root, v);
      LeafRoot(root, v);
      hide Trees, Ptr, Cell, Pte, Consistent, Own, Owns, Vpn0, Pooled, Level, L0Pos, Reown, OnlyPte, LeafPos, IsValid,
           User, Pa, LeafEntry, Root, AccountOf;
      OwnOf(View(), owner, root, v);
      OwnZero();
      ShrunkReown(owner, LeafPos(root, v), Own(e));
      if doFree {
        var pa := Pa(e);
        LeafFrame(View(), owner, kpool, kpool.free, upool, upool.free, frames.Keys, root, v);
        if pa != 0 {
          var freed := upool.Free(pa);
        }
        PooledFreed(owner, kpool, kpool.free, upool, old(upool.free), frames.Keys, pa, LeafPos(root, v));
        FrameReturned(root, owner, kpool.free, old(upool.free), LeafPos(root, v), pa);
      } else {
        PooledReown(owner, kpool, kpool.free, upool, upool.free, frames.Keys, LeafPos(root, v), Own(e), 0);
      }
      SetEntry(root, v, t, j, 0);
    }

    /** One round of vm_unmappages. */
    method UnmapOne(root: nat, va: nat, doFree: bool)
      requires Valid() && root in roots
      requires doFree && va < VA_MAX && IsValid(Pte(View(), root, va / PGSIZE)) ==> User(Pte(View(), root, va / PGSIZE))
      modifies this`tables, this`owner, upool
      ensures Valid()
      ensures UnmappedOne(old(View()), View(), root, va)
      ensures upool.free == (if doFree && va < VA_MAX && IsValid(old(Pte(View(), root, va / PGSIZE))) then
                [Pa(old(Pte(View(), root, va / PGSIZE)))] else []) + old(upool.free)
      ensures Shrunk(old(owner), owner)
      ensures doFree ==> Books(root) == old(Books(root))
    {
      OwnZero();
      PageBelow0(va);
      assert Shrunk(owner, owner);
      hide Trees, Ptr, Cell, Pte, Consistent, Pooled, L0Pos, OnlyPte, SameLookups, Grew, IsValid, User, Pa, Vpn0,
           Shrunk, Books;
      var w := GetPte(root, va, false);
      if w.Slot? {
        var e := tables[w.table][w.idx];
        if IsValid(e) {
          ClearEntry(root, va / PGSIZE, w.table, w.idx, e, doFree);
        }
      }
    }

    /** Midway through vm_unmappages: the first `k` pages are done. */
    ghost predicate Unmapping(m0: Mem, owner0: map<nat, Pos>, ufree0: seq<nat>, root: nat, v: nat, k: nat, doFree: bool)
      reads this, kpool, upool
    {
      && Valid()
      && Unmapped(m0, View(), root, v, k)
      && Shrunk(owner0, owner)
      && upool.free == (if doFree then FramesOf(m0, root, v, k) else []) + ufree0
    }

    method UnmapStep(ghost m0: Mem, ghost owner0: map<nat, Pos>, ghost ufree0: seq<nat>, root: nat, ghost v: nat,
                     va: nat, doFree: bool, ghost k: nat, ghost n: nat)
      requires Unmapping(m0, owner0, ufree0, root, v, k, doFree) && k < n && root in roots && PageOf(va) == v + k
      requires doFree ==> UserRange(m0, root, v, n)
      modifies this`tables, this`owner, upool
      ensures Unmapping(m0, owner0, ufree0, root, v, k + 1, doFree)
      ensures doFree ==> Books(root) == old(Books(root))
    {
      hide Pte, Valid, Unmapped, UnmappedOne, FramesOf, UserRange, Shrunk, View, IsValid, User, Pa, Books;
      ghost var g, was := View(), owner;
      RoundFacts(m0, g, root, v, n, k, va, doFree);
      UnmapOne(root, va, doFree);
      UnmappedMore(m0, g, View(), root, v, k, va);
      ShrunkTrans(owner0, was, owner);
    }

    lemma UnmappingStart(root: nat, va: nat, doFree: bool)
      requires Valid()
      ensures Unmapping(View(), owner, upool.free, root, va / PGSIZE, 0, doFree) && PageOf(va) == va / PGSIZE
      ensures Unmapped(View(), View(), root, va / PGSIZE, 0) && Shrunk(owner, owner)
    {
      hide Valid, Pte;
      UnmappedNone(View(), root, va / PGSIZE);
      assert FramesOf(View(), root, va / PGSIZE, 0) == [];
    }

    /** vm_unmappages: clears exactly the pages of the range; panics (not ok) on a bad range. */
    method UnmapPages(root: nat, va: nat, len: nat, doFree: bool) returns (ok: bool)
      requires Valid() && root in roots && va + len + PGSIZE <= U64
      requires doFree ==> UserRange(View(), root, va / PGSIZE, Count(len))
      modifies this`tables, this`owner, upool
      ensures Valid()
      ensures ok <==> va % PGSIZE == 0 && len != 0
      ensures Unmapped(old(View()), View(), root, va / PGSIZE, if ok then Count(len) else 0)
      // each frame is given back once
      ensures upool.free == (if ok && doFree then FramesOf(old(View()), root, va / PGSIZE, Count(len)) else []) +
                old(upool.free)
      ensures Shrunk(old(owner), owner)
      // no page is lost or gained: what the table had is in the pool
      ensures doFree ==> Books(root) == old(Books(root))
    {
      hide Valid, Unmapping, Unmapped, UserRange, Count, Nth, View, FramesOf, Shrunk, PageOf, PageStart, Books;
      ghost var v, n, k, m0, owner0, ufree0 := va / PGSIZE, Count(len), 0, View(), owner, upool.free;
      UnmappingStart(root, va, doFree);
      if va % PGSIZE != 0 { return false; }
      if len == 0 { return false; }
      var curr := va;
      var end := va + len;
      NthPage(va, 0);
      while curr < end
        invariant curr == Nth(va, k) && k <= n
        invariant Unmapping(m0, owner0, ufree0, root, v, k, doFree)
        invariant doFree ==> Books(root) == old(Books(root))
        decreases end - curr
      {
        NthPage(va, k);
        InRange(va, len, k);
        UnmapStep(m0, owner0, ufree0, root, v, curr, doFree, k, n);
        k := k + 1;
        curr := curr + PGSIZE;
      }
      InRange(va, len, k);
      UnmappingDone(m0, owner0, ufree0, root, v, k, doFree);
      return true;
    }

    /** The first steps of proc_pgtbl_init: an empty page table. */
    method NewTable() returns (root: nat, ok: bool)
      requires Valid()
      modifies this, kpool
      ensures Valid() && frames == old(frames)
      ensures ok <==> old(kpool.free) != []
      ensures ok ==> root !in old(roots) && roots == old(roots) + {root}
      ensures ok ==>
                && old(kpool.free) == [root] + kpool.free
                && root !in old(owner)
                && owner == old(owner)[root := RootPos(root)]
      ensures !ok ==> View() == old(View()) && owner == old(owner) && kpool.free == old(kpool.free)
      ensures SameLookups(old(View()), View())
      ensures ok ==> forall v: nat :: Pte(View(), root, v) == 0
      ensures ok ==> Books(root) == old(Books(root)) && Bare(View(), root)
    {
      hide Consistent, Pooled, Pte, Level, AccountOf, Bare;
      root, ok := kpool.Alloc();
      if ok {
        ghost var m := View();
        FreshPage(owner, kpool, old(kpool.free), upool, upool.free, frames.Keys, root);
        RootFresh(m, owner, root);
        WithRootKeeps(m, owner, root);
        RootBare(m, owner, root);
        Levels(root, 0);
        PooledTable(owner, kpool, old(kpool.free), upool, upool.free, frames.Keys, root, RootPos(root), kpool.free);
        TableTaken(root, owner, root, RootPos(root), kpool.free, upool.free);
        roots := roots + {root};
        tables := tables[root := ZeroTable()];
        owner := owner[root := RootPos(root)];
        assert View() == WithRoot(m, root);
      }
    }

    /** proc_pgtbl_init: a table that maps the trampoline and the trapframe, for the kernel only. */
    method PgtblInit(trampoline: nat, trapframe: nat) returns (root: nat, ok: bool)
      requires Valid() && trampoline % PGSIZE == 0 && trapframe % PGSIZE == 0
      modifies this, kpool
      ensures Valid() && frames == old(frames)
      ensures !ok ==> kpool.free == []
      // one page for the root, and one for every table below it
      ensures ok <==> 1 + TableCount(FIXED) <= |old(kpool.free)|
      ensures ok ==> Started(|old(kpool.free)|, View(), kpool.free, root, FIXED)
      ensures ok ==> root !in old(roots) && roots == old(roots) + {root}
      ensures ok ==> forall q: nat, w: nat {:trigger Pte(View(), q, w)} :: w < VPNS ==>
                Pte(View(), q, w) == if q != root then Pte(old(View()), q, w)
                                     else if w == TRAMPOLINE / PGSIZE then MakePte(trampoline, PTE_R + PTE_X)
                                     else if w == TRAPFRAME / PGSIZE then MakePte(trapframe, PTE_R + PTE_W)
                                     else 0
      ensures ok ==> Books(root) == old(Books(root))
    {
      hide Consistent, Pooled, Pte, Level, MakePte, LeafPerm, AllUsable, Valid, Books, Clean, Own, Bare, Tabled,
           HasTables, Started, TableCount, Pages;
      ghost var m0 := View();
      root, ok := NewTable();
      if !ok { return; }
      ghost var m1, k1 := View(), kpool.free;
      FixedPages();
      BareNeeds(m1, k1, root, FIXED);
      FixedPerms();
      KernelRun(Books(root), PTE_R + PTE_X, trampoline, 1);
      KernelRun(Books(root), PTE_R + PTE_W, trapframe, 1);
      ok := MapPages(root, TRAMPOLINE, trampoline, PGSIZE, PTE_R + PTE_X);
      FixedNeeds(m1, k1, m1, k1, root, {}, {TRAMPOLINE / PGSIZE});
      if !ok { return; }
      ghost var m2, k2 := View(), kpool.free;
      ok := MapPages(root, TRAPFRAME, trapframe, PGSIZE, PTE_R + PTE_W);
      FixedNeeds(m1, k1, m2, k2, root, {TRAMPOLINE / PGSIZE}, {TRAPFRAME / PGSIZE});
      if !ok { return; }
      TabledThen(m1, k1, m2, k2, View(), kpool.free, root, {TRAMPOLINE / PGSIZE}, {TRAPFRAME / PGSIZE});
      TabledMeans(m1, k1, View(), kpool.free, root, FIXED);
      StartedMeans(m1, k1, View(), kpool.free, root, FIXED);
      FixedMapped(m1, m2, View(), root, trampoline, trapframe);
      FixedClean(m1, m2, root, trampoline);
    }

    lemma UnmappingDone(m0: Mem, owner0: map<nat, Pos>, ufree0: seq<nat>, root: nat, v: nat, k: nat, doFree: bool)
      requires Unmapping(m0, owner0, ufree0, root, v, k, doFree)
      ensures Valid() && Unmapped(m0, View(), root, v, k) && Shrunk(owner0, owner)
      ensures upool.free == (if doFree then FramesOf(m0, root, v, k) else []) + ufree0
    {
      hide Valid, Unmapped, Shrunk, FramesOf;
    }
  }

  // Mapping over empty entries

  /** No entry of the range owns a frame. */
  ghost predicate Clean(m: Mem, root: nat, v: nat, n: nat) {
    forall w: nat {:trigger Pte(m, root, w)} :: v <= w < v + n && w < VPNS ==> Own(Pte(m, root, w)) == 0
  }

  /** The first `n` frames from `pa` on. */
  ghost function RunSet(pa: nat, n: nat): set<nat> {
    if n == 0 then {} else RunSet(pa, n - 1) + {Nth(pa, n - 1)}
  }

  ghost function UserRun(perm: nat, pa: nat, n: nat): set<nat> {
    if UserPerm(perm) then RunSet(pa, n) else {}
  }

  lemma RunNone(a: Account, perm: nat, pa: nat)
    ensures With(a, UserRun(perm, pa, 0)) == a
  {}

  lemma RunNext(a: Account, perm: nat, pa: nat, k: nat)
    ensures With(With(a, UserRun(perm, pa, k)), if UserPerm(perm) then {Nth(pa, k)} else {}) ==
              With(a, UserRun(perm, pa, k + 1))
  {
    hide Nth;
  }

  lemma CleanAt(m0: Mem, m: Mem, root: nat, v: nat, k: nat, n: nat, pa: nat, perm: nat)
    requires perm < 1024 && Clean(m0, root, v, n) && Mapped(m0, m, root, v, k, pa, perm) && k < n && v + k < VPNS
    ensures Own(Pte(m, root, v + k)) == 0
  {
    hide Pte, Own, MakePte;
    assert Pte(m, root, v + k) == Pte(m0, root, v + k);
  }

  /** The account after an empty entry of table `root` is set by vm_mappages. */
  lemma MappedBooks(root: nat, v: nat, m: Mem, owner: map<nat, Pos>, k: Pmem.Pool, u: Pmem.Pool, ufree: seq<nat>,
                    frames: set<nat>, kfree: seq<nat>, pa: nat, perm: nat)
    requires Consistent(m, owner) && pa % PGSIZE == 0 && LeafPerm(perm)
    requires UserPerm(perm) ==> UsableIn(pa, LeafPos(root, v), owner, u, ufree, frames) && pa != 0
    ensures AccountOf(root, Reown(owner, LeafPos(root, v), 0, Own(MakePte(pa, perm))), kfree, ufree) ==
              With(AccountOf(root, owner, kfree, ufree), if UserPerm(perm) then {pa} else {})
  {
    hide MakePte, Own, LeafPos, Consistent, AccountOf, Reown, Level, Root;
    MadeLeaf(pa, perm);
    LeafRoot(root, v);
    ZeroUnowned(m, owner);
    FrameOwned(root, owner, kfree, ufree, LeafPos(root, v), Own(MakePte(pa, perm)),
        if UserPerm(perm) then {pa} else {});
  }

  lemma LeafRoot(root: nat, v: nat)
    ensures Root(LeafPos(root, v)) == root && Level(RANK, LeafPos(root, v)) == 0
  {
    Levels(root, v);
    hide Level;
    assert Root(L1Pos(root, v)) == root;
    assert Root(L0Pos(root, v)) == root;
  }

  lemma ZeroUnowned(m: Mem, owner: map<nat, Pos>)
    requires Consistent(m, owner)
    ensures 0 !in owner
  {}

  /** The two fixed pages of a new table have no entry before. */
  lemma FixedClean(m1: Mem, m2: Mem, root: nat, trampoline: nat)
    requires Mapped(m1, m2, root, TRAMPOLINE / PGSIZE, 1, trampoline, PTE_R + PTE_X)
    requires forall v: nat :: Pte(m1, root, v) == 0
    ensures Clean(m1, root, TRAMPOLINE / PGSIZE, 1) && Clean(m2, root, TRAPFRAME / PGSIZE, 1)
  {
    OwnZero();
    hide Pte, MakePte, Own;
  }

  lemma KernelRun(a: Account, perm: nat, pa: nat, n: nat)
    requires !UserPerm(perm)
    ensures With(a, UserRun(perm, pa, n)) == a
  {}

  ghost predicate Shrunk(was: map<nat, Pos>, now: map<nat, Pos>) {
    forall b {:trigger now[b]} {:trigger b in now} :: b in now ==> b in was && now[b] == was[b]
  }

  lemma ShrunkTrans(a: map<nat, Pos>, b: map<nat, Pos>, c: map<nat, Pos>)
    requires Shrunk(a, b) && Shrunk(b, c)
    ensures Shrunk(a, c)
  {}

  lemma ShrunkReown(owner: map<nat, Pos>, p: Pos, was: nat)
    ensures Shrunk(owner, Reown(owner, p, was, 0))
  {}

  lemma OwnZero()
    ensures Own(0) == 0 && LeafEntry(0) && !IsValid(0)
  {}

  /** No entry of the range maps a page that user code may not use. */
  ghost predicate UserRange(m: Mem, root: nat, v: nat, n: nat) {
    forall w: nat {:trigger Pte(m, root, w)} :: v <= w < v + n && w < VPNS && IsValid(Pte(m, root, w)) ==>
        User(Pte(m, root, w))
  }

  ghost predicate UnmappedOne(m: Mem, g: Mem, root: nat, va: nat) {
    if va < VA_MAX && IsValid(Pte(m, root, va / PGSIZE)) then OnlyPte(m, g, root, va / PGSIZE, 0) else g == m
  }

  lemma UnmappedNone(m: Mem, root: nat, v: nat)
    ensures Unmapped(m, m, root, v, 0)
  {
    hide Pte;
  }

  lemma UnmappedMore(m: Mem, g: Mem, h: Mem, root: nat, v: nat, k: nat, va: nat)
    requires Unmapped(m, g, root, v, k) && UnmappedOne(g, h, root, va) && va / PGSIZE == v + k
    ensures Unmapped(m, h, root, v, k + 1)
  {
    hide Pte, IsValid, OnlyPte, Unmapped;
    if va < VA_MAX {
      PageBelow(va);
      assert Pte(g, root, v + k) == Pte(m, root, v + k) by { NotYet(m, g, root, v, k); }
      if IsValid(Pte(m, root, v + k)) { UnmappedNext(m, g, h, root, v, k); } else { UnmappedSkip(m, g, root, v, k); }
    } else {
      UnmappedSkip(m, g, root, v, k);
    }
  }

  lemma NotYet(m: Mem, g: Mem, root: nat, v: nat, k: nat)
    requires Unmapped(m, g, root, v, k) && v + k < VPNS
    ensures Pte(g, root, v + k) == Pte(m, root, v + k)
  {
    hide Pte, IsValid;
  }

  /** The page and the frame that round `k` of vm_unmappages meets. */
  lemma RoundFacts(m: Mem, g: Mem, root: nat, v: nat, n: nat, k: nat, va: nat, doFree: bool)
    requires Unmapped(m, g, root, v, k) && va / PGSIZE == v + k && k < n
    requires doFree ==> UserRange(m, root, v, n)
    ensures doFree && va < VA_MAX && IsValid(Pte(g, root, v + k)) ==> User(Pte(g, root, v + k))
    ensures FramesOf(m, root, v, k + 1) == (if va < VA_MAX && IsValid(Pte(g, root, v + k)) then
              [Pa(Pte(g, root, v + k))] else []) + FramesOf(m, root, v, k)
  {
    hide Pte, IsValid, User, Pa, Unmapped;
    assert va < VA_MAX <==> v + k < VPNS;
    if va < VA_MAX { NotYet(m, g, root, v, k); }
  }

  lemma InRange(va: nat, len: nat, k: nat)
    ensures Nth(va, k) < va + len ==> k < Count(len)
    ensures Nth(va, k) >= va + len && k <= Count(len) ==> k == Count(len)
  {}

  lemma OwnOf(m: Mem, owner: map<nat, Pos>, root: nat, v: nat)
    requires Consistent(m, owner) && IsValid(Pte(m, root, v))
    ensures Own(Pte(m, root, v)) == if User(Pte(m, root, v)) then Pa(Pte(m, root, v)) else 0
    ensures User(Pte(m, root, v)) ==> Pa(Pte(m, root, v)) != 0
  {
    LeafEntryOf(m, owner, root, v);
    hide Pte, Flags, Consistent;
  }

  lemma LeafEntryOf(m: Mem, owner: map<nat, Pos>, root: nat, v: nat)
    requires Consistent(m, owner)
    ensures LeafEntry(Pte(m, root, v))
  {
    hide Trees, Ptr, LeafEntry, Vpn0, L0Pos, Owned, Level, UpperEntry;
    assert LeafEntry(0) by { OwnZero(); }
    Levels(root, v);
    var t := Ptr(Trees(m), L0Pos(root, v));
    if t != 0 { PtrEntry(m, owner, L0Pos(root, v), Vpn0(v)); }
  }

  /** The frame behind a valid user entry belongs to that entry alone. */
  lemma LeafFrame(m: Mem, owner: map<nat, Pos>, k: Pmem.Pool, kfree: seq<nat>, u: Pmem.Pool, ufree: seq<nat>,
                  frames: set<nat>, root: nat, v: nat)
    requires Consistent(m, owner) && Pooled(owner, k, kfree, u, ufree, frames)
    requires IsValid(Pte(m, root, v)) && User(Pte(m, root, v))
    ensures var b := Pa(Pte(m, root, v));
            b != 0 && b in owner && owner[b] == LeafPos(root, v) && u.InRange(b) && b !in ufree && b in frames
  {
    OwnOf(m, owner, root, v);
    LeafOwns(m, owner, root, v);
    Levels(root, v);
    hide Trees, LeafPos, Pte, IsValid, User, Pa, Own, Level, TablesOk;
    assert Ptr(Trees(m), LeafPos(root, v)) != 0;
  }

  predicate UserPerm(perm: nat) { perm / 16 % 2 == 1 }

  /** The permissions a lowest-level entry may have: some permission bit is set. */
  predicate LeafPerm(perm: nat) {
    perm < 1024 && (perm / 2 % 8 != 0 || UserPerm(perm))
  }

  lemma MadeLeaf(pa: nat, perm: nat)
    requires pa % PGSIZE == 0 && LeafPerm(perm)
    ensures var e := MakePte(pa, perm);
            && Own(e) == (if UserPerm(perm) then pa else 0)
            && IsValid(e) && (User(e) <==> UserPerm(perm))
            && ((User(e) ==> pa != 0) ==> LeafEntry(e))
  {
    MadePte(pa, perm);
    MadePerm(pa, perm);
    hide MakePte, Pa, Flags;
  }

  /** Pages that got a new owner are table pages from pool `k` or one of `n` frames from `pa` on. */
  ghost predicate Took(k: Pmem.Pool, was: map<nat, Pos>, now: map<nat, Pos>, pa: nat, n: nat) {
    forall b {:trigger now[b]} {:trigger b in now} :: b in now ==>
      (b in was && now[b] == was[b]) || k.InRange(b) || InRun(b, pa, n)
  }

  predicate InRun(b: nat, pa: nat, n: nat) {
    pa <= b < pa + n * PGSIZE && (b - pa) % PGSIZE == 0
  }

  /** VA_TO_VPN */
  function AddrVpn(va: nat, level: nat): (k: nat)
    requires level <= 2
    ensures k < ENTRIES
  {
    (if level == 2 then va / 0x4000_0000 else if level == 1 then va / 0x20_0000 else va / PGSIZE) % ENTRIES
  }

  lemma VpnOf(va: nat)
    ensures AddrVpn(va, 2) == Vpn2(va / PGSIZE) && AddrVpn(va, 1) == Vpn1(va / PGSIZE)
    ensures AddrVpn(va, 0) == Vpn0(va / PGSIZE)
  {
    assert va / PGSIZE / 0x40000 == va / 0x4000_0000;
    assert va / PGSIZE / ENTRIES == va / 0x20_0000;
  }

  lemma SubLevel(p: Pos, j: nat)
    ensures Level(RANK, Sub(p, j)) == Level(RANK, p) - 1
  {}

  lemma AttachedEntry(m: Mem, t: nat, j: nat, b: nat)
    requires t in m.tables && j < ENTRIES && t != b
    ensures t in AttachTable(m, t, j, b).tables && AttachTable(m, t, j, b).tables[t][j] == MakePte(b, 0)
  {}

  lemma UpperIs(m: Mem, owner: map<nat, Pos>, t: nat, j: nat)
    requires Consistent(m, owner) && t in owner && t in m.tables && Level(RANK, owner[t]) > 1 && j < ENTRIES
    ensures var e := m.tables[t][j]; UpperEntry(e) && Own(e) == if IsValid(e) then Pa(e) else 0
  {
    hide Level, Owned, Flags;
  }

  lemma TookGrew(k: Pmem.Pool, was: map<nat, Pos>, now: map<nat, Pos>, pa: nat)
    requires Grew(k, was, now)
    ensures Took(k, was, now, pa, 1)
  {}

  lemma TookBoth(k: Pmem.Pool, a: map<nat, Pos>, b: map<nat, Pos>, c: map<nat, Pos>, pa: nat)
    requires Took(k, a, b, pa, 1) && Took(k, b, c, pa, 1)
    ensures Took(k, a, c, pa, 1)
  {
    hide InRun;
  }

  lemma SameEntry(m: Mem, g: Mem, root: nat, v: nat)
    requires SameLookups(m, g)
    ensures Pte(g, root, v) == Pte(m, root, v)
  {}

  lemma TookOne(k: Pmem.Pool, a: map<nat, Pos>, pa: nat, p: Pos, was: nat, now: nat)
    requires now == 0 || now == pa
    ensures Took(k, a, Reown(a, p, was, now), pa, 1)
  {
    assert InRun(pa, pa, 1);
  }

  lemma TookNone(k: Pmem.Pool, owner: map<nat, Pos>, pa: nat)
    ensures Took(k, owner, owner, pa, 0)
  {}

  lemma TookWider(k: Pmem.Pool, was: map<nat, Pos>, now: map<nat, Pos>, pa: nat, i: nat, n: nat)
    requires Took(k, was, now, pa, i) && i <= n
    ensures Took(k, was, now, pa, n)
  {}

  lemma MappedNone(m: Mem, root: nat, v: nat, pa: nat, perm: nat)
    requires perm < 1024
    ensures Mapped(m, m, root, v, 0, pa, perm)
  {
    hide MakePte, Pte;
  }

  /** The start of page number `k` of a range. */
  function Nth(a: nat, k: nat): nat { a + k * PGSIZE }

  /** The last address of a range, in 64 bits. */
  function LastAddr(va: nat, len: nat): (last: nat)
    requires len > 0
    ensures last < va + len
  {
    (va + len - 1) % U64
  }

  predicate PageStart(a: nat) { a % PGSIZE == 0 }

  function PageOf(a: nat): nat { a / PGSIZE }

  function Wrap(a: nat): nat { a % U64 }

  function PageBase(a: nat): nat { a - a % PGSIZE }

  lemma SomePages(len: nat)
    ensures len > 0 ==> Count(len) > 0
  {}

  lemma NthPage(a: nat, k: nat)
    ensures Nth(a, 0) == a && a <= Nth(a, k) && Nth(a, k) + PGSIZE == Nth(a, k + 1)
    ensures a % PGSIZE == 0 ==> PageOf(Nth(a, k)) == PageOf(a) + k && PageStart(Nth(a, k))
  {}

  lemma PageBelow0(va: nat)
    ensures va < VA_MAX ==> va / PGSIZE < VPNS
  {}

  lemma PageBelow(va: nat)
    requires va < VA_MAX
    ensures va / PGSIZE < VPNS && PageOf(va) < VPNS
  {}

  /** Advancing within VA_MAX does not wrap around. */
  lemma NoWrap(a: nat)
    requires a < VA_MAX
    ensures Wrap(a + PGSIZE) == a + PGSIZE
  {}

  /** A page of the range beyond VA_MAX means that the range is too long. */
  lemma BeyondEnd(va: nat, len: nat, k: nat)
    requires k < Count(len)
    ensures Nth(va, k) >= VA_MAX ==> va + len > VA_MAX
  {}

  /** vm_mappages recognises the last page, also when the end of the range wraps around. */
  lemma LastPage(va: nat, len: nat, k: nat)
    requires va % PGSIZE == 0 && va < U64 && 0 < len < U64 && k < Count(len)
    requires LastAddr(va, len) < VA_MAX && Nth(va, k) < VA_MAX
    ensures Nth(va, k) == PageBase(LastAddr(va, len)) ==> k + 1 == Count(len) && va + len <= VA_MAX
    ensures Nth(va, k) != PageBase(LastAddr(va, len)) ==> k + 1 < Count(len)
  {
    if va + len - 1 < U64 {
      assert (va + len - 1) / PGSIZE == va / PGSIZE + (len - 1) / PGSIZE;
    }
  }

  lemma TookNext(k: Pmem.Pool, a: map<nat, Pos>, b: map<nat, Pos>, c: map<nat, Pos>, pa: nat, n: nat)
    requires Took(k, a, b, pa, n) && Took(k, b, c, Nth(pa, n), 1)
    ensures Took(k, a, c, pa, n + 1)
  {}

  const TRAMPOLINE: nat := VA_MAX - PGSIZE
  const TRAPFRAME: nat := TRAMPOLINE - PGSIZE

  /** The pages of the trampoline and the trapframe. */
  const FIXED: set<nat> := {TRAMPOLINE / PGSIZE} + {TRAPFRAME / PGSIZE}

  lemma FixedPages()
    ensures Pages(TRAMPOLINE / PGSIZE, TRAMPOLINE / PGSIZE + Count(PGSIZE)) == {TRAMPOLINE / PGSIZE}
    ensures Pages(TRAPFRAME / PGSIZE, TRAPFRAME / PGSIZE + Count(PGSIZE)) == {TRAPFRAME / PGSIZE}
  {}

  lemma FixedNeeds(m: Mem, kfree: seq<nat>, g: Mem, kfree': seq<nat>, root: nat, s: set<nat>, t: set<nat>)
    requires s + t <= FIXED
    ensures s == {} ==> Tabled(m, kfree, m, kfree, root, s)
    ensures (s == {} && g == m && kfree' == kfree) || Tabled(m, kfree, g, kfree', root, s) ==>
              !HasTables(g, kfree', root, t) ==> !HasTables(m, kfree, root, FIXED)
  {
    hide Tabled, HasTables;
    TabledNone(m, kfree, root, 0);
    assert Pages(0, 0) == {};
    if Tabled(m, kfree, g, kfree', root, s) && !HasTables(g, kfree', root, t) {
      TooMany(m, kfree, g, kfree', root, s, t, FIXED);
    }
  }

  /** A table whose root page is fresh has no other tables. */
  lemma RootBare(m: Mem, owner: map<nat, Pos>, r: nat)
    requires Consistent(m, owner) && r != 0 && r !in owner
    ensures Bare(WithRoot(m, r), r)
  {
    hide TablesOk, Level;
    var g := WithRoot(m, r);
    forall v: nat ensures Ptr(Trees(g), L1Pos(r, v)) == 0 && Ptr(Trees(g), L0Pos(r, v)) == 0 {
      assert Ptr(Trees(g), RootPos(r)) == r;
    }
    hide Trees, Ptr, L1Pos, L0Pos;
    forall s: set<nat> ensures Lacking(g, Walks(r, s)) == Walks(r, s) {
      forall v | v in s ensures Level(RANK, L1Pos(r, v)) > 0 && Level(RANK, L0Pos(r, v)) > 0 { Levels(r, v); }
    }
  }

  lemma FixedPerms()
    ensures LeafPerm(PTE_R + PTE_X) && !UserPerm(PTE_R + PTE_X) && LeafPerm(PTE_R + PTE_W) && !UserPerm(PTE_R + PTE_W)
    ensures Count(PGSIZE) == 1
  {}

  lemma FixedMapped(m1: Mem, m2: Mem, m3: Mem, root: nat, trampoline: nat, trapframe: nat)
    requires Mapped(m1, m2, root, TRAMPOLINE / PGSIZE, 1, trampoline, PTE_R + PTE_X)
    requires Mapped(m2, m3, root, TRAPFRAME / PGSIZE, 1, trapframe, PTE_R + PTE_W)
    ensures forall q: nat, w: nat {:trigger Pte(m3, q, w)} :: w < VPNS ==>
                Pte(m3, q, w) == if q != root then Pte(m1, q, w)
                                     else if w == TRAMPOLINE / PGSIZE then MakePte(trampoline, PTE_R + PTE_X)
                                     else if w == TRAPFRAME / PGSIZE then MakePte(trapframe, PTE_R + PTE_W)
                                     else Pte(m1, q, w)
  {
    hide Pte, MakePte;
  }

  /** A page without an owner is not the root of a table. */
  lemma RootFresh(m: Mem, owner: map<nat, Pos>, r: nat)
    requires Consistent(m, owner) && r !in owner
    ensures r !in m.roots && forall v: nat :: Pte(m, r, v) == 0
  {
    if r in m.roots { RootOk(m, owner, r); }
    forall v: nat ensures Pte(m, r, v) == 0 {
      assert Ptr(Trees(m), RootPos(r)) == 0;
      assert Ptr(Trees(m), L1Pos(r, v)) == 0;
    }
  }

  lemma NothingMapped(m: Mem)
    requires m.roots == {} && m.tables == map[]
    ensures Consistent(m, map[])
  {
    forall p ensures Ptr(Trees(m), p) == 0 { NoPtr(m, p); }
  }

  lemma {:induction false} NoPtr(m: Mem, p: Pos)
    requires m.roots == {}
    ensures Ptr(Trees(m), p) == 0
  {
    if p.Sub? { NoPtr(m, p.up); }
  }
}
