/** Sv39 page tables as a radix forest (mem/type.h, mem/kvm.c). */
module PageTree {
  import opened Memory
  import opened RadixForest

  const ENTRIES := 512
  /** Pages below VA_MAX = 2^38. */
  const VPNS := 0x400_0000
  const VA_MAX := 0x40_0000_0000

  const PTE_V := 1
  const PTE_R := 2
  const PTE_W := 4
  const PTE_X := 8
  const PTE_U := 16

  // Page table entries: page number above ten flag bits

  /** PTE_FLAGS */
  function Flags(e: nat): (f: nat)
    ensures f < 1024
  {
    e % 1024
  }

  /** PTE_TO_PA */
  function Pa(e: nat): nat { e / 1024 * PGSIZE }

  predicate IsValid(e: nat) { Flags(e) % 2 == 1 }
  predicate Readable(e: nat) { Flags(e) / 2 % 2 == 1 }
  predicate Writable(e: nat) { Flags(e) / 4 % 2 == 1 }
  predicate Executable(e: nat) { Flags(e) / 8 % 2 == 1 }
  predicate User(e: nat) { Flags(e) / 16 % 2 == 1 }
  /** PTE_CHECK: none of R, W, X. */
  predicate Inner(e: nat) { Flags(e) / 2 % 8 == 0 }

  /** `perm | PTE_V` */
  function WithValid(perm: nat): nat {
    if perm % 2 == 1 then perm else perm + 1
  }

  /** `PA_TO_PTE(pa) | perm | PTE_V` for `perm` below 0x400. */
  function MakePte(pa: nat, perm: nat): nat
    requires perm < 1024
  {
    pa / PGSIZE * 1024 + WithValid(perm)
  }

  lemma MadePte(pa: nat, perm: nat)
    requires pa % PGSIZE == 0 && perm < 1024
    ensures Pa(MakePte(pa, perm)) == pa && Flags(MakePte(pa, perm)) == WithValid(perm) && MakePte(pa, perm) > 0
  {
    var k, p := pa / PGSIZE, WithValid(perm);
    assert p < 1024;
    assert (k * 1024 + p) / 1024 == k;
  }

  /** Bits 10 to 53 are the page number, and bits 0 to 4 are V, R, W, X and U. */
  lemma PteBits(pa: nat, perm: nat)
    requires pa % PGSIZE == 0 && perm < 1024
    ensures var e := MakePte(pa, perm);
            && 4 * (e - e % 1024) == pa && e % 1024 == perm + 1 - perm % 2
            && (IsValid(e) <==> e % 2 == 1) && (Readable(e) <==> e / 2 % 2 == 1) && (Writable(e) <==> e / 4 % 2 == 1)
            && (Executable(e) <==> e / 8 % 2 == 1) && (User(e) <==> e / 16 % 2 == 1)
  {
    MadePte(pa, perm);
    var e := MakePte(pa, perm);
    FlagBits(e / 1024, e % 1024);
    hide MakePte;
    assert e == 1024 * (e / 1024) + e % 1024;
  }

  lemma FlagBits(q: nat, f: nat)
    ensures var e := 1024 * q + f;
            && e % 2 == f % 2 && e / 2 % 2 == f / 2 % 2 && e / 4 % 2 == f / 4 % 2 && e / 8 % 2 == f / 8 % 2
            && e / 16 % 2 == f / 16 % 2
  {
    Halves(512 * q, f);
    Halves(256 * q, f / 2);
    Halves(128 * q, f / 2 / 2);
    Halves(64 * q, f / 2 / 2 / 2);
    Halves(32 * q, f / 2 / 2 / 2 / 2);
    Sixteenth(1024 * q + f);
    Sixteenth(f);
  }

  lemma Halves(a: nat, x: nat)
    ensures (2 * a + x) / 2 == a + x / 2 && (2 * a + x) % 2 == x % 2
  {}

  lemma Sixteenth(x: nat)
    ensures x / 4 == x / 2 / 2 && x / 8 == x / 2 / 2 / 2 && x / 16 == x / 2 / 2 / 2 / 2
  {}

  /** The V bit is set and every other permission is as asked. */
  lemma MadePerm(pa: nat, perm: nat)
    requires pa % PGSIZE == 0 && perm < 1024
    ensures var e := MakePte(pa, perm);
            && IsValid(e)
            && (Readable(e) <==> perm / 2 % 2 == 1) && (Writable(e) <==> perm / 4 % 2 == 1)
            && (User(e) <==> perm / 16 % 2 == 1) && (Inner(e) <==> perm / 2 % 8 == 0)
  {
    MadePte(pa, perm);
    hide MakePte;
    assert WithValid(perm) / 2 == perm / 2;
    assert WithValid(perm) / 4 == perm / 2 / 2 && perm / 4 == perm / 2 / 2;
    assert WithValid(perm) / 16 == perm / 2 / 8 && perm / 16 == perm / 2 / 8;
  }

  /** The page an entry makes its table the owner of: a lower table or a user frame. */
  function Own(e: nat): nat {
    if IsValid(e) && (Inner(e) || User(e)) then Pa(e) else 0
  }

  type Table = t: seq<nat> | |t| == ENTRIES witness seq(ENTRIES, _ => 0)

  function Owns(t: Table): (s: seq<nat>)
    ensures |s| == ENTRIES && forall j :: 0 <= j < ENTRIES ==> s[j] == Own(t[j])
  {
    seq(ENTRIES, j requires 0 <= j < ENTRIES => Own(t[j]))
  }

  function ZeroTable(): (t: Table)
    ensures forall j :: 0 <= j < ENTRIES ==> t[j] == 0
  {
    seq(ENTRIES, _ => 0)
  }

  /** The root pages of all page tables and the pages used as tables. */
  datatype Mem = Mem(roots: set<nat>, tables: map<nat, Table>)

  const RANK: seq<nat> := [3]

  function Trees(m: Mem): Forest {
    Forest(map r | r in m.roots :: [r], RANK, map t | t in m.tables :: Owns(m.tables[t]))
  }

  // VA_TO_VPN at each level, for the page number of an address

  function Vpn2(v: nat): (k: nat)
    ensures k < ENTRIES
  {
    v / 0x40000 % ENTRIES
  }

  function Vpn1(v: nat): (k: nat)
    ensures k < ENTRIES
  {
    v / ENTRIES % ENTRIES
  }

  function Vpn0(v: nat): (k: nat)
    ensures k < ENTRIES
  {
    v % ENTRIES
  }


  function RootPos(r: nat): Pos { Top(r, 0) }
  function L1Pos(r: nat, v: nat): Pos { Sub(RootPos(r), Vpn2(v)) }
  function L0Pos(r: nat, v: nat): Pos { Sub(L1Pos(r, v), Vpn1(v)) }
  function LeafPos(r: nat, v: nat): Pos { Sub(L0Pos(r, v), Vpn0(v)) }

  /** The three indices of a page number are its digits to base 512, highest first. */
  lemma VpnsMake(v: nat)
    requires v < VPNS
    ensures v == (Vpn2(v) * ENTRIES + Vpn1(v)) * ENTRIES + Vpn0(v) && Vpn2(v) < 256
  {
    var q := v / ENTRIES;
    assert q / ENTRIES == v / 0x40000 < 256;
  }

  lemma Levels(r: nat, v: nat)
    ensures Level(RANK, RootPos(r)) == 3 && Level(RANK, L1Pos(r, v)) == 2 && Level(RANK, L0Pos(r, v)) == 1
    ensures Level(RANK, LeafPos(r, v)) == 0
  {
    assert Level(RANK, RootPos(r)) == 3;
    assert Level(RANK, L1Pos(r, v)) == 2;
    assert Level(RANK, L0Pos(r, v)) == 1;
  }

  lemma LeafPosInjective(r: nat, v: nat, q: nat, w: nat)
    requires v < VPNS && w < VPNS && LeafPos(r, v) == LeafPos(q, w)
    ensures r == q && v == w
  {
    assert v / 0x40000 < ENTRIES && w / 0x40000 < ENTRIES;
    assert v / ENTRIES / ENTRIES == v / 0x40000 && w / ENTRIES / ENTRIES == w / 0x40000;
  }

  /** The entry for page `v` in the table with root `r`, 0 when there is no table for it. */
  function Pte(m: Mem, r: nat, v: nat): nat {
    var t := Ptr(Trees(m), L0Pos(r, v));
    if t != 0 && t in m.tables then m.tables[t][Vpn0(v)] else 0
  }

  /** Every table page and user frame hangs on one entry only; upper entries are empty or lead to a table. */
  ghost predicate Consistent(m: Mem, owner: map<nat, Pos>) {
    && Owned(Trees(m), owner)
    && 0 !in m.roots
    && TablesOk(m, owner)
  }

  predicate UpperEntry(e: nat) { IsValid(e) ==> Inner(e) && Pa(e) != 0 }

  /** A valid entry of a lowest table has a permission bit, and a user entry has a frame. */
  predicate LeafEntry(e: nat) { IsValid(e) ==> (!Inner(e) || User(e)) && (User(e) ==> Pa(e) != 0) }

  ghost predicate TablesOk(m: Mem, owner: map<nat, Pos>) {
    && (forall b {:trigger owner[b]} :: b in owner && Level(RANK, owner[b]) > 0 ==> b in m.tables)
    && (forall b, j {:trigger m.tables[b][j]} ::
        b in owner && Level(RANK, owner[b]) > 1 && b in m.tables && 0 <= j < ENTRIES ==>
          UpperEntry(m.tables[b][j]))
    && (forall b, j {:trigger m.tables[b][j]} ::
        b in owner && Level(RANK, owner[b]) == 1 && b in m.tables && 0 <= j < ENTRIES ==>
          LeafEntry(m.tables[b][j]))
  }

  function PutEntry(m: Mem, t: nat, j: nat, e: nat): Mem
    requires t in m.tables && j < ENTRIES
  {
    m.(tables := m.tables[t := m.tables[t][j := e]])
  }

  lemma TreesPut(m: Mem, t: nat, j: nat, e: nat)
    requires t in m.tables && j < ENTRIES
    ensures Trees(PutEntry(m, t, j, e)) == Trees(m).(kids := Trees(m).kids[t := Put(Trees(m).kids[t], j, Own(e))])
  {
    var g := PutEntry(m, t, j, e);
    assert Owns(g.tables[t]) == Put(Owns(m.tables[t]), j, Own(e));
    assert Trees(g).kids == Trees(m).kids[t := Put(Trees(m).kids[t], j, Own(e))];
  }

  lemma PtrRoot(m: Mem, r: nat)
    requires r in m.roots
    ensures Ptr(Trees(m), RootPos(r)) == r && Cell(Trees(m), RootPos(r))
  {}

  /** What a cell below a table holds. */
  lemma PtrEntry(m: Mem, owner: map<nat, Pos>, up: Pos, j: nat)
    requires Consistent(m, owner) && Ptr(Trees(m), up) != 0 && Level(RANK, up) > 0 && j < ENTRIES
    ensures var t := Ptr(Trees(m), up);
            t in owner && owner[t] == up && t in m.tables && Cell(Trees(m), Sub(up, j)) &&
                Ptr(Trees(m), Sub(up, j)) == Own(m.tables[t][j])
  {
    var t := Ptr(Trees(m), up);
    assert t in owner && owner[t] == up;
  }

  /** Hang the fresh, empty table `b` on entry `j` of an upper table. */
  function AttachTable(m: Mem, t: nat, j: nat, b: nat): Mem
    requires t in m.tables && j < ENTRIES
  {
    var g := PutEntry(m, t, j, MakePte(b, 0));
    g.(tables := g.tables[b := ZeroTable()])
  }

  lemma TreesNew(m: Mem, b: nat)
    ensures Trees(m.(tables := m.tables[b := ZeroTable()])) == Trees(m).(kids := Trees(m).kids[b := Owns(ZeroTable())])
  {
    var g := m.(tables := m.tables[b := ZeroTable()]);
    assert Trees(g).kids == Trees(m).kids[b := Owns(ZeroTable())];
  }

  lemma OwnInner(b: nat)
    requires b % PGSIZE == 0
    ensures var e := MakePte(b, 0); Own(e) == b && IsValid(e) && Inner(e) && Pa(e) == b
  {
    MadePte(b, 0);
    MadePerm(b, 0);
    hide MakePte, Flags, Pa;
  }

  lemma AttachTableTrees(m: Mem, owner: map<nat, Pos>, up: Pos, j: nat, b: nat)
    requires Consistent(m, owner) && Ptr(Trees(m), up) != 0 && Level(RANK, up) > 0 && j < ENTRIES
    requires b != 0 && b % PGSIZE == 0 && b !in owner
    ensures var t := Ptr(Trees(m), up);
            t in m.tables && t != b && Cell(Trees(m), Sub(up, j)) &&
            Trees(AttachTable(m, t, j, b)) == Attach(Trees(m), Sub(up, j), b, Owns(ZeroTable()))
  {
    PtrEntry(m, owner, up, j);
    var t := Ptr(Trees(m), up);
    OwnInner(b);
    hide Trees, MakePte, Own, Owns, Ptr, Owned;
    TreesPut(m, t, j, MakePte(b, 0));
    TreesNew(PutEntry(m, t, j, MakePte(b, 0)), b);
  }

  lemma AttachTableOk(m: Mem, owner: map<nat, Pos>, p: Pos, t: nat, j: nat, b: nat)
    requires TablesOk(m, owner) && t in m.tables && j < ENTRIES && b % PGSIZE == 0 && b != 0 && b != t
    requires t in owner && Level(RANK, owner[t]) > 1
    ensures TablesOk(AttachTable(m, t, j, b), owner[b := p])
  {
    OwnInner(b);
    assert UpperEntry(MakePte(b, 0));
    assert UpperEntry(0) && LeafEntry(0);
    hide UpperEntry, LeafEntry, MakePte, Level;
  }

  /** A new table changes no lookup: vm_getpte with `alloc` is invisible. */
  lemma AttachTableKeeps(m: Mem, owner: map<nat, Pos>, up: Pos, j: nat, b: nat)
    requires Consistent(m, owner) && Ptr(Trees(m), up) != 0 && Level(RANK, up) > 1 && j < ENTRIES
    requires b != 0 && b % PGSIZE == 0 && b !in owner && Ptr(Trees(m), Sub(up, j)) == 0
    ensures Ptr(Trees(m), up) in m.tables
    ensures var g := AttachTable(m, Ptr(Trees(m), up), j, b);
            && Consistent(g, owner[b := Sub(up, j)])
            && (forall q {:trigger Ptr(Trees(g), q)} ::
                Ptr(Trees(g), q) == if q == Sub(up, j) then b else Ptr(Trees(m), q))
            && (forall r: nat, v: nat {:trigger Pte(g, r, v)} :: Pte(g, r, v) == Pte(m, r, v))
  {
    hide TablesOk, Owned, Trees, Owns, Attach, Ptr, Cell, Pte, Blank, AttachTable;
    PtrEntry(m, owner, up, j);
    var t := Ptr(Trees(m), up);
    BlankZero();
    AttachTableTrees(m, owner, up, j, b);
    AttachOwned(Trees(m), owner, Sub(up, j), b, Owns(ZeroTable()));
    AttachTableOk(m, owner, Sub(up, j), t, j, b);
    forall r: nat, v: nat
      ensures Pte(AttachTable(m, t, j, b), r, v) == Pte(m, r, v)
    {
      AttachTablePte(m, owner, up, j, b, r, v);
    }
    assert AttachTable(m, t, j, b).roots == m.roots by { RootsSame(m, t, j, b); }
  }

  lemma RootsSame(m: Mem, t: nat, j: nat, b: nat)
    requires t in m.tables && j < ENTRIES
    ensures AttachTable(m, t, j, b).roots == m.roots
  {}

  lemma AttachTablePte(m: Mem, owner: map<nat, Pos>, up: Pos, j: nat, b: nat, r: nat, v: nat)
    requires Owned(Trees(m), owner) && b !in owner && Level(RANK, up) > 1 && j < ENTRIES
    requires var t := Ptr(Trees(m), up);
             t in owner && owner[t] == up && t in m.tables &&
             var g := AttachTable(m, t, j, b);
             forall q {:trigger Ptr(Trees(g), q)} :: Ptr(Trees(g), q) == if q == Sub(up, j) then b else Ptr(Trees(m), q)
    requires Ptr(Trees(m), Sub(up, j)) == 0
    ensures Pte(AttachTable(m, Ptr(Trees(m), up), j, b), r, v) == Pte(m, r, v)
  {
    Levels(r, v);
    hide Trees, MakePte, Own, Owns, Ptr, L0Pos, Level;
    var c := Ptr(Trees(m), L0Pos(r, v));
    if c != 0 { assert c in owner && owner[c] == L0Pos(r, v); }
  }

  lemma BlankZero()
    ensures Blank(Owns(ZeroTable()))
  {}

  // Leaf entries

  lemma LeafOwns(m: Mem, owner: map<nat, Pos>, r: nat, v: nat)
    requires Consistent(m, owner)
    ensures Ptr(Trees(m), LeafPos(r, v)) == Own(Pte(m, r, v))
    ensures Ptr(Trees(m), L0Pos(r, v)) != 0 ==> Ptr(Trees(m), L0Pos(r, v)) in m.tables
  {
    Levels(r, v);
    hide TablesOk, Owns, L0Pos;
    var t := Ptr(Trees(m), L0Pos(r, v));
    if t != 0 { PtrEntry(m, owner, L0Pos(r, v), Vpn0(v)); }
  }

  lemma SetLeafOk(m: Mem, owner: map<nat, Pos>, t: nat, j: nat, e: nat, p: Pos, was: nat, now: nat)
    requires TablesOk(m, owner) && t in owner && t in m.tables && Level(RANK, owner[t]) == 1 && j < ENTRIES
    requires Level(RANK, p) == 0
    requires LeafEntry(e)
    ensures TablesOk(PutEntry(m, t, j, e), Reown(owner, p, was, now))
  {
    hide UpperEntry, LeafEntry, Level;
  }

  lemma SetLeafTrees(m: Mem, r: nat, v: nat, e: nat)
    requires var t := Ptr(Trees(m), L0Pos(r, v)); t != 0 && t in m.tables && Cell(Trees(m), LeafPos(r, v))
    ensures Trees(PutEntry(m, Ptr(Trees(m), L0Pos(r, v)), Vpn0(v), e)) == SetPtr(Trees(m), LeafPos(r, v), Own(e))
  {
    TreesPut(m, Ptr(Trees(m), L0Pos(r, v)), Vpn0(v), e);
    hide Trees, Own, Owns, L0Pos, Ptr;
  }

  lemma SetLeafPte(m: Mem, owner: map<nat, Pos>, r: nat, v: nat, e: nat, q: nat, w: nat)
    requires Owned(Trees(m), owner) && v < VPNS && w < VPNS
    requires Ptr(Trees(m), L0Pos(r, v)) != 0 && Ptr(Trees(m), L0Pos(r, v)) in m.tables
    requires var g := PutEntry(m, Ptr(Trees(m), L0Pos(r, v)), Vpn0(v), e);
             Ptr(Trees(g), L0Pos(q, w)) == Ptr(Trees(m), L0Pos(q, w))
    ensures Pte(PutEntry(m, Ptr(Trees(m), L0Pos(r, v)), Vpn0(v), e), q, w) == if q == r && w == v then e
              else Pte(m, q, w)
  {
    var t := Ptr(Trees(m), L0Pos(r, v));
    var c := Ptr(Trees(m), L0Pos(q, w));
    assert t in owner && owner[t] == L0Pos(r, v);
    if c == t {
      assert owner[t] == L0Pos(q, w);
      if Vpn0(w) == Vpn0(v) { LeafPosInjective(r, v, q, w); }
    }
    hide Trees, Own, Owns, Ptr, L0Pos, Vpn0;
  }

  /** Writing one leaf entry changes exactly that lookup, and who owns the two frames involved. */
  lemma SetLeaf(m: Mem, owner: map<nat, Pos>, r: nat, v: nat, e: nat)
    requires Consistent(m, owner) && v < VPNS && Ptr(Trees(m), L0Pos(r, v)) != 0
    requires LeafEntry(e) && (Own(e) == 0 || Own(e) !in owner || owner[Own(e)] == LeafPos(r, v))
    ensures Ptr(Trees(m), L0Pos(r, v)) in m.tables
    ensures var g := PutEntry(m, Ptr(Trees(m), L0Pos(r, v)), Vpn0(v), e);
            && Consistent(g, Reown(owner, LeafPos(r, v), Own(Pte(m, r, v)), Own(e)))
            && (forall q: nat, w: nat {:trigger Pte(g, q, w)} :: w < VPNS ==>
                Pte(g, q, w) == if q == r && w == v then e else Pte(m, q, w))
            && (forall p {:trigger Ptr(Trees(g), p)} ::
                Ptr(Trees(g), p) == if p == LeafPos(r, v) then Own(e) else Ptr(Trees(m), p))
  {
    hide TablesOk, Owned, Trees, Owns, Own, Ptr, Cell, Pte, SetPtr, PutEntry, Level, Reown, L0Pos, Vpn0;
    LeafOwns(m, owner, r, v);
    Levels(r, v);
    var t := Ptr(Trees(m), L0Pos(r, v));
    PtrEntry(m, owner, L0Pos(r, v), Vpn0(v));
    SetLeafTrees(m, r, v, e);
    var g := PutEntry(m, t, Vpn0(v), e);
    assert Trees(m).rank == RANK by { RankIs(m); }
    SetLeafOwned(Trees(m), owner, LeafPos(r, v), Own(e));
    SetLeafOk(m, owner, t, Vpn0(v), e, LeafPos(r, v), Own(Pte(m, r, v)), Own(e));
    assert g.roots == m.roots by { PutRoots(m, t, Vpn0(v), e); }
    forall q: nat, w: nat | w < VPNS ensures Pte(g, q, w) == if q == r && w == v then e else Pte(m, q, w) {
      Levels(q, w);
      assert L0Pos(q, w) != LeafPos(r, v);
      SetLeafPte(m, owner, r, v, e, q, w);
    }
  }

  lemma RankIs(m: Mem)
    ensures Trees(m).rank == RANK
  {}

  lemma PutRoots(m: Mem, t: nat, j: nat, e: nat)
    requires t in m.tables && j < ENTRIES
    ensures PutEntry(m, t, j, e).roots == m.roots
  {}

  // Whole tables

  /** The fresh, empty page `r` as a new page table. */
  function WithRoot(m: Mem, r: nat): Mem { Mem(m.roots + {r}, m.tables[r := ZeroTable()]) }

  lemma WithRootTrees(m: Mem, r: nat)
    requires r !in m.roots
    ensures var f := Trees(m);
            Trees(WithRoot(m, r)) == f.(tops := f.tops[r := [r]], kids := f.kids[r := Owns(ZeroTable())])
  {
    var f := Trees(m);
    assert Trees(WithRoot(m, r)).kids == f.kids[r := Owns(ZeroTable())];
    assert Trees(WithRoot(m, r)).tops == f.tops[r := [r]];
  }

  /** An empty page table changes no lookup. */
  lemma WithRootKeeps(m: Mem, owner: map<nat, Pos>, r: nat)
    requires Consistent(m, owner) && r != 0 && r !in owner
    ensures Consistent(WithRoot(m, r), owner[r := RootPos(r)])
    ensures forall q: nat, v: nat {:trigger Pte(WithRoot(m, r), q, v)} :: Pte(WithRoot(m, r), q, v) == Pte(m, q, v)
  {
    var g := WithRoot(m, r);
    assert r !in m.roots by {
      if r in m.roots { PtrRoot(m, r); }
    }
    WithRootTrees(m, r);
    BlankZero();
    hide Trees, Owned, Owns, Ptr, Pte;
    assert |Trees(m).rank| == 1 && r !in Trees(m).tops by { TopsOf(m, r); }
    AddRootOwned(Trees(m), owner, r, Owns(ZeroTable()));
    assert LeafEntry(0) && UpperEntry(0);
    forall q: nat, v: nat ensures Pte(g, q, v) == Pte(m, q, v) { WithRootPte(m, owner, r, q, v); }
  }

  lemma TopsOf(m: Mem, r: nat)
    ensures Trees(m).rank == RANK && (r in Trees(m).tops <==> r in m.roots)
  {}

  lemma WithRootPte(m: Mem, owner: map<nat, Pos>, r: nat, q: nat, v: nat)
    requires Owned(Trees(m), owner) && r !in owner
    requires Ptr(Trees(WithRoot(m, r)), L0Pos(q, v)) == Ptr(Trees(m), L0Pos(q, v))
    ensures Pte(WithRoot(m, r), q, v) == Pte(m, q, v)
  {
    hide Trees;
    var c := Ptr(Trees(m), L0Pos(q, v));
    if c != 0 { assert c in owner; }
  }

  function DropRoot(m: Mem, r: nat): Mem { m.(roots := m.roots - {r}) }

  /** Dropping a page table empties its lookups and no others. */
  lemma DropRootKeeps(m: Mem, owner: map<nat, Pos>, r: nat)
    requires Consistent(m, owner)
    ensures Consistent(DropRoot(m, r), WithoutRoot(owner, r))
    ensures forall q: nat, v: nat {:trigger Pte(DropRoot(m, r), q, v)} ::
              Pte(DropRoot(m, r), q, v) == if q == r then 0 else Pte(m, q, v)
  {
    var g := DropRoot(m, r);
    assert Trees(g) == Trees(m).(tops := Trees(m).tops - {r});
    hide Trees, Owned, Owns, Ptr;
    DropRootOwned(Trees(m), owner, r);
    forall q: nat, v: nat ensures Pte(g, q, v) == if q == r then 0 else Pte(m, q, v) {
      assert Root(L0Pos(q, v)) == q by { assert Root(RootPos(q)) == q && Root(L1Pos(q, v)) == q; }
    }
  }
}
