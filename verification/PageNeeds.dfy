/** What mapping a set of pages takes from the page pools: a page for each missing table, and a frame for each page. */
module PageNeeds {
  import opened RadixForest
  import opened PageTree

  function Pages(lo: nat, hi: nat): (s: set<nat>)
    ensures forall v: nat :: v in s <==> lo <= v < hi
  {
    if lo >= hi then {} else Pages(lo, hi - 1) + {hi - 1}
  }

  /** The cells below the root that vm_getpte visits for the pages `s`. */
  function Walks(root: nat, s: set<nat>): set<Pos> {
    (set v | v in s :: L1Pos(root, v)) + (set v | v in s :: L0Pos(root, v))
  }

  /** Those of the cells `c` that have no table. */
  ghost function Lacking(m: Mem, c: set<Pos>): set<Pos> {
    set p | p in c && Level(RANK, p) > 0 && Ptr(Trees(m), p) == 0
  }

  /** Every page that left the kernel pool has become a table in one of `cells`, and no table is gone. */
  ghost predicate Spent(m: Mem, kfree: seq<nat>, g: Mem, kfree': seq<nat>, cells: set<Pos>) {
    forall c: set<Pos> {:trigger Lacking(g, c)} :: cells <= c ==>
      Lacking(g, c) <= Lacking(m, c) && |Lacking(m, c)| - |Lacking(g, c)| == |kfree| - |kfree'|
  }

  /** The kernel pool has the tables that the pages `s` lack. */
  ghost predicate HasTables(m: Mem, kfree: seq<nat>, root: nat, s: set<nat>) {
    |Lacking(m, Walks(root, s))| <= |kfree|
  }

  /** The pools have what it takes to map the pages `s` to new frames. */
  ghost predicate Affords(m: Mem, kfree: seq<nat>, ufree: seq<nat>, root: nat, s: set<nat>) {
    HasTables(m, kfree, root, s) && |s| <= |ufree|
  }

  /** The pages `s` have their tables, and the kernel pool has paid for them. */
  ghost predicate Tabled(m: Mem, kfree: seq<nat>, g: Mem, kfree': seq<nat>, root: nat, s: set<nat>) {
    Spent(m, kfree, g, kfree', Walks(root, s)) && Lacking(g, Walks(root, s)) == {}
  }

  /** A table for one of the pages `s` is missing, and there is no page for it. */
  ghost predicate Broke(m: Mem, kfree: seq<nat>, g: Mem, kfree': seq<nat>, root: nat, s: set<nat>) {
    Spent(m, kfree, g, kfree', Walks(root, s)) && Lacking(g, Walks(root, s)) != {} && kfree' == []
  }

  lemma SpentNone(m: Mem, kfree: seq<nat>, cells: set<Pos>)
    ensures Spent(m, kfree, m, kfree, cells)
  {
    hide Lacking;
  }

  lemma SpentThen(m: Mem, kfree: seq<nat>, g: Mem, kfree': seq<nat>, h: Mem, kfree'': seq<nat>, c: set<Pos>,
                  d: set<Pos>)
    requires Spent(m, kfree, g, kfree', c) && Spent(g, kfree', h, kfree'', d)
    ensures Spent(m, kfree, h, kfree'', c + d)
  {
    hide Lacking;
    forall e: set<Pos> | c + d <= e
      ensures Lacking(h, e) <= Lacking(m, e) && |Lacking(m, e)| - |Lacking(h, e)| == |kfree| - |kfree''|
    {
      assert Lacking(g, e) <= Lacking(m, e) && Lacking(h, e) <= Lacking(g, e);
    }
  }

  /** Attaching one table. */
  lemma SpentOne(m: Mem, g: Mem, p: Pos, b: nat, rest: seq<nat>)
    requires Level(RANK, p) > 0 && Ptr(Trees(m), p) == 0 && b != 0
    requires forall q {:trigger Ptr(Trees(g), q)} :: Ptr(Trees(g), q) == if q == p then b else Ptr(Trees(m), q)
    ensures Spent(m, [b] + rest, g, rest, {p})
  {
    hide Trees, Ptr, Level;
    forall c: set<Pos> | {p} <= c
      ensures Lacking(g, c) <= Lacking(m, c) && |Lacking(m, c)| - |Lacking(g, c)| == 1
    {
      assert p in c && p in Lacking(m, c);
      assert Lacking(g, c) == Lacking(m, c) - {p};
    }
  }

  /** Entries that lead to no table need no page. */
  lemma SpentLeaf(m: Mem, g: Mem, p: Pos, kfree: seq<nat>)
    requires Level(RANK, p) == 0
    requires forall q {:trigger Ptr(Trees(g), q)} :: q != p ==> Ptr(Trees(g), q) == Ptr(Trees(m), q)
    ensures Spent(m, kfree, g, kfree, {})
  {
    hide Trees, Ptr, Level;
    forall c: set<Pos>
      ensures Lacking(g, c) == Lacking(m, c)
    {}
  }

  /** A step for one of the cells. */
  lemma SpentStep(m: Mem, kfree: seq<nat>, g: Mem, kfree': seq<nat>, h: Mem, kfree'': seq<nat>, cells: set<Pos>, p: Pos)
    requires Spent(m, kfree, g, kfree', cells) && Spent(g, kfree', h, kfree'', {p}) && p in cells
    ensures Spent(m, kfree, h, kfree'', cells)
  {
    assert cells + {p} == cells;
    SpentThen(m, kfree, g, kfree', h, kfree'', cells, {p});
  }

  /** The walk to page `v` has reached the lowest table, so no table is missing on it. */
  lemma WalkDone(m: Mem, root: nat, v: nat)
    requires Ptr(Trees(m), L0Pos(root, v)) != 0
    ensures Lacking(m, Walks(root, {v})) == {}
  {
    hide Trees;
  }

  /** A cell of the walk to page `v` has no table. */
  lemma WalkBroken(m: Mem, root: nat, v: nat, p: Pos)
    requires p in Walks(root, {v}) && Ptr(Trees(m), p) == 0
    ensures Lacking(m, Walks(root, {v})) != {}
  {
    Levels(root, v);
    hide Trees, Ptr, L0Pos, Level;
    assert p in Lacking(m, Walks(root, {v}));
  }

  lemma WalksPlus(root: nat, s: set<nat>, t: set<nat>)
    ensures Walks(root, s + t) == Walks(root, s) + Walks(root, t)
  {
    hide L1Pos, L0Pos;
  }

  lemma WalksMore(root: nat, s: set<nat>, t: set<nat>)
    requires s <= t
    ensures Walks(root, s) <= Walks(root, t)
  {
    assert s + t == t;
    WalksPlus(root, s, t);
  }

  /** Paying for one set of pages and then for another. */
  lemma TabledThen(m: Mem, kfree: seq<nat>, g: Mem, kfree': seq<nat>, h: Mem, kfree'': seq<nat>, root: nat, s: set<nat>,
                   t: set<nat>)
    requires Tabled(m, kfree, g, kfree', root, s) && Tabled(g, kfree', h, kfree'', root, t)
    ensures Tabled(m, kfree, h, kfree'', root, s + t)
  {
    hide Ptr, Trees, Level, Walks;
    WalksPlus(root, s, t);
    SpentThen(m, kfree, g, kfree', h, kfree'', Walks(root, s), Walks(root, t));
    forall p | p in Walks(root, s) && Level(RANK, p) > 0 ensures Ptr(Trees(h), p) != 0 {
      assert p !in Lacking(g, Walks(root, s));
      StaysFull(g, kfree', h, kfree'', Walks(root, t), p);
    }
    forall p | p in Walks(root, t) && Level(RANK, p) > 0 ensures Ptr(Trees(h), p) != 0 {
      assert p !in Lacking(h, Walks(root, t));
    }
    assert Lacking(h, Walks(root, s + t)) == {};
  }

  lemma TabledNone(m: Mem, kfree: seq<nat>, root: nat, v: nat)
    ensures Tabled(m, kfree, m, kfree, root, Pages(v, v))
  {
    hide Level;
  }

  /** Writing a lowest entry. */
  lemma LeafTabled(m: Mem, g: Mem, root: nat, v: nat, kfree: seq<nat>)
    requires forall q {:trigger Ptr(Trees(g), q)} :: q != LeafPos(root, v) ==> Ptr(Trees(g), q) == Ptr(Trees(m), q)
    ensures Tabled(m, kfree, g, kfree, root, {})
  {
    Levels(root, v);
    hide Level, Trees, Ptr, LeafPos;
    SpentLeaf(m, g, LeafPos(root, v), kfree);
  }

  lemma StaysFull(m: Mem, kfree: seq<nat>, g: Mem, kfree': seq<nat>, cells: set<Pos>, p: Pos)
    requires Spent(m, kfree, g, kfree', cells) && Level(RANK, p) > 0 && Ptr(Trees(m), p) != 0
    ensures Ptr(Trees(g), p) != 0
  {
    hide Ptr, Trees, Level;
    var c := cells + {p};
    assert Lacking(g, c) <= Lacking(m, c);
    assert p !in Lacking(m, c);
  }

  /** What was paid for was affordable. */
  lemma TabledMeans(m: Mem, kfree: seq<nat>, g: Mem, kfree': seq<nat>, root: nat, s: set<nat>)
    requires Tabled(m, kfree, g, kfree', root, s)
    ensures HasTables(m, kfree, root, s)
  {
    hide Lacking, Walks;
    assert Lacking(g, Walks(root, s)) == {};
  }

  lemma BrokeMeans(m: Mem, kfree: seq<nat>, g: Mem, kfree': seq<nat>, root: nat, s: set<nat>)
    requires Broke(m, kfree, g, kfree', root, s)
    ensures !HasTables(m, kfree, root, s)
  {
    hide Lacking, Walks;
    assert Lacking(g, Walks(root, s)) <= Lacking(m, Walks(root, s));
  }

  /** Tables that the pool does not have after paying for `s`, it did not have together with those of `s` before. */
  lemma TooMany(m: Mem, kfree: seq<nat>, g: Mem, kfree': seq<nat>, root: nat, s: set<nat>, t: set<nat>, all: set<nat>)
    requires Tabled(m, kfree, g, kfree', root, s) && !HasTables(g, kfree', root, t) && s + t <= all
    ensures !HasTables(m, kfree, root, all)
  {
    WalksMore(root, s, all);
    WalksMore(root, t, all);
    hide Walks, Ptr, Trees, Level;
    SubsetSize(Lacking(g, Walks(root, t)), Lacking(g, Walks(root, all)));
  }

  // New tables

  /** The tables below the root that a new page table needs for the pages `s`; the root does not matter. */
  function TableCount(s: set<nat>): nat { |Walks(0, s)| }

  lemma {:induction false} SameCount(root: nat, s: set<nat>)
    ensures |Walks(root, s)| == TableCount(s)
  {
    hide Walks, L1Pos, L0Pos;
    if s == {} {
      WalksNone(root);
      WalksNone(0);
    } else {
      var v :| v in s;
      var t := s - {v};
      SameCount(root, t);
      WalksNext(root, t, v);
      WalksNext(0, t, v);
      SameCell(root, t, v);
      assert t + {v} == s;
    }
  }

  lemma WalksNone(root: nat)
    ensures Walks(root, {}) == {}
  {}

  lemma WalksNext(root: nat, t: set<nat>, v: nat)
    ensures var n, c, d := |Walks(root, t)|, L1Pos(root, v), L0Pos(root, v);
            |Walks(root, t + {v})| ==
              n + (if c in Walks(root, t) then 0 else 1) + (if d in Walks(root, t) then 0 else 1)
  {
    hide Walks, L1Pos, L0Pos;
    WalksPlus(root, t, {v});
    Levels(root, v);
    WalksOne(root, v);
    AddTwo(Walks(root, t), L1Pos(root, v), L0Pos(root, v));
  }

  lemma WalksOne(root: nat, v: nat)
    ensures Walks(root, {v}) == {L1Pos(root, v)} + {L0Pos(root, v)}
  {
    hide L1Pos, L0Pos;
  }

  lemma AddTwo<T>(w: set<T>, c: T, d: T)
    requires c != d
    ensures |w + ({c} + {d})| == |w| + (if c in w then 0 else 1) + (if d in w then 0 else 1)
  {
    assert w + ({c} + {d}) == w + {c} + {d};
    assert c in w ==> w + {c} == w;
    assert d in w ==> w + {c} + {d} == w + {c};
  }

  lemma SameCell(root: nat, t: set<nat>, v: nat)
    ensures L1Pos(root, v) in Walks(root, t) <==> L1Pos(0, v) in Walks(0, t)
    ensures L0Pos(root, v) in Walks(root, t) <==> L0Pos(0, v) in Walks(0, t)
  {
    hide Vpn2, Vpn1;
    forall r: nat
      ensures L1Pos(r, v) in Walks(r, t) <==> exists w :: w in t && Vpn2(w) == Vpn2(v)
      ensures L0Pos(r, v) in Walks(r, t) <==> exists w :: w in t && Vpn2(w) == Vpn2(v) && Vpn1(w) == Vpn1(v)
    {
      CellIn(r, t, v);
    }
  }

  lemma CellIn(r: nat, t: set<nat>, v: nat)
    ensures L1Pos(r, v) in Walks(r, t) <==> exists w :: w in t && Vpn2(w) == Vpn2(v)
    ensures L0Pos(r, v) in Walks(r, t) <==> exists w :: w in t && Vpn2(w) == Vpn2(v) && Vpn1(w) == Vpn1(v)
  {
    hide Vpn2, Vpn1;
    if w :| w in t && Vpn2(w) == Vpn2(v) { assert L1Pos(r, w) == L1Pos(r, v); }
    if w :| w in t && Vpn2(w) == Vpn2(v) && Vpn1(w) == Vpn1(v) { assert L0Pos(r, w) == L0Pos(r, v); }
  }

  /** Table `root` is new: no cell below its root has a table. */
  ghost predicate Bare(m: Mem, root: nat) {
    forall s: set<nat> {:trigger Walks(root, s)} :: Lacking(m, Walks(root, s)) == Walks(root, s)
  }

  /** Of `budget` pages, one went to the root of a new table and the others to tables for the pages `s`. */
  ghost predicate Started(budget: nat, m: Mem, kfree: seq<nat>, root: nat, s: set<nat>) {
    forall t: set<nat> {:trigger HasTables(m, kfree, root, t)} ::
      HasTables(m, kfree, root, t) <==> 1 + TableCount(s + t) <= budget
  }

  lemma StartedMeans(m: Mem, kfree: seq<nat>, g: Mem, kfree': seq<nat>, root: nat, s: set<nat>)
    requires Bare(m, root) && Tabled(m, kfree, g, kfree', root, s)
    ensures Started(1 + |kfree|, g, kfree', root, s)
  {
    hide Bare, Tabled, HasTables, TableCount;
    forall t: set<nat>
      ensures HasTables(g, kfree', root, t) <==> 1 + TableCount(s + t) <= 1 + |kfree|
    {
      StartedWith(m, kfree, g, kfree', root, s, t);
    }
  }

  lemma StartedWith(m: Mem, kfree: seq<nat>, g: Mem, kfree': seq<nat>, root: nat, s: set<nat>, t: set<nat>)
    requires Bare(m, root) && Tabled(m, kfree, g, kfree', root, s)
    ensures HasTables(g, kfree', root, t) <==> TableCount(s + t) <= |kfree|
  {
    hide Walks, Lacking, TableCount;
    WalksPlus(root, s, t);
    SameCount(root, s + t);
    LackingPlus(g, Walks(root, s), Walks(root, t));
    var c := Walks(root, s + t);
    assert Lacking(m, c) == c && Walks(root, s) <= c;
    assert {} + Lacking(g, Walks(root, t)) == Lacking(g, Walks(root, t));
  }

  lemma LackingPlus(m: Mem, c: set<Pos>, d: set<Pos>)
    ensures Lacking(m, c + d) == Lacking(m, c) + Lacking(m, d)
  {
    hide Level, Ptr, Trees;
  }

  lemma BareNeeds(m: Mem, kfree: seq<nat>, root: nat, s: set<nat>)
    requires Bare(m, root)
    ensures HasTables(m, kfree, root, s) <==> TableCount(s) <= |kfree|
  {
    hide Lacking, TableCount, Walks;
    SameCount(root, s);
  }

  lemma CountLess(s: set<nat>, t: set<nat>)
    requires s <= t
    ensures TableCount(s) <= TableCount(t)
  {
    WalksMore(0, s, t);
    hide Walks;
    SubsetSize(Walks(0, s), Walks(0, t));
  }

  /** The next page of a range: its tables are paid for, or there is no page for one of them. */
  lemma TabledNext(m: Mem, kfree: seq<nat>, g: Mem, kfree': seq<nat>, h: Mem, kfree'': seq<nat>, root: nat, v: nat,
                   k: nat, n: nat, ok: bool)
    requires Tabled(m, kfree, g, kfree', root, Pages(v, v + k)) && k < n
    requires if ok then Tabled(g, kfree', h, kfree'', root, {v + k}) else Broke(g, kfree', h, kfree'', root, {v + k})
    ensures if ok then Tabled(m, kfree, h, kfree'', root, Pages(v, v + k + 1))
            else !HasTables(m, kfree, root, Pages(v, v + n))
  {
    hide Tabled, Broke, HasTables;
    if ok {
      TabledThen(m, kfree, g, kfree', h, kfree'', root, Pages(v, v + k), {v + k});
    } else {
      BrokeMeans(g, kfree', h, kfree'', root, {v + k});
      TooMany(m, kfree, g, kfree', root, Pages(v, v + k), {v + k}, Pages(v, v + n));
    }
  }

  /** The pages `s` have their tables and a frame each, and the pools have paid for both. */
  ghost predicate Paid(m: Mem, kfree: seq<nat>, ufree: seq<nat>, g: Mem, kfree': seq<nat>, ufree': seq<nat>, root: nat,
                       s: set<nat>) {
    Tabled(m, kfree, g, kfree', root, s) && |ufree'| == |ufree| - |s|
  }

  lemma PaidNone(m: Mem, kfree: seq<nat>, ufree: seq<nat>, root: nat, v: nat)
    ensures Paid(m, kfree, ufree, m, kfree, ufree, root, Pages(v, v))
  {
    hide Tabled;
    TabledNone(m, kfree, root, v);
  }

  lemma PaidThen(m: Mem, kfree: seq<nat>, ufree: seq<nat>, g: Mem, kfree': seq<nat>, ufree': seq<nat>, h: Mem,
                 kfree'': seq<nat>, ufree'': seq<nat>, root: nat, s: set<nat>, t: set<nat>)
    requires Paid(m, kfree, ufree, g, kfree', ufree', root, s) && Paid(g, kfree', ufree', h, kfree'', ufree'', root, t)
    requires s !! t
    ensures Paid(m, kfree, ufree, h, kfree'', ufree'', root, s + t)
  {
    hide Tabled;
    TabledThen(m, kfree, g, kfree', h, kfree'', root, s, t);
  }

  lemma PaidMeans(m: Mem, kfree: seq<nat>, ufree: seq<nat>, g: Mem, kfree': seq<nat>, ufree': seq<nat>, root: nat,
                  s: set<nat>)
    requires Paid(m, kfree, ufree, g, kfree', ufree', root, s)
    ensures Affords(m, kfree, ufree, root, s)
  {
    hide Tabled, HasTables;
    TabledMeans(m, kfree, g, kfree', root, s);
  }

  /** What cannot be afforded after paying for `s` could not be afforded together with `s` before. */
  lemma Unaffordable(m: Mem, kfree: seq<nat>, ufree: seq<nat>, g: Mem, kfree': seq<nat>, ufree': seq<nat>, root: nat,
                     s: set<nat>, t: set<nat>, all: set<nat>)
    requires Paid(m, kfree, ufree, g, kfree', ufree', root, s) && s !! t && s + t <= all
    requires !Affords(g, kfree', ufree', root, t)
    ensures !Affords(m, kfree, ufree, root, all)
  {
    hide Tabled, HasTables;
    SubsetSize(s + t, all);
    if !HasTables(g, kfree', root, t) { TooMany(m, kfree, g, kfree', root, s, t, all); }
  }

  lemma SubsetSize<T>(s: set<T>, t: set<T>)
    requires s <= t
    ensures |s| <= |t|
  {
    assert t == s + (t - s);
  }
}
