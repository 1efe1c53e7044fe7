/** Radix forests: pointer tables that point to pointer tables.

    The block index of an inode (direct, indirect and double-indirect slots) and the
    three-level page table are both instances.  A position names one pointer cell; the
    value of a cell is found by walking down from a root.  The theory says what one cell
    update does to every other walk when no block is reached by two cells. */
module RadixForest {

  /** A pointer cell: slot `slot` of root `who`, or entry `j` of the table that `up` points to. */
  datatype Pos = Top(who: nat, slot: nat) | Sub(up: Pos, j: nat)

  /** Root pointers, the number of table levels below each root slot, and the table in each block. */
  datatype Forest = Forest(tops: map<nat, seq<nat>>, rank: seq<nat>, kids: map<nat, seq<nat>>)

  /** Table levels below the block a cell points to; 0 for a data block. */
  function Level(rank: seq<nat>, p: Pos): int
  {
    match p
    case Top(_, k) => if k < |rank| then rank[k] else -1
    case Sub(up, _) => Level(rank, up) - 1
  }

  function Root(p: Pos): nat
  {
    match p
    case Top(w, _) => w
    case Sub(up, _) => Root(up)
  }

  function RootSlot(p: Pos): nat
  {
    match p
    case Top(_, k) => k
    case Sub(up, _) => RootSlot(up)
  }

  /** The value of a cell, 0 when the cell is empty or cannot be reached. */
  function Ptr(f: Forest, p: Pos): nat
  {
    match p
    case Top(w, k) =>
      if w in f.tops && k < |f.tops[w]| && k < |f.rank| then f.tops[w][k] else 0
    case Sub(up, j) =>
      var b := Ptr(f, up);
      if b != 0 && Level(f.rank, up) > 0 && b in f.kids && j < |f.kids[b]| then f.kids[b][j] else 0
  }

  /** The cell can be reached, whatever it holds. */
  predicate Cell(f: Forest, p: Pos)
  {
    match p
    case Top(w, k) => w in f.tops && k < |f.tops[w]| && k < |f.rank|
    case Sub(up, j) =>
      var b := Ptr(f, up);
      b != 0 && Level(f.rank, up) > 0 && b in f.kids && j < |f.kids[b]|
  }

  /** No sharing: `owner` names, for every block in use, the only cell that points to it. */
  ghost predicate Owned(f: Forest, owner: map<nat, Pos>)
  {
    && (forall p {:trigger Ptr(f, p)} :: Ptr(f, p) != 0 ==> Ptr(f, p) in owner && owner[Ptr(f, p)] == p)
    && (forall b {:trigger owner[b]} :: b in owner ==> b != 0 && Ptr(f, owner[b]) == b)
  }

  /** Cell `p` lies on the walk to cell `q`. */
  predicate Under(p: Pos, q: Pos)
  {
    p == q || (q.Sub? && Under(p, q.up))
  }

  /** The entry through which the walk to `q` leaves the block of `p`. */
  function Branch(p: Pos, q: Pos): nat
    requires Under(p, q) && p != q
  {
    if q.up == p then q.j else Branch(p, q.up)
  }

  function Put(s: seq<nat>, k: nat, v: nat): seq<nat>
    requires k < |s|
  {
    s[k := v]
  }

  /** Store `v` in cell `p`. */
  function SetPtr(f: Forest, p: Pos, v: nat): Forest
    requires Cell(f, p)
  {
    match p
    case Top(w, k) => f.(tops := f.tops[w := Put(f.tops[w], k, v)])
    case Sub(up, j) => var b := Ptr(f, up); f.(kids := f.kids[b := Put(f.kids[b], j, v)])
  }

  predicate Blank(s: seq<nat>) {
    forall j :: 0 <= j < |s| ==> s[j] == 0
  }

  /** Make `b` a block holding the empty table `blank` and let cell `p` point to it. */
  function Attach(f: Forest, p: Pos, b: nat, blank: seq<nat>): Forest
    requires Cell(f, p)
    requires p.Sub? ==> Ptr(f, p.up) != b
  {
    var g := SetPtr(f, p, b);
    g.(kids := g.kids[b := blank])
  }

  lemma {:induction false} UnderTrans(p: Pos, q: Pos, r: Pos)
    requires Under(p, q) && Under(q, r)
    ensures Under(p, r)
  {
    if q != r { UnderTrans(p, q, r.up); }
  }

  /** Below `p`, everything lies below exactly one entry of its table. */
  lemma {:induction false} UnderBranch(p: Pos, q: Pos, j: nat)
    ensures Under(Sub(p, j), q) <==> Under(p, q) && p != q && Branch(p, q) == j
  {
    if q.Sub? {
      UnderBranch(p, q.up, j);
      if Under(p, q.up) && Under(q, p) { UnderAntisym(p, q.up); }
      if p == q { NotUnderParent(Sub(p, j), p); }
    }
  }

  function Depth(p: Pos): nat { if p.Top? then 0 else 1 + Depth(p.up) }

  lemma {:induction false} UnderDepth(p: Pos, q: Pos)
    requires Under(p, q)
    ensures Depth(p) <= Depth(q)
  {
    if p != q { UnderDepth(p, q.up); }
  }

  lemma NotUnderParent(q: Pos, p: Pos)
    requires q.Sub? && q.up == p
    ensures !Under(q, p)
  {
    if Under(q, p) { UnderDepth(q, p); }
  }

  lemma UnderAntisym(p: Pos, up: Pos)
    requires Under(p, up)
    ensures forall j :: !Under(Sub(up, j), p)
  {
    forall j ensures !Under(Sub(up, j), p) {
      UnderDepth(p, up);
      if Under(Sub(up, j), p) { UnderDepth(Sub(up, j), p); }
    }
  }

  lemma {:induction false} UnderLevel(rank: seq<nat>, p: Pos, q: Pos)
    requires Under(p, q)
    ensures Level(rank, p) >= Level(rank, q)
    ensures p != q ==> Level(rank, p) > Level(rank, q)
    ensures Root(p) == Root(q) && RootSlot(p) == RootSlot(q)
  {
    if p != q { UnderLevel(rank, p, q.up); }
  }

  lemma {:induction false} UnderPtr(f: Forest, p: Pos, q: Pos)
    requires Under(p, q) && Ptr(f, q) != 0
    ensures Ptr(f, p) != 0
  {
    if p != q { UnderPtr(f, p, q.up); }
  }

  /** Filling an empty cell with a fresh, empty block changes no other cell. */
  lemma {:induction false} AttachAt(f: Forest, owner: map<nat, Pos>, p: Pos, b: nat, blank: seq<nat>, q: Pos)
    requires Owned(f, owner) && Cell(f, p) && Ptr(f, p) == 0
    requires b != 0 && b !in owner && Blank(blank)
    ensures Ptr(Attach(f, p, b, blank), q) == if q == p then b else Ptr(f, q)
  {
    if q.Sub? {
      AttachAt(f, owner, p, b, blank, q.up);
      var c := Ptr(f, q.up);
      if q.up != p && c != 0 {
        assert c in owner && owner[c] == q.up;
        if p.Sub? && Ptr(f, p.up) == c { assert owner[c] == p.up; }
      }
    }
  }

  lemma AttachOwned(f: Forest, owner: map<nat, Pos>, p: Pos, b: nat, blank: seq<nat>)
    requires Owned(f, owner) && Cell(f, p) && Ptr(f, p) == 0
    requires b != 0 && b !in owner && Blank(blank)
    ensures forall q :: Ptr(Attach(f, p, b, blank), q) == if q == p then b else Ptr(f, q)
    ensures Owned(Attach(f, p, b, blank), owner[b := p])
  {
    forall q ensures Ptr(Attach(f, p, b, blank), q) == if q == p then b else Ptr(f, q) {
      AttachAt(f, owner, p, b, blank, q);
    }
  }

  /** Rewriting a data block changes no cell. */
  lemma {:induction false} DataWriteAt(f: Forest, owner: map<nat, Pos>, b: nat, w: seq<nat>, q: Pos)
    requires Owned(f, owner) && b in owner && Level(f.rank, owner[b]) <= 0
    ensures Ptr(f.(kids := f.kids[b := w]), q) == Ptr(f, q)
  {
    if q.Sub? {
      DataWriteAt(f, owner, b, w, q.up);
      if Ptr(f, q.up) == b && b != 0 { assert owner[b] == q.up; }
    }
  }

  lemma DataWriteOwned(f: Forest, owner: map<nat, Pos>, b: nat, w: seq<nat>)
    requires Owned(f, owner) && b in owner && Level(f.rank, owner[b]) <= 0
    ensures forall q :: Ptr(f.(kids := f.kids[b := w]), q) == Ptr(f, q)
    ensures Owned(f.(kids := f.kids[b := w]), owner)
  {
    var g := f.(kids := f.kids[b := w]);
    forall q ensures Ptr(g, q) == Ptr(f, q) {
      DataWriteAt(f, owner, b, w, q);
    }
    assert forall c :: c in owner ==> Ptr(g, owner[c]) == Ptr(f, owner[c]);
  }

  /** Rewriting a cell of the lowest tables changes no other cell. */
  lemma {:induction false} SetLeafAt(f: Forest, owner: map<nat, Pos>, p: Pos, v: nat, q: Pos)
    requires Owned(f, owner) && Cell(f, p) && Level(f.rank, p) <= 0
    ensures Ptr(SetPtr(f, p, v), q) == if q == p then v else Ptr(f, q)
  {
    if q.Sub? {
      SetLeafAt(f, owner, p, v, q.up);
      var c := Ptr(f, q.up);
      if q.up != p && c != 0 {
        assert owner[c] == q.up;
        if p.Sub? && Ptr(f, p.up) == c { assert owner[c] == p.up; }
      }
    }
  }

  /** The owner map after cell `p` is set to `v`. */
  function Reown(owner: map<nat, Pos>, p: Pos, was: nat, v: nat): map<nat, Pos> {
    if v == 0 then owner - {was} else (owner - {was})[v := p]
  }

  lemma SetLeafOwned(f: Forest, owner: map<nat, Pos>, p: Pos, v: nat)
    requires Owned(f, owner) && Cell(f, p) && Level(f.rank, p) <= 0
    requires v == 0 || v !in owner || owner[v] == p
    ensures forall q :: Ptr(SetPtr(f, p, v), q) == if q == p then v else Ptr(f, q)
    ensures Owned(SetPtr(f, p, v), Reown(owner, p, Ptr(f, p), v))
  {
    forall q ensures Ptr(SetPtr(f, p, v), q) == if q == p then v else Ptr(f, q) {
      SetLeafAt(f, owner, p, v, q);
    }
  }

  /** Emptying the first `n` slots of root `w` empties exactly the cells below them. */
  lemma {:induction false} ClearSlotsAt(f: Forest, w: nat, slots: seq<nat>, n: nat, q: Pos)
    requires w in f.tops && |slots| == |f.tops[w]|
    requires forall k :: 0 <= k < |slots| ==> slots[k] == if k < n then 0 else f.tops[w][k]
    ensures Ptr(f.(tops := f.tops[w := slots]), q) == if Root(q) == w && RootSlot(q) < n then 0 else Ptr(f, q)
  {
    if q.Sub? { ClearSlotsAt(f, w, slots, n, q.up); }
  }

  function Without(owner: map<nat, Pos>, w: nat, n: nat): map<nat, Pos> {
    map b | b in owner && !(Root(owner[b]) == w && RootSlot(owner[b]) < n) :: owner[b]
  }

  lemma ClearSlotsOwned(f: Forest, owner: map<nat, Pos>, w: nat, slots: seq<nat>, n: nat)
    requires Owned(f, owner) && w in f.tops && |slots| == |f.tops[w]|
    requires forall k :: 0 <= k < |slots| ==> slots[k] == if k < n then 0 else f.tops[w][k]
    ensures forall q ::
              Ptr(f.(tops := f.tops[w := slots]), q) == if Root(q) == w && RootSlot(q) < n then 0 else Ptr(f, q)
    ensures Owned(f.(tops := f.tops[w := slots]), Without(owner, w, n))
  {
    var g := f.(tops := f.tops[w := slots]);
    forall q ensures Ptr(g, q) == if Root(q) == w && RootSlot(q) < n then 0 else Ptr(f, q) {
      ClearSlotsAt(f, w, slots, n, q);
    }
    assert forall b :: b in Without(owner, w, n) ==> Ptr(g, owner[b]) == Ptr(f, owner[b]);
  }

  /** The blocks that hang on cell `p`. */
  function Below(owner: map<nat, Pos>, p: Pos): set<nat> {
    set b | b in owner && Under(p, owner[b])
  }

  /** The blocks reached through the first `n` entries of the table that cell `p` points to. */
  function BelowFirst(owner: map<nat, Pos>, p: Pos, n: nat): set<nat> {
    set b | b in owner && Under(p, owner[b]) && owner[b] != p && Branch(p, owner[b]) < n
  }

  lemma BelowNext(owner: map<nat, Pos>, p: Pos, n: nat)
    ensures BelowFirst(owner, p, n + 1) == BelowFirst(owner, p, n) + Below(owner, Sub(p, n))
    ensures BelowFirst(owner, p, n) !! Below(owner, Sub(p, n))
  {
    forall b | b in owner
      ensures Under(Sub(p, n), owner[b]) <==> Under(p, owner[b]) && owner[b] != p && Branch(p, owner[b]) == n
    {
      UnderBranch(p, owner[b], n);
    }
  }

  lemma BelowEmpty(f: Forest, owner: map<nat, Pos>, p: Pos)
    requires Owned(f, owner) && Ptr(f, p) == 0
    ensures Below(owner, p) == {}
  {
    forall b | b in owner ensures !Under(p, owner[b]) {
      if Under(p, owner[b]) { UnderPtr(f, p, owner[b]); }
    }
  }

  /** A block and the blocks behind all entries of its table. */
  lemma BelowAll(f: Forest, owner: map<nat, Pos>, p: Pos, n: nat)
    requires Owned(f, owner) && Ptr(f, p) != 0
    requires Level(f.rank, p) > 0 ==> Ptr(f, p) in f.kids && |f.kids[Ptr(f, p)]| <= n
    ensures Below(owner, p) == BelowFirst(owner, p, if Level(f.rank, p) > 0 then n else 0) + {Ptr(f, p)}
    ensures Ptr(f, p) !in BelowFirst(owner, p, n)
  {
    forall b | b in owner && Under(p, owner[b]) && owner[b] != p
      ensures Level(f.rank, p) > 0 && Branch(p, owner[b]) < n
    {
      BranchBound(f, p, owner[b]);
    }
  }

  lemma {:induction false} BranchBound(f: Forest, p: Pos, q: Pos)
    requires Under(p, q) && p != q && Ptr(f, q) != 0
    ensures Level(f.rank, p) > 0 && Ptr(f, p) in f.kids && Branch(p, q) < |f.kids[Ptr(f, p)]|
  {
    if q.up != p { BranchBound(f, p, q.up); }
  }

  lemma {:induction false} UnderTop(w: nat, k: nat, q: Pos)
    ensures Under(Top(w, k), q) <==> Root(q) == w && RootSlot(q) == k
  {
    if q.Sub? { UnderTop(w, k, q.up); }
  }

  /** The blocks reached through the first `n` slots of root `w`. */
  function SlotBlocks(owner: map<nat, Pos>, w: nat, n: nat): set<nat> {
    set b | b in owner && Root(owner[b]) == w && RootSlot(owner[b]) < n
  }

  lemma SlotBlocksNext(owner: map<nat, Pos>, w: nat, n: nat)
    ensures SlotBlocks(owner, w, n + 1) == SlotBlocks(owner, w, n) + Below(owner, Top(w, n))
    ensures SlotBlocks(owner, w, n) !! Below(owner, Top(w, n))
  {
    forall b | b in owner ensures Under(Top(w, n), owner[b]) <==> Root(owner[b]) == w && RootSlot(owner[b]) == n {
      UnderTop(w, n, owner[b]);
    }
  }

  /** A new root `r`, pointing to the fresh, empty table `r`, changes no other cell. */
  lemma {:induction false} AddRootAt(f: Forest, owner: map<nat, Pos>, r: nat, blank: seq<nat>, q: Pos)
    requires Owned(f, owner) && r != 0 && r !in owner && r !in f.tops && |f.rank| == 1 && Blank(blank)
    ensures Ptr(f.(tops := f.tops[r := [r]], kids := f.kids[r := blank]), q) == if q == Top(r, 0) then r else Ptr(f, q)
  {
    if q.Sub? {
      AddRootAt(f, owner, r, blank, q.up);
      var c := Ptr(f, q.up);
      if c != 0 { assert owner[c] == q.up; }
    }
  }

  lemma AddRootOwned(f: Forest, owner: map<nat, Pos>, r: nat, blank: seq<nat>)
    requires Owned(f, owner) && r != 0 && r !in owner && r !in f.tops && |f.rank| == 1 && Blank(blank)
    ensures var g := f.(tops := f.tops[r := [r]], kids := f.kids[r := blank]);
            && Owned(g, owner[r := Top(r, 0)])
            && forall q {:trigger Ptr(g, q)} :: Ptr(g, q) == if q == Top(r, 0) then r else Ptr(f, q)
  {
    var g := f.(tops := f.tops[r := [r]], kids := f.kids[r := blank]);
    forall q ensures Ptr(g, q) == if q == Top(r, 0) then r else Ptr(f, q) { AddRootAt(f, owner, r, blank, q); }
  }

  lemma {:induction false} DropRootAt(f: Forest, r: nat, q: Pos)
    ensures Ptr(f.(tops := f.tops - {r}), q) == if Root(q) == r then 0 else Ptr(f, q)
  {
    if q.Sub? { DropRootAt(f, r, q.up); }
  }

  /** The owners that remain when root `r` is dropped. */
  function WithoutRoot(owner: map<nat, Pos>, r: nat): map<nat, Pos> {
    map b | b in owner && Root(owner[b]) != r :: owner[b]
  }

  lemma DropRootOwned(f: Forest, owner: map<nat, Pos>, r: nat)
    requires Owned(f, owner)
    ensures var g := f.(tops := f.tops - {r});
            && Owned(g, WithoutRoot(owner, r))
            && forall q {:trigger Ptr(g, q)} :: Ptr(g, q) == if Root(q) == r then 0 else Ptr(f, q)
  {
    var g := f.(tops := f.tops - {r});
    forall q ensures Ptr(g, q) == if Root(q) == r then 0 else Ptr(f, q) { DropRootAt(f, r, q); }
    assert forall b :: b in WithoutRoot(owner, r) ==> Ptr(g, owner[b]) == Ptr(f, owner[b]);
  }
}
