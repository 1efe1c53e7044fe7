/** How far the free blocks last when the blocks of a file are located, or allocated, one after the other. */
module FileSupply {
  import opened BlockDevice
  import opened RadixForest
  import opened FileTree
  import opened FileSpace

  /** The cells on the walk to `p`. */
  function Walk(p: Pos): set<Pos> { {p} + if p.Sub? then Walk(p.up) else {} }

  lemma {:induction false} WalkIs(p: Pos, q: Pos)
    ensures q in Walk(p) <==> Under(q, p)
  {
    if p.Sub? { WalkIs(p.up, q); }
  }

  /** Those of the cells `c` that are empty. */
  ghost function Blanks(f: Forest, c: set<Pos>): set<Pos> { set p | p in c && Ptr(f, p) == 0 }

  lemma {:induction false} MissingIs(f: Forest, p: Pos)
    ensures |Blanks(f, Walk(p))| == Missing(f, p)
  {
    if Ptr(f, p) != 0 {
      forall q | q in Walk(p) ensures Ptr(f, q) != 0 {
        WalkIs(p, q);
        UnderPtr(f, q, p);
      }
      assert Blanks(f, Walk(p)) == {};
    } else if p.Sub? {
      MissingIs(f, p.up);
      assert p !in Walk(p.up) by {
        WalkIs(p.up, p);
        if Under(p, p.up) { UnderDepth(p, p.up); }
      }
      hide Ptr, Missing;
      assert Walk(p) == {p} + Walk(p.up);
      assert Blanks(f, Walk(p)) == {p} + Blanks(f, Walk(p.up));
    } else {
      assert Blanks(f, Walk(p)) == {p};
    }
  }

  /** The cells on the walks to logical blocks `a` to `b` of a file. */
  function WalksTo(ino: nat, a: nat, b: nat): set<Pos>
    requires b <= MAX_BLOCKS
    decreases b
  {
    if a >= b then {} else WalksTo(ino, a, b - 1) + Walk(LogicalPos(ino, b - 1))
  }

  lemma {:induction false} WalksSplit(ino: nat, a: nat, n: nat, b: nat)
    requires a <= n <= b <= MAX_BLOCKS
    ensures WalksTo(ino, a, b) == WalksTo(ino, a, n) + WalksTo(ino, n, b)
  {
    if n < b { WalksSplit(ino, a, n, b - 1); }
    hide Walk, LogicalPos;
  }

  /** The free blocks are enough for logical blocks `a` to `b` of a file. */
  ghost predicate Supplied(sb: SuperBlock, s: Store, ino: nat, a: nat, b: nat)
    requires Shape(sb, s) && b <= MAX_BLOCKS
  {
    |Blanks(Trees(sb, s), WalksTo(ino, a, b))| <= |FreeBlocks(sb, s.blocks)|
  }

  /** From `s` to `t`, logical blocks `a` to `b` have been allocated where they were missing, and nothing else. */
  ghost predicate Stocked(sb: SuperBlock, s: Store, t: Store, ino: nat, a: nat, b: nat) {
    && Shape(sb, s) && Shape(sb, t) && a <= b <= MAX_BLOCKS
    && Blanks(Trees(sb, t), WalksTo(ino, a, b)) == {}
    && forall c: set<Pos> {:trigger Blanks(Trees(sb, t), c)} :: WalksTo(ino, a, b) <= c ==>
        && Blanks(Trees(sb, t), c) <= Blanks(Trees(sb, s), c)
        && |Blanks(Trees(sb, s), c)| - |Blanks(Trees(sb, t), c)| ==
             |FreeBlocks(sb, s.blocks)| - |FreeBlocks(sb, t.blocks)|
  }

  lemma StockedNone(sb: SuperBlock, s: Store, ino: nat, a: nat)
    requires Shape(sb, s) && a <= MAX_BLOCKS
    ensures Stocked(sb, s, s, ino, a, a)
  {
    hide Trees, Ptr, FreeBlocks;
  }

  /** locate_or_add_block of logical block `n`. */
  lemma StockedOne(sb: SuperBlock, s: Store, t: Store, ino: nat, n: nat, r: nat)
    requires n < MAX_BLOCKS && Grown(sb, s, t, LogicalPos(ino, n)) && Allotted(sb, s, t, LogicalPos(ino, n), r)
    requires r != NONE && Ptr(Trees(sb, t), LogicalPos(ino, n)) != 0
    ensures Stocked(sb, s, t, ino, n, n + 1)
  {
    hide Trees, Ptr, FreeBlocks, LogicalPos, Missing, GrownData;
    var p, f, g := LogicalPos(ino, n), Trees(sb, s), Trees(sb, t);
    assert WalksTo(ino, n, n + 1) == Walk(p) by { assert WalksTo(ino, n, n) == {}; }
    MissingIs(f, p);
    forall q ensures q in Walk(p) ==> Ptr(g, q) != 0
             ensures q !in Walk(p) ==> (Ptr(g, q) == 0 <==> Ptr(f, q) == 0)
    {
      WalkIs(p, q);
      if Under(q, p) { UnderPtr(g, q, p); }
    }
    hide Walk;
    forall c: set<Pos> | Walk(p) <= c
      ensures Blanks(g, c) <= Blanks(f, c) && |Blanks(f, c)| - |Blanks(g, c)| == |Blanks(f, Walk(p))|
    {
      assert Blanks(f, c) == Blanks(g, c) + Blanks(f, Walk(p)) && Blanks(g, c) !! Blanks(f, Walk(p));
    }
  }

  lemma StockedThen(sb: SuperBlock, s: Store, t: Store, u: Store, ino: nat, a: nat, n: nat, b: nat)
    requires Stocked(sb, s, t, ino, a, n) && Stocked(sb, t, u, ino, n, b)
    ensures Stocked(sb, s, u, ino, a, b)
  {
    hide Trees, Ptr, FreeBlocks, WalksTo, Blanks;
    StockedFull(sb, s, t, u, ino, a, n, b);
    forall c: set<Pos> | WalksTo(ino, a, b) <= c
      ensures Blanks(Trees(sb, u), c) <= Blanks(Trees(sb, s), c)
      ensures |Blanks(Trees(sb, s), c)| - |Blanks(Trees(sb, u), c)| ==
                |FreeBlocks(sb, s.blocks)| - |FreeBlocks(sb, u.blocks)|
    {
      StockedChain(sb, s, t, u, ino, a, n, b, c);
    }
  }

  lemma StockedChain(sb: SuperBlock, s: Store, t: Store, u: Store, ino: nat, a: nat, n: nat, b: nat, c: set<Pos>)
    requires Stocked(sb, s, t, ino, a, n) && Stocked(sb, t, u, ino, n, b) && WalksTo(ino, a, b) <= c
    ensures Blanks(Trees(sb, u), c) <= Blanks(Trees(sb, s), c)
    ensures |Blanks(Trees(sb, s), c)| - |Blanks(Trees(sb, u), c)| ==
              |FreeBlocks(sb, s.blocks)| - |FreeBlocks(sb, u.blocks)|
  {
    hide Trees, Ptr, FreeBlocks, WalksTo, Blanks;
    WalksSplit(ino, a, n, b);
    assert Blanks(Trees(sb, u), c) <= Blanks(Trees(sb, t), c) <= Blanks(Trees(sb, s), c);
  }

  lemma StockedFull(sb: SuperBlock, s: Store, t: Store, u: Store, ino: nat, a: nat, n: nat, b: nat)
    requires Stocked(sb, s, t, ino, a, n) && Stocked(sb, t, u, ino, n, b)
    ensures Blanks(Trees(sb, u), WalksTo(ino, a, b)) == {}
  {
    hide Trees, Ptr, FreeBlocks, WalksTo, Blanks;
    WalksSplit(ino, a, n, b);
    BlanksWithin(Trees(sb, t), Trees(sb, u), WalksTo(ino, a, n), WalksTo(ino, n, b), WalksTo(ino, a, b));
  }

  lemma BlanksWithin(f: Forest, g: Forest, x: set<Pos>, y: set<Pos>, c: set<Pos>)
    requires c == x + y && Blanks(g, c) <= Blanks(f, c)
    ensures Blanks(g, c) <= Blanks(f, x) + Blanks(g, y)
  {
    hide Ptr;
    forall p | p in Blanks(g, c) ensures p in Blanks(f, x) || p in Blanks(g, y) {
      assert p in Blanks(f, c);
    }
  }

  /** Filling blocks with data moves nothing. */
  lemma StockedSame(sb: SuperBlock, s: Store, t: Store, u: Store, ino: nat, a: nat, b: nat)
    requires Stocked(sb, s, t, ino, a, b) && Shape(sb, u) && FreeBlocks(sb, u.blocks) == FreeBlocks(sb, t.blocks)
    requires forall q {:trigger Ptr(Trees(sb, u), q)} :: Ptr(Trees(sb, u), q) == Ptr(Trees(sb, t), q)
    ensures Stocked(sb, s, u, ino, a, b)
  {
    hide Trees, Ptr, FreeBlocks, WalksTo;
    forall c: set<Pos> ensures Blanks(Trees(sb, u), c) == Blanks(Trees(sb, t), c) {}
  }

  /** Blocks up to `n` have been allocated and the next one cannot be: the free blocks lasted as far as `n` and no
      further. */
  lemma StockedUpTo(sb: SuperBlock, s: Store, t: Store, ino: nat, a: nat, n: nat, b: nat)
    requires Stocked(sb, s, t, ino, a, n) && a <= b <= MAX_BLOCKS
    ensures b <= n ==> Supplied(sb, s, ino, a, b)
    ensures n < b && !Enough(sb, t, LogicalPos(ino, n)) ==> !Supplied(sb, s, ino, a, b)
  {
    hide Trees, FreeBlocks, LogicalPos, WalksTo, Walk, Blanks, Missing;
    var f, g := Trees(sb, s), Trees(sb, t);
    if b <= n {
      WalksSplit(ino, a, b, n);
      BlanksLess(f, WalksTo(ino, a, b), WalksTo(ino, a, n));
      BlanksNone(g, WalksTo(ino, a, n));
    } else {
      MissingIs(g, LogicalPos(ino, n));
      WalksSplit(ino, a, n, b);
      WalksHead(ino, n, b);
      BlanksLess(g, Walk(LogicalPos(ino, n)), WalksTo(ino, a, b));
    }
  }

  lemma WalksHead(ino: nat, n: nat, b: nat)
    requires n < b <= MAX_BLOCKS
    ensures Walk(LogicalPos(ino, n)) <= WalksTo(ino, n, b)
  {
    hide Walk, LogicalPos;
    WalksSplit(ino, n, n + 1, b);
    assert WalksTo(ino, n, n) == {};
  }

  lemma BlanksNone(f: Forest, c: set<Pos>)
    ensures Blanks(f, c) == {} ==> |Blanks(f, c)| == 0
  {}

  lemma BlanksLess(f: Forest, c: set<Pos>, d: set<Pos>)
    requires c <= d
    ensures |Blanks(f, c)| <= |Blanks(f, d)|
  {
    hide Ptr;
    var s, t := Blanks(f, c), Blanks(f, d);
    assert t == s + (t - s);
  }

  /** A read or write of `len` bytes at `offset` got exactly as far as the free blocks lasted: it moved `w` bytes. */
  ghost predicate Lasted(sb: SuperBlock, s: Store, ino: nat, offset: nat, len: nat, w: nat)
    requires Shape(sb, s)
  {
    && w <= len && (0 < w < len ==> (offset + w) % BLOCK_SIZE == 0)
    && forall b: nat {:trigger Supplied(sb, s, ino, offset / BLOCK_SIZE, b)} ::
         offset / BLOCK_SIZE < b <= MAX_BLOCKS && 0 < len && (b - 1) * BLOCK_SIZE < offset + len ==>
           (Supplied(sb, s, ino, offset / BLOCK_SIZE, b) <==> w > 0 && (b - 1) * BLOCK_SIZE < offset + w)
  }

  /** There is only one such number. */
  lemma LastedOnce(sb: SuperBlock, s: Store, ino: nat, offset: nat, len: nat, w: nat, v: nat)
    requires Shape(sb, s) && Lasted(sb, s, ino, offset, len, w) && Lasted(sb, s, ino, offset, len, v)
    requires offset + len <= MAX_BLOCKS * BLOCK_SIZE
    ensures w == v
  {
    if w < v { LastedLess(sb, s, ino, offset, len, w, v); }
    if v < w { LastedLess(sb, s, ino, offset, len, v, w); }
  }

  lemma LastedLess(sb: SuperBlock, s: Store, ino: nat, offset: nat, len: nat, w: nat, v: nat)
    requires Shape(sb, s) && Lasted(sb, s, ino, offset, len, w) && Lasted(sb, s, ino, offset, len, v)
    requires offset + len <= MAX_BLOCKS * BLOCK_SIZE && w <= len && v <= len
    ensures w >= v
  {
    hide Supplied, Lasted;
    if w < v {
      LastedAt(sb, s, ino, offset, len, v, (offset + w) / BLOCK_SIZE + 1);
      LastedAt(sb, s, ino, offset, len, w, (offset + w) / BLOCK_SIZE + 1);
    }
  }

  lemma LastedAt(sb: SuperBlock, s: Store, ino: nat, offset: nat, len: nat, w: nat, b: nat)
    requires Shape(sb, s) && Lasted(sb, s, ino, offset, len, w) && offset / BLOCK_SIZE < b <= MAX_BLOCKS
    ensures w <= len && (0 < w < len ==> (offset + w) % BLOCK_SIZE == 0)
    ensures 0 < len && (b - 1) * BLOCK_SIZE < offset + len ==>
              (Supplied(sb, s, ino, offset / BLOCK_SIZE, b) <==> w > 0 && (b - 1) * BLOCK_SIZE < offset + w)
  {
    hide Supplied;
  }

  /** The first block not yet reached when `cur` has been. */
  function UpTo(offset: nat, cur: nat): nat {
    if cur <= offset then offset / BLOCK_SIZE else (cur + BLOCK_SIZE - 1) / BLOCK_SIZE
  }

  lemma UpToNone(offset: nat)
    ensures UpTo(offset, offset) == offset / BLOCK_SIZE
  {}

  lemma UpToNext(offset: nat, cur: nat, k: nat)
    requires offset <= cur && (cur > offset ==> cur % BLOCK_SIZE == 0) && 0 < k && cur % BLOCK_SIZE + k <= BLOCK_SIZE
    ensures UpTo(offset, cur) == cur / BLOCK_SIZE && UpTo(offset, cur + k) == cur / BLOCK_SIZE + 1
  {
    assert (cur + k + BLOCK_SIZE - 1) / BLOCK_SIZE == cur / BLOCK_SIZE + 1;
  }

  /** The last round: there was no block to be had, or all bytes were reached. */
  lemma LastedTo(sb: SuperBlock, s: Store, t: Store, ino: nat, offset: nat, len: nat, w: nat)
    requires Stocked(sb, s, t, ino, offset / BLOCK_SIZE, UpTo(offset, offset + w)) && w <= len && Shape(sb, s)
    requires 0 < w < len ==> (offset + w) % BLOCK_SIZE == 0
    requires w < len ==>
               (offset + w) / BLOCK_SIZE < MAX_BLOCKS && !Enough(sb, t, LogicalPos(ino, (offset + w) / BLOCK_SIZE))
    ensures Lasted(sb, s, ino, offset, len, w)
  {
    hide Supplied, Enough, Stocked, UpTo, LogicalPos;
    var a, n := offset / BLOCK_SIZE, UpTo(offset, offset + w);
    UpToStop(offset, w);
    forall b: nat | a < b <= MAX_BLOCKS && 0 < len && (b - 1) * BLOCK_SIZE < offset + len
      ensures Supplied(sb, s, ino, a, b) <==> w > 0 && (b - 1) * BLOCK_SIZE < offset + w
    {
      StockedUpTo(sb, s, t, ino, a, n, b);
      UpToReach(offset, w, b);
    }
  }

  /** One round: `k` bytes at `offset + w` have been moved, or there was no block for them. */
  lemma LastedStep(sb: SuperBlock, s: Store, t: Store, u: Store, ino: nat, offset: nat, len: nat, w: nat, k: nat,
                   ok: bool)
    requires Shape(sb, s) && Stocked(sb, s, t, ino, offset / BLOCK_SIZE, UpTo(offset, offset + w)) && w < len
    requires (w > 0 ==> (offset + w) % BLOCK_SIZE == 0) && 0 < k && (offset + w) % BLOCK_SIZE + k <= BLOCK_SIZE
    requires (offset + w) / BLOCK_SIZE < MAX_BLOCKS && Shape(sb, t)
    requires if ok then Stocked(sb, t, u, ino, (offset + w) / BLOCK_SIZE, (offset + w) / BLOCK_SIZE + 1)
             else !Enough(sb, t, LogicalPos(ino, (offset + w) / BLOCK_SIZE))
    ensures if ok then Stocked(sb, s, u, ino, offset / BLOCK_SIZE, UpTo(offset, offset + w + k))
            else Lasted(sb, s, ino, offset, len, w)
  {
    hide Stocked, Lasted, Enough, UpTo, LogicalPos, Shape;
    var n := (offset + w) / BLOCK_SIZE;
    UpToNext(offset, offset + w, k);
    if ok {
      StockedThen(sb, s, t, u, ino, offset / BLOCK_SIZE, n, n + 1);
    } else {
      LastedTo(sb, s, t, ino, offset, len, w);
    }
  }

  lemma UpToStop(offset: nat, w: nat)
    ensures w == 0 || (offset + w) % BLOCK_SIZE == 0 ==> UpTo(offset, offset + w) == (offset + w) / BLOCK_SIZE
  {}

  lemma UpToReach(offset: nat, w: nat, b: nat)
    requires offset / BLOCK_SIZE < b
    ensures b <= UpTo(offset, offset + w) <==> w > 0 && (b - 1) * BLOCK_SIZE < offset + w
  {}
}
