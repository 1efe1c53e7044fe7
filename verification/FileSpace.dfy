/** How many blocks a walk needs, and how many there are. */
module FileSpace {
  import opened BlockDevice
  import opened Bitmap
  import opened RadixForest
  import opened FileTree

  /** The data blocks whose bit is clear. */
  function FreeBlocks(sb: SuperBlock, blocks: seq<Block>): (r: set<nat>)
    requires sb.Layout() && |blocks| == sb.totalBlocks
    ensures forall b :: b in r <==> sb.InData(b) && !InUse(sb, blocks, b)
  {
    set b: nat | b < sb.dataFirst + sb.dataBlocks && sb.InData(b) && !InUse(sb, blocks, b)
  }

  /** Empty cells on the walk to `p`. */
  function Missing(f: Forest, p: Pos): nat {
    if Ptr(f, p) != 0 then 0
    else match p
      case Top(_, _) => 1
      case Sub(up, _) => 1 + Missing(f, up)
  }

  /** The free blocks are enough for the walk to `p`. */
  predicate Enough(sb: SuperBlock, s: Store, p: Pos)
    requires Shape(sb, s)
  {
    |FreeBlocks(sb, s.blocks)| >= Missing(Trees(sb, s), p)
  }

  /** The walk to `p` from `s` to `t` succeeds if and only if there are enough blocks, and takes one for
      every empty cell. */
  ghost predicate Allotted(sb: SuperBlock, s: Store, t: Store, p: Pos, r: nat) {
    && Shape(sb, s) && Shape(sb, t)
    && (r != NONE <==> Enough(sb, s, p))
    && (r != NONE ==> |FreeBlocks(sb, t.blocks)| == |FreeBlocks(sb, s.blocks)| - Missing(Trees(sb, s), p))
  }

  lemma FullNone(sb: SuperBlock, blocks: seq<Block>)
    requires sb.Layout() && |blocks| == sb.totalBlocks
    ensures Full(sb, blocks) <==> |FreeBlocks(sb, blocks)| == 0
  {
    hide InUse;
    if Full(sb, blocks) { assert FreeBlocks(sb, blocks) == {}; }
    if |FreeBlocks(sb, blocks)| == 0 {
      forall b: nat | sb.InData(b) ensures InUse(sb, blocks, b) { assert b !in FreeBlocks(sb, blocks); }
    }
  }

  /** Free blocks follow the owner map. */
  lemma FreeSame(sb: SuperBlock, s: Store, t: Store, owner: map<nat, Pos>)
    requires Consistent(sb, s, owner) && Consistent(sb, t, owner) && t.lost == s.lost
    ensures FreeBlocks(sb, s.blocks) == FreeBlocks(sb, t.blocks)
  {
    hide InUse, Trees, Owned;
    forall b: nat
      ensures InUse(sb, s.blocks, b) == InUse(sb, t.blocks, b)
    {
      assert b in owner || b in s.lost <==> InUse(sb, s.blocks, b);
    }
  }

  lemma FreeTaken(sb: SuperBlock, s: Store, owner: map<nat, Pos>, t: Store, b: nat, p: Pos)
    requires Consistent(sb, s, owner) && Consistent(sb, t, owner[b := p]) && t.lost == s.lost && sb.InData(b)
    requires !InUse(sb, s.blocks, b)
    ensures |FreeBlocks(sb, t.blocks)| == |FreeBlocks(sb, s.blocks)| - 1
  {
    hide InUse, Trees, Owned;
    forall c: nat
      ensures InUse(sb, t.blocks, c) == (c == b || InUse(sb, s.blocks, c))
    {
      assert c in owner || c in s.lost <==> InUse(sb, s.blocks, c);
    }
    assert FreeBlocks(sb, t.blocks) == FreeBlocks(sb, s.blocks) - {b};
  }

  lemma HasFree(sb: SuperBlock, blocks: seq<Block>, b: nat)
    requires sb.Layout() && |blocks| == sb.totalBlocks && sb.InData(b) && !InUse(sb, blocks, b)
    ensures |FreeBlocks(sb, blocks)| > 0
  {
    hide InUse;
    assert b in FreeBlocks(sb, blocks);
  }

  lemma GrownUp(sb: SuperBlock, s: Store, t: Store, u: Store, top: Pos, j: nat)
    requires Grown(sb, s, t, top) && Grown(sb, t, u, Sub(top, j))
    ensures Grown(sb, s, u, Sub(top, j))
  {
    hide Trees, Ptr, GrownCells, GrownData, SameBelow, SameButIndex;
    assert Under(top, Sub(top, j));
    GrownWiden(sb, s, t, top, Sub(top, j));
    GrownTrans(sb, s, t, u, Sub(top, j));
  }

  /** A cell that is full needs nothing, an empty one behind a full one needs one block. */
  lemma OneMissing(f: Forest, p: Pos)
    requires p.Sub? ==> Ptr(f, p.up) != 0
    ensures Missing(f, p) == if Ptr(f, p) == 0 then 1 else 0
  {}

  lemma MissingStep(f: Forest, g: Forest, up: Pos, j: nat)
    requires GrownCells(f, g, up) && Ptr(g, up) != 0
    ensures Missing(f, Sub(up, j)) == Missing(f, up) + Missing(g, Sub(up, j))
  {
    var p := Sub(up, j);
    NotUnderParent(p, up);
    assert (Ptr(f, p) != 0) == (Ptr(g, p) != 0);
    PtrAbove(f, up, j);
  }

  lemma AllottedThen(sb: SuperBlock, s: Store, t: Store, u: Store, up: Pos, j: nat, b: nat, r: nat)
    requires Allotted(sb, s, t, up, b) && b != NONE && Grown(sb, s, t, up) && Ptr(Trees(sb, t), up) != 0
    requires Allotted(sb, t, u, Sub(up, j), r)
    ensures Allotted(sb, s, u, Sub(up, j), r)
  {
    hide Trees, Ptr, InUse, GrownData, Missing;
    MissingStep(Trees(sb, s), Trees(sb, t), up, j);
  }

  lemma AllottedNone(sb: SuperBlock, s: Store, t: Store, up: Pos, j: nat)
    requires Allotted(sb, s, t, up, NONE)
    ensures Allotted(sb, s, t, Sub(up, j), NONE)
  {
    hide Trees, InUse;
    PtrAbove(Trees(sb, s), up, j);
  }
}
