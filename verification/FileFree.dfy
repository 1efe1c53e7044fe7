/** Giving back the blocks of a file (fs/inode.c). */
module FileFree {
  import opened BlockDevice
  import opened Bitmap
  import opened RadixForest
  import opened FileTree
  import opened FileData
  import opened FileLayout

  /** Midway through free_data_blocks on store `s0`: only the bits of `freed` have been cleared. */
  ghost predicate Freeing(sb: SuperBlock, s0: Store, blocks: seq<Block>, freed: set<nat>)
    requires Shape(sb, s0)
  {
    && |blocks| == |s0.blocks|
    && (forall b: nat {:trigger blocks[b]} ::
          b < |blocks| && !(sb.dataBitmapFirst <= b < sb.dataBitmapFirst + sb.dataBitmapBlocks) ==>
          blocks[b] == s0.blocks[b])
    && (forall c: nat {:trigger InUse(sb, blocks, c)} ::
        InUse(sb, blocks, c) == (InUse(sb, s0.blocks, c) && c !in freed))
  }

  lemma FreeOne(sb: SuperBlock, s0: Store, was: seq<Block>, now: seq<Block>, freed: set<nat>, b: nat)
    requires Shape(sb, s0) && Freeing(sb, s0, was, freed) && sb.InData(b)
    requires OneBit(was, now, sb.dataBitmapFirst, sb.dataBitmapBlocks, b - sb.dataFirst, false)
    ensures Freeing(sb, s0, now, freed + {b})
  {
    OneBitUse(sb, was, now, b, false);
    hide InUse;
  }

  /** Index with its first `n` slots emptied. */
  function Emptied(index: Index, n: nat): Index
    requires n <= N_INDEX
  {
    seq(N_INDEX, k requires 0 <= k < N_INDEX => if k < n then 0 else index[k])
  }

  function WithIndex(s: Store, ino: nat, index: Index): Store
    requires ino < |s.inodes|
  {
    s.(inodes := s.inodes[ino := s.inodes[ino].(index := index)])
  }

  /** Once the blocks behind the first `n` slots are freed and the slots emptied, bitmap and cells agree again. */
  lemma FreedConsistent(sb: SuperBlock, s0: Store, owner: map<nat, Pos>, blocks: seq<Block>, ino: nat, n: nat)
    requires Consistent(sb, s0, owner) && ino < |s0.inodes| && n <= N_INDEX
    requires Freeing(sb, s0, blocks, SlotBlocks(owner, ino, n))
    ensures var t := WithIndex(s0.(blocks := blocks), ino, Emptied(s0.inodes[ino].index, n));
            && Consistent(sb, t, Without(owner, ino, n))
            && forall q {:trigger Ptr(Trees(sb, t), q)} ::
                 Ptr(Trees(sb, t), q) == if Root(q) == ino && RootSlot(q) < n then 0 else Ptr(Trees(sb, s0), q)
  {
    var s1 := s0.(blocks := blocks);
    var t := WithIndex(s1, ino, Emptied(s0.inodes[ino].index, n));
    var f := Trees(sb, s0);
    hide InUse, Words, Ptr, RootSlot, Root;
    TreesSameData(sb, s0, s1);
    var slots: seq<nat> := IndexOf(t.inodes[ino]);
    assert Trees(sb, t).tops == f.tops[ino := slots];
    assert Trees(sb, t) == f.(tops := f.tops[ino := slots]);
    ClearSlotsOwned(f, owner, ino, slots, n);
  }

  /** The slots free_data_blocks visits: up to and including the first empty one. */
  function FirstEmpty(index: Index, k: nat): (n: nat)
    requires k <= N_INDEX
    ensures k <= n <= N_INDEX
    ensures forall j :: k <= j < n ==> index[j] != 0
    ensures n < N_INDEX ==> index[n] == 0
    decreases N_INDEX - k
  {
    if k == N_INDEX || index[k] == 0 then k else FirstEmpty(index, k + 1)
  }

  /** How many top-level slots free_data_blocks gets through. */
  function Reached(index: Index): (n: nat)
    ensures n <= N_INDEX && (forall j :: 0 <= j < n ==> index[j] != 0) && (n < N_INDEX ==> index[n] == 0)
  {
    FirstEmpty(index, 0)
  }

  /** free_data_blocks leaves no slot behind if and only if the nonzero slots form a prefix. */
  lemma EmptiedExactly(index: Index)
    ensures Emptied(index, Reached(index)) == NO_BLOCKS <==> Prefix(index)
  {
    var n := Reached(index);
    var e := Emptied(index, n);
    if e == NO_BLOCKS {
      forall a, b | 0 <= a < b < N_INDEX && index[b] != 0 ensures index[a] != 0 { assert e[b] == 0; }
    }
    if Prefix(index) {
      forall k | 0 <= k < N_INDEX ensures e[k] == 0 && NO_BLOCKS[k] == 0 {}
    }
  }

  // Walking down a tree that is being freed

  lemma FreeingBlock(sb: SuperBlock, s0: Store, blocks: seq<Block>, freed: set<nat>, b: nat)
    requires Shape(sb, s0) && Freeing(sb, s0, blocks, freed) && sb.InData(b)
    ensures |blocks| == |s0.blocks| && b < |blocks| && blocks[b] == s0.blocks[b]
  {
    hide InUse;
  }

  lemma BelowSplit(sb: SuperBlock, s0: Store, owner: map<nat, Pos>, p: Pos, b: nat)
    requires Consistent(sb, s0, owner) && b == Ptr(Trees(sb, s0), p) && b != 0
    ensures BelowFirst(owner, p, 0) == {}
    ensures Below(owner, p) == BelowFirst(owner, p, if Level(RANK, p) > 0 then WORDS else 0) + {b}
    ensures b !in BelowFirst(owner, p, WORDS) && b in Below(owner, p)
    ensures forall h :: h in owner && owner[h] != p ==> h != b
  {
    PtrInUse(sb, s0, owner, p);
    assert b in Trees(sb, s0).kids && |Trees(sb, s0).kids[b]| == WORDS;
    hide InUse, Ptr, Words;
    BelowAll(Trees(sb, s0), owner, p, WORDS);
  }

  /** What the round for entry `j` may rely on. */
  lemma EntryFacts(sb: SuperBlock, s0: Store, owner: map<nat, Pos>, p: Pos, b: nat, j: nat, held: set<nat>,
                   freed: set<nat>)
    requires Consistent(sb, s0, owner) && b == Ptr(Trees(sb, s0), p) && b != 0 && Level(RANK, p) > 0 && j < WORDS
    requires forall h :: h in held ==> h in owner && owner[h] != p && Under(owner[h], p)
    requires freed !! Below(owner, p)
    ensures b < |s0.blocks| && Ptr(Trees(sb, s0), Sub(p, j)) == WordAt(s0.blocks[b], j)
    ensures Level(RANK, Sub(p, j)) == Level(RANK, p) - 1
    ensures forall h :: h in held + {b} ==> h in owner && owner[h] != Sub(p, j) && Under(owner[h], Sub(p, j))
    ensures freed + BelowFirst(owner, p, j) !! Below(owner, Sub(p, j))
  {
    PtrEntry(sb, s0, owner, p, j);
    hide InUse, Trees, Words, Ptr;
    BelowNext(owner, p, j);
    NotUnderParent(Sub(p, j), p);
    forall c | c in Below(owner, Sub(p, j)) ensures c in Below(owner, p) { UnderBranch(p, owner[c], j); }
  }

  lemma ClearedOnce(sb: SuperBlock, s0: Store, blocks: seq<Block>, freed: set<nat>, b: nat)
    requires Shape(sb, s0) && Freeing(sb, s0, blocks, freed) && InUse(sb, s0.blocks, b) && b !in freed
    ensures |blocks| == sb.totalBlocks && InUse(sb, blocks, b)
  {
    hide InUse;
  }

  /** Freeing the blocks of one file shows in no other file. */
  lemma FreedBytes(sb: SuperBlock, s0: Store, owner: map<nat, Pos>, blocks: seq<Block>, ino: nat, n: nat, i: nat,
                   o: nat)
    requires Consistent(sb, s0, owner) && ino < |s0.inodes| && n <= N_INDEX && i != ino
    requires Freeing(sb, s0, blocks, SlotBlocks(owner, ino, n))
    ensures var t := WithIndex(s0.(blocks := blocks), ino, Emptied(s0.inodes[ino].index, n));
            ByteAt(sb, t, i, o) == ByteAt(sb, s0, i, o)
  {
    var t := WithIndex(s0.(blocks := blocks), ino, Emptied(s0.inodes[ino].index, n));
    FreedConsistent(sb, s0, owner, blocks, ino, n);
    if o / BLOCK_SIZE < MAX_BLOCKS {
      LogicalPosLevel(i, o / BLOCK_SIZE);
      PtrInUse(sb, s0, owner, LogicalPos(i, o / BLOCK_SIZE));
      assert BlockOf(sb, t, i, o / BLOCK_SIZE) == BlockOf(sb, s0, i, o / BLOCK_SIZE);
      hide Trees, InUse, LogicalPos;
    }
  }

  /** The inode bitmap. */
  predicate InodeUsed(sb: SuperBlock, blocks: seq<Block>, i: nat)
    requires sb.Layout() && |blocks| == sb.totalBlocks
  {
    i < sb.totalInodes && BitSet(blocks, sb.inodeBitmapFirst, i)
  }

  lemma SameBitmap(sb: SuperBlock, was: seq<Block>, now: seq<Block>)
    requires sb.Layout() && |was| == sb.totalBlocks && SameBelow(was, now, sb.inodeFirst)
    ensures forall i: nat {:trigger InodeUsed(sb, now, i)} :: InodeUsed(sb, now, i) == InodeUsed(sb, was, i)
  {
    hide BlockBit;
  }

  /** Setting or clearing one inode bit touches no file. */
  lemma InodeBit(sb: SuperBlock, s: Store, owner: map<nat, Pos>, now: seq<Block>, ino: nat, on: bool)
    requires Consistent(sb, s, owner) && ino < |s.inodes|
    requires OneBit(s.blocks, now, sb.inodeBitmapFirst, sb.inodeBitmapBlocks, ino, on)
    ensures var t := s.(blocks := now);
            && Consistent(sb, t, owner)
            && Trees(sb, t) == Trees(sb, s)
            && SameBytes(sb, s, t)
            && (forall i: nat {:trigger InodeUsed(sb, now, i)} :: i < |s.inodes| ==>
                InodeUsed(sb, now, i) == if i == ino then on else InodeUsed(sb, s.blocks, i))
            && (forall c: nat {:trigger InUse(sb, now, c)} :: InUse(sb, now, c) == InUse(sb, s.blocks, c))
            && (forall b {:trigger now[b]} :: sb.inodeFirst <= b < |now| ==> now[b] == s.blocks[b])
  {
    hide BlockBit, InUse, Words, Trees, Ptr, Level, LogicalPos, BitSet, InodeUsed, Owned;
    var t := s.(blocks := now);
    InodeBits(sb, s.blocks, now, ino, on);
    SameDataBits(sb, s, now, ino, on);
    TreesSameData(sb, s, t);
    forall i: nat, o: nat ensures ByteAt(sb, t, i, o) == ByteAt(sb, s, i, o) {
      if o / BLOCK_SIZE < MAX_BLOCKS { PtrInUse(sb, s, owner, LogicalPos(i, o / BLOCK_SIZE)); }
    }
  }

  lemma SameDataBits(sb: SuperBlock, s: Store, now: seq<Block>, ino: nat, on: bool)
    requires Shape(sb, s) && OneBit(s.blocks, now, sb.inodeBitmapFirst, sb.inodeBitmapBlocks, ino, on)
    ensures forall c: nat {:trigger InUse(sb, now, c)} :: InUse(sb, now, c) == InUse(sb, s.blocks, c)
  {
    hide BlockBit;
  }

  lemma InodeBits(sb: SuperBlock, was: seq<Block>, now: seq<Block>, ino: nat, on: bool)
    requires sb.Layout() && |was| == sb.totalBlocks && ino < sb.totalInodes
    requires OneBit(was, now, sb.inodeBitmapFirst, sb.inodeBitmapBlocks, ino, on)
    ensures forall i: nat {:trigger InodeUsed(sb, now, i)} :: i < sb.totalInodes ==>
              InodeUsed(sb, now, i) == if i == ino then on else InodeUsed(sb, was, i)
  {
    forall i: nat | i < sb.totalInodes ensures InodeUsed(sb, now, i) == if i == ino then on else InodeUsed(sb, was, i) {
      assert BitSet(now, sb.inodeBitmapFirst, i) == if i == ino then on else BitSet(was, sb.inodeBitmapFirst, i);
    }
  }

  lemma FreeingStart(sb: SuperBlock, s0: Store, owner: map<nat, Pos>, ino: nat)
    requires Shape(sb, s0) && ino < |s0.inodes|
    ensures Freeing(sb, s0, s0.blocks, {}) && SlotBlocks(owner, ino, 0) == {}
    ensures Emptied(s0.inodes[ino].index, 0) == s0.inodes[ino].index
  {
    hide InUse;
  }

  lemma EmptiedNext(index: Index, i: nat)
    requires i < N_INDEX
    ensures Emptied(index, i)[i] == index[i] && Emptied(index, i)[i := 0] == Emptied(index, i + 1)
    ensures index[i] == 0 ==> Emptied(index, i + 1) == Emptied(index, i)
  {}

  lemma FirstEmptyIs(index: Index, n: nat)
    requires n <= N_INDEX && (n < N_INDEX ==> index[n] == 0)
    requires forall k :: 0 <= k < n ==> index[k] != 0
    ensures Reached(index) == n
  {
    var m := Reached(index);
  }

  lemma EmptyBelow(sb: SuperBlock, s: Store, owner: map<nat, Pos>, p: Pos)
    requires Consistent(sb, s, owner) && Ptr(Trees(sb, s), p) == 0
    ensures Below(owner, p) == {}
  {
    hide InUse, Trees, Ptr;
    BelowEmpty(Trees(sb, s), owner, p);
  }
}
