/** The invariant of a file system on which directories are only written at or before their end. */
module FileHealth {
  import opened BlockDevice
  import opened Bitmap
  import opened RadixForest
  import opened FileTree
  import opened FileData
  import opened FileLayout
  import opened FileFree

  /** Bitmap and block cells agree, and every directory has all blocks of its bytes, at the front of its index.
      Other files may have holes. */
  ghost predicate Healthy(sb: SuperBlock, s: Store, owner: map<nat, Pos>) {
    && Consistent(sb, s, owner)
    && forall i: nat {:trigger Covered(sb, s, i, s.inodes[i].size)} :: LiveDir(sb, s, i) ==>
        Covered(sb, s, i, s.inodes[i].size)
  }

  predicate LiveDir(sb: SuperBlock, s: Store, i: nat)
    requires sb.Layout() && |s.blocks| == sb.totalBlocks
  {
    i < |s.inodes| && InodeUsed(sb, s.blocks, i) && s.inodes[i].kind == TYPE_DIR
  }

  /** An inode without blocks is an empty, well laid out file. */
  lemma EmptyFile(sb: SuperBlock, s: Store, ino: nat)
    requires ino < |s.inodes| && s.inodes[ino].index == NO_BLOCKS && s.inodes[ino].size == 0
    ensures Covered(sb, s, ino, 0) && ZeroTail(sb, s, ino)
  {
    forall o: nat ensures ByteAt(sb, s, ino, o) == 0 {
      if o / BLOCK_SIZE < MAX_BLOCKS {
        var p := LogicalPos(ino, o / BLOCK_SIZE);
        EmptyRoot(Trees(sb, s), ino, p) by { SlotOf(ino, o / BLOCK_SIZE); }
      }
    }
  }

  lemma {:induction false} EmptyRoot(f: Forest, w: nat, q: Pos)
    requires Root(q) == w && w in f.tops && Blank(f.tops[w])
    ensures Ptr(f, q) == 0
  {
    if q.Sub? { EmptyRoot(f, w, q.up); }
  }

  /** The image mkfs starts from: nothing allocated. */
  lemma FreshHealthy(sb: SuperBlock, s: Store)
    requires Shape(sb, s)
    requires forall b: nat :: !InUse(sb, s.blocks, b)
    requires forall i :: 0 <= i < |s.inodes| ==> s.inodes[i].index == NO_BLOCKS && s.inodes[i].size == 0
    requires s.lost == {}
    ensures Healthy(sb, s, map[])
  {
    hide InUse, Words, InodeUsed;
    forall q ensures Ptr(Trees(sb, s), q) == 0 {
      var w := Root(q);
      if w < |s.inodes| { EmptyRoot(Trees(sb, s), w, q); } else { NoRoot(Trees(sb, s), q); }
    }
    hide Trees, Ptr, Covered;
    forall i: nat | i < |s.inodes| ensures Covered(sb, s, i, s.inodes[i].size) { EmptyFile(sb, s, i); }
  }

  lemma {:induction false} NoRoot(f: Forest, q: Pos)
    requires Root(q) !in f.tops
    ensures Ptr(f, q) == 0
  {
    if q.Sub? { NoRoot(f, q.up); }
  }

  /** A write keeps the file system healthy, unless it goes behind the end of a directory. */
  lemma WriteHealthy(sb: SuperBlock, s: Store, owner: map<nat, Pos>, t: Store, owner': map<nat, Pos>, ino: nat,
                     offset: nat, w: nat)
    requires Healthy(sb, s, owner) && Consistent(sb, t, owner') && ino < |s.inodes|
    requires LiveDir(sb, s, ino) ==> offset <= s.inodes[ino].size
    requires SizesAfter(s.inodes, t.inodes, ino, offset, w) && SameBelow(s.blocks, t.blocks, sb.inodeFirst)
    requires OthersCovered(sb, s, t, ino)
    requires offset <= s.inodes[ino].size ==> SelfCovered(sb, s, t, ino, t.inodes[ino].size)
    ensures Healthy(sb, t, owner')
  {
    SameBitmap(sb, s.blocks, t.blocks);
    hide InodeUsed, Covered, InUse, Owned;
    forall i: nat | LiveDir(sb, t, i) ensures Covered(sb, t, i, t.inodes[i].size) {
      assert LiveDir(sb, s, i) && Covered(sb, s, i, s.inodes[i].size);
    }
  }

  /** So does a read, which may fill holes. */
  lemma ReadHealthy(sb: SuperBlock, s: Store, owner: map<nat, Pos>, t: Store, owner': map<nat, Pos>, ino: nat)
    requires Healthy(sb, s, owner) && Consistent(sb, t, owner') && Reading(sb, s, t, ino)
    ensures Healthy(sb, t, owner')
  {
    BelowBitmap(sb, s, t);
    SameBitmap(sb, s.blocks, t.blocks);
    hide InodeUsed, Covered, InUse, Owned, SameBytes;
    forall i: nat | LiveDir(sb, t, i) ensures Covered(sb, t, i, t.inodes[i].size) {
      assert LiveDir(sb, s, i) && Covered(sb, s, i, s.inodes[i].size);
    }
  }

  lemma BelowBitmap(sb: SuperBlock, s: Store, t: Store)
    requires sb.Layout() && SameBelow(s.blocks, t.blocks, sb.dataBitmapFirst)
    ensures SameBelow(s.blocks, t.blocks, sb.inodeFirst)
  {}

  /** A link count has no say in where blocks and bytes are. */
  lemma RelinkHealthy(sb: SuperBlock, s: Store, t: Store, owner: map<nat, Pos>, ino: nat, nlink: Half)
    requires Healthy(sb, s, owner) && Consistent(sb, t, owner) && ino < |s.inodes|
    requires t.inodes == s.inodes[ino := s.inodes[ino].(nlink := nlink)]
    requires Trees(sb, t) == Trees(sb, s) && SameBytes(sb, s, t) && SameBelow(s.blocks, t.blocks, sb.inodeFirst)
    ensures Healthy(sb, t, owner)
    ensures forall i: nat :: i < |s.inodes| ==>
              Contents(sb, t, i) == Contents(sb, s, i) && InodeUsed(sb, t.blocks, i) == InodeUsed(sb, s.blocks, i)
  {
    SameBitmap(sb, s.blocks, t.blocks);
    hide Trees, ByteAt, InodeUsed, InUse, Owned;
    forall i: nat | LiveDir(sb, t, i) ensures Covered(sb, t, i, t.inodes[i].size) {
      assert LiveDir(sb, s, i);
      CoveredSame(sb, s, t, i, s.inodes[i].size);
    }
    forall i: nat | i < |t.inodes| ensures Contents(sb, t, i) == Contents(sb, s, i) {}
  }

  /** free_data_blocks reaches every block of a file if and only if its nonzero slots are a prefix. */
  lemma FreedAll(sb: SuperBlock, s: Store, owner: map<nat, Pos>, ino: nat)
    requires Consistent(sb, s, owner) && ino < |s.inodes|
    ensures var left := Without(owner, ino, Reached(s.inodes[ino].index));
            Prefix(s.inodes[ino].index) <==> forall c :: c in left ==> Root(left[c]) != ino
  {
    hide Consistent, Without, Prefix;
    FreedUpTo(sb, s, owner, ino, Reached(s.inodes[ino].index));
  }

  lemma FreedUpTo(sb: SuperBlock, s: Store, owner: map<nat, Pos>, ino: nat, n: nat)
    requires Consistent(sb, s, owner) && ino < |s.inodes| && n <= N_INDEX
    requires (n < N_INDEX ==> s.inodes[ino].index[n] == 0)
    requires forall k :: 0 <= k < n ==> s.inodes[ino].index[k] != 0
    ensures var left := Without(owner, ino, n);
            Prefix(s.inodes[ino].index) <==> forall c :: c in left ==> Root(left[c]) != ino
  {
    hide Consistent, Trees, Ptr, Owned, InUse, Words;
    var index := s.inodes[ino].index;
    var left := Without(owner, ino, n);
    if Prefix(index) {
      forall c | c in left ensures Root(left[c]) != ino {
        if Root(owner[c]) == ino { SlotNonzero(sb, s, owner, c, ino); }
      }
    } else {
      var a, b :| 0 <= a < b < N_INDEX && index[b] != 0 && index[a] == 0;
      TopOwned(sb, s, owner, ino, b);
      assert index[b] in left && Root(left[index[b]]) == ino;
    }
  }

  lemma TopOwned(sb: SuperBlock, s: Store, owner: map<nat, Pos>, ino: nat, k: nat)
    requires Consistent(sb, s, owner) && ino < |s.inodes| && k < N_INDEX && s.inodes[ino].index[k] != 0
    ensures s.inodes[ino].index[k] in owner && owner[s.inodes[ino].index[k]] == Top(ino, k)
    ensures Root(Top(ino, k)) == ino && RootSlot(Top(ino, k)) == k
  {
    hide InUse, Words;
    PtrTop(sb, s, ino, k);
  }

  lemma SlotNonzero(sb: SuperBlock, s: Store, owner: map<nat, Pos>, c: nat, ino: nat)
    requires Consistent(sb, s, owner) && c in owner && Root(owner[c]) == ino && ino < |s.inodes|
    ensures RootSlot(owner[c]) < N_INDEX && s.inodes[ino].index[RootSlot(owner[c])] != 0
  {
    var q := owner[c];
    assert Ptr(Trees(sb, s), q) == c;
    UnderTop(ino, RootSlot(q), q);
    UnderPtr(Trees(sb, s), Top(ino, RootSlot(q)), q);
    if RootSlot(q) < N_INDEX { PtrTop(sb, s, ino, RootSlot(q)); }
  }

  /** Files other than `ino`: records, bytes and layout are as in `s`. */
  ghost predicate OthersKept(sb: SuperBlock, s: Store, t: Store, ino: nat) {
    && OthersSame(s.inodes, t.inodes, ino)
    && (forall i: nat, o: nat {:trigger ByteAt(sb, t, i, o)} :: i != ino ==> ByteAt(sb, t, i, o) == ByteAt(sb, s, i, o))
    && OthersCovered(sb, s, t, ino)
  }

  lemma FreedKept(sb: SuperBlock, s0: Store, owner: map<nat, Pos>, blocks: seq<Block>, ino: nat, n: nat)
    requires Consistent(sb, s0, owner) && ino < |s0.inodes| && n <= N_INDEX
    requires Freeing(sb, s0, blocks, SlotBlocks(owner, ino, n))
    ensures OthersKept(sb, s0, WithIndex(s0.(blocks := blocks), ino, Emptied(s0.inodes[ino].index, n)), ino)
  {
    var t := WithIndex(s0.(blocks := blocks), ino, Emptied(s0.inodes[ino].index, n));
    hide Freeing, Emptied, InUse, Owned;
    FreedConsistent(sb, s0, owner, blocks, ino, n);
    forall i: nat, o: nat | i != ino ensures ByteAt(sb, t, i, o) == ByteAt(sb, s0, i, o) {
      FreedBytes(sb, s0, owner, blocks, ino, n, i, o);
    }
    hide ByteAt;
    forall i: nat | i < |s0.inodes| && i != ino && Covered(sb, s0, i, s0.inodes[i].size)
      ensures Covered(sb, t, i, s0.inodes[i].size)
    {
      forall m: nat | m < MAX_BLOCKS
        ensures BlockOf(sb, t, i, m) == BlockOf(sb, s0, i, m)
      {
        SlotOf(i, m);
        hide Trees, Ptr, LogicalPos;
      }
    }
  }

  /** A step that moves no cell and changes no byte. */
  lemma KeptStep(sb: SuperBlock, s0: Store, s: Store, t: Store, ino: nat)
    requires OthersKept(sb, s0, s, ino) && OthersSame(s.inodes, t.inodes, ino)
    requires Trees(sb, t) == Trees(sb, s) && SameBytes(sb, s, t)
    ensures OthersKept(sb, s0, t, ino)
  {
    hide Covered, ByteAt, Trees, Ptr;
    forall i: nat | i < |s0.inodes| && i != ino && Covered(sb, s0, i, s0.inodes[i].size)
      ensures Covered(sb, t, i, s0.inodes[i].size)
    {
      CoveredSame(sb, s, t, i, s0.inodes[i].size);
    }
  }

  lemma KeptTrans(sb: SuperBlock, s: Store, t: Store, u: Store, ino: nat)
    requires OthersKept(sb, s, t, ino) && OthersKept(sb, t, u, ino)
    ensures OthersKept(sb, s, u, ino)
  {
    hide Covered, ByteAt;
    forall i: nat | i < |s.inodes| && i != ino && Covered(sb, s, i, s.inodes[i].size)
      ensures Covered(sb, u, i, s.inodes[i].size)
    {
      assert Covered(sb, t, i, s.inodes[i].size) && t.inodes[i] == s.inodes[i];
      assert Covered(sb, u, i, t.inodes[i].size);
    }
  }

  lemma KeptContents(sb: SuperBlock, s: Store, t: Store, ino: nat)
    requires OthersKept(sb, s, t, ino)
    ensures |t.inodes| == |s.inodes|
    ensures forall i: nat :: i < |s.inodes| && i != ino ==>
              Contents(sb, t, i) == Contents(sb, s, i) && (ZeroTail(sb, s, i) ==> ZeroTail(sb, t, i))
  {
    hide ByteAt, Covered;
    forall i: nat | i < |s.inodes| && i != ino
      ensures Contents(sb, t, i) == Contents(sb, s, i) && (ZeroTail(sb, s, i) ==> ZeroTail(sb, t, i)) {}
  }

  /** Making one inode free, or an empty file, keeps the file system healthy. */
  lemma OneHealthy(sb: SuperBlock, s: Store, owner: map<nat, Pos>, t: Store, owner': map<nat, Pos>, ino: nat,
                   on: bool)
    requires Healthy(sb, s, owner) && Consistent(sb, t, owner') && ino < |s.inodes|
    requires OthersKept(sb, s, t, ino)
    requires on ==> t.inodes[ino].index == NO_BLOCKS && t.inodes[ino].size == 0
    requires forall i: nat {:trigger InodeUsed(sb, t.blocks, i)} :: i < |s.inodes| ==>
               InodeUsed(sb, t.blocks, i) == if i == ino then on else InodeUsed(sb, s.blocks, i)
    ensures Healthy(sb, t, owner')
  {
    KeptContents(sb, s, t, ino);
    if on { EmptyFile(sb, t, ino); }
    hide InodeUsed, Covered, InUse, Owned, Contents, ByteAt, Trees;
    forall i: nat | LiveDir(sb, t, i) ensures Covered(sb, t, i, t.inodes[i].size) {
      if i != ino { assert LiveDir(sb, s, i) && Covered(sb, s, i, s.inodes[i].size); }
    }
  }

  lemma SameInodeBits(sb: SuperBlock, a: seq<Block>, b: seq<Block>, c: seq<Block>)
    requires sb.Layout() && |a| == sb.totalBlocks && SameBelow(b, c, sb.inodeFirst)
    requires SameBelow(a, b, sb.dataBitmapFirst)
    ensures |c| == |a| && forall i: nat {:trigger InodeUsed(sb, c, i)} :: InodeUsed(sb, c, i) == InodeUsed(sb, a, i)
  {
    SameBitmap(sb, a, b);
    SameBitmap(sb, b, c);
  }

  lemma FreeingBelow(sb: SuperBlock, s0: Store, blocks: seq<Block>, freed: set<nat>)
    requires Shape(sb, s0) && Freeing(sb, s0, blocks, freed)
    ensures SameBelow(s0.blocks, blocks, sb.dataBitmapFirst)
  {
    hide InUse;
  }

  lemma KeptStart(sb: SuperBlock, s: Store, ino: nat)
    ensures OthersKept(sb, s, s, ino)
  {
    hide Covered, ByteAt;
  }

  /** The store after an inode got a record without blocks: those it still had are lost. */
  function Renewed(s: Store, owner: map<nat, Pos>, ino: nat, record: DiskInode): Store
    requires ino < |s.inodes|
  {
    s.(inodes := s.inodes[ino := record], lost := s.lost + SlotBlocks(owner, ino, N_INDEX))
  }

  lemma NewInode(sb: SuperBlock, s: Store, owner: map<nat, Pos>, ino: nat, record: DiskInode)
    requires Consistent(sb, s, owner) && ino < |s.inodes| && record.index == NO_BLOCKS
    ensures var t := Renewed(s, owner, ino, record);
            && Consistent(sb, t, Without(owner, ino, N_INDEX))
            && (forall q {:trigger Ptr(Trees(sb, t), q)} ::
                Root(q) != ino ==> Ptr(Trees(sb, t), q) == Ptr(Trees(sb, s), q))
  {
    var t, f := Renewed(s, owner, ino, record), Trees(sb, s);
    hide InUse, Words, Ptr, RootSlot, Root;
    var slots: seq<nat> := IndexOf(record);
    assert Trees(sb, t).tops == f.tops[ino := slots];
    assert Trees(sb, t) == f.(tops := f.tops[ino := slots]);
    ClearSlotsOwned(f, owner, ino, slots, N_INDEX);
  }

  /** It shows in no other file. */
  lemma RenewedKept(sb: SuperBlock, s: Store, owner: map<nat, Pos>, ino: nat, record: DiskInode)
    requires Consistent(sb, s, owner) && ino < |s.inodes| && record.index == NO_BLOCKS
    ensures OthersKept(sb, s, Renewed(s, owner, ino, record), ino)
  {
    var t := Renewed(s, owner, ino, record);
    NewInode(sb, s, owner, ino, record);
    hide Trees, Owned, LogicalPos, Consistent, Prefix;
    forall i: nat, n: nat | i != ino && n < MAX_BLOCKS ensures BlockOf(sb, t, i, n) == BlockOf(sb, s, i, n) {
      SlotOf(i, n);
    }
    forall i: nat, o: nat | i != ino ensures ByteAt(sb, t, i, o) == ByteAt(sb, s, i, o) {}
  }

  /** Blocks are lost if and only if the inode still had some. */
  lemma LostExactly(sb: SuperBlock, s: Store, owner: map<nat, Pos>, ino: nat)
    requires Consistent(sb, s, owner) && ino < |s.inodes|
    ensures SlotBlocks(owner, ino, N_INDEX) == {} <==> s.inodes[ino].index == NO_BLOCKS
    ensures SlotBlocks(owner, ino, N_INDEX) !! s.lost
  {
    hide Trees, Owned, InUse, Ptr;
    if s.inodes[ino].index == NO_BLOCKS {
      forall b | b in SlotBlocks(owner, ino, N_INDEX) ensures false { SlotNonzero(sb, s, owner, b, ino); }
    } else {
      var k :| 0 <= k < N_INDEX && s.inodes[ino].index[k] != NO_BLOCKS[k];
      TopOwned(sb, s, owner, ino, k);
      assert s.inodes[ino].index[k] in SlotBlocks(owner, ino, N_INDEX);
    }
  }

  lemma EmptyContents(sb: SuperBlock, s: Store, ino: nat)
    requires ino < |s.inodes| && s.inodes[ino].size == 0
    ensures Contents(sb, s, ino) == []
  {}

  lemma SavedBelow(sb: SuperBlock, s: Store, ino: nat)
    requires Shape(sb, s) && ino < |s.inodes|
    ensures SameBelow(s.blocks, Saved(sb, s, ino).blocks, sb.inodeFirst)
  {
    hide PutRecord;
  }
}
