/** Inodes and their data (fs/inode.c). */
module Inode {
  import opened Memory
  import opened BlockDevice
  import opened Bitmap
  import opened RadixForest
  import opened FileTree
  import opened FileData
  import opened FileLayout
  import opened FileFree
  import opened FileHealth
  import opened FileSync
  import opened FileSpace
  import opened FileSupply

  class FileSystem {
    const sb: SuperBlock
    const disk: Disk
    /** The current inode records: the cached copy where there is one. */
    var inodes: seq<DiskInode>
    /** For every data-region block in use, the one cell that points to it. */
    ghost var owner: map<nat, Pos>
    /** The blocks in use that no cell points to. */
    ghost var lost: set<nat>

    /** Mount a consistent image. */
    constructor (sb: SuperBlock, disk: Disk, inodes: seq<DiskInode>, ghost owner: map<nat, Pos>, ghost lost: set<nat>)
      requires Consistent(sb, Store(disk.blocks, inodes, lost), owner)
      ensures Valid() && this.sb == sb && this.disk == disk && this.inodes == inodes && this.owner == owner
      ensures this.lost == lost
    {
      this.sb := sb;
      this.disk := disk;
      this.inodes := inodes;
      this.owner := owner;
      this.lost := lost;
    }

    ghost function View(): Store
      reads this, disk
    {
      Store(disk.blocks, inodes, lost)
    }

    ghost predicate Valid()
      reads this, disk
    {
      Consistent(sb, View(), owner)
    }

    /** bitmap_alloc_block: first fit. */
    method AllocBlock() returns (r: nat)
      requires Shape(sb, View())
      requires |disk.held| < 3 && forall b :: b in disk.held ==> sb.InData(b)
      modifies disk
      ensures disk.held == old(disk.held)
      ensures r == NONE ==> disk.blocks == old(disk.blocks) && Full(sb, disk.blocks)
      ensures r != NONE ==>
        && sb.InData(r) && !InUse(sb, old(disk.blocks), r)
        && (forall b: nat :: sb.InData(b) && b < r ==> InUse(sb, old(disk.blocks), b))
        && OneBit(old(disk.blocks), disk.blocks, sb.dataBitmapFirst, sb.dataBitmapBlocks, r - sb.dataFirst, true)
    {
      var i := AllocBit(disk, sb.dataBitmapFirst, sb.dataBitmapBlocks, sb.dataBlocks);
      r := if i == NONE then NONE else sb.dataFirst + i;
    }

    /** Zero a block through the cache. */
    method ZeroOut(b: nat)
      requires b < |disk.blocks| && b !in disk.held && |disk.held| < 3
      modifies disk
      ensures disk.held == old(disk.held) && disk.blocks == PutBlock(old(disk.blocks), b, ZeroBlock())
    {
      var data := disk.Get(b);
      data := ZeroBlock();
      disk.Write(b, data);
      disk.Put(b);
    }

    /** Give an empty top-level slot a zeroed block. */
    method FillSlot(ino: nat, k: nat) returns (ok: bool)
      requires Valid() && ino < |inodes| && k < N_INDEX && inodes[ino].index[k] == 0 && disk.held == {}
      modifies this, disk
      ensures Valid() && disk.held == {} && |inodes| == |old(inodes)|
      ensures !ok ==> View() == old(View()) && Full(sb, disk.blocks)
      ensures Grown(sb, old(View()), View(), Top(ino, k))
      ensures ok ==> inodes[ino].index[k] != 0
      ensures ok <==> |FreeBlocks(sb, old(disk.blocks))| > 0
      ensures ok ==> |FreeBlocks(sb, disk.blocks)| == |FreeBlocks(sb, old(disk.blocks))| - 1
    {
      hide FreeBlocks, Trees, Ptr, InUse, GrownCells, GrownData, Owned, Words, BitSet, OneBit, PutBlock, Full;
      GrownRefl(sb, View(), Top(ino, k));
      var b := AllocBlock();
      FullNone(sb, old(disk.blocks));
      if b == NONE { return false; }
      HasFree(sb, old(disk.blocks), b);
      ghost var marked := disk.blocks;
      inodes := inodes[ino := inodes[ino].(index := inodes[ino].index[k := b])];
      ZeroOut(b);
      AttachTop(sb, old(View()), owner, marked, b, ino, k);
      FreeTaken(sb, old(View()), owner, View(), b, Top(ino, k));
      owner := owner[b := Top(ino, k)];
      return true;
    }

    /** Give an empty entry of the index block `tb`, whose buffer is held, a zeroed block. */
    method FillEntry(ghost up: Pos, tb: nat, table: Block, j: nat) returns (target: nat)
      requires Valid() && j < WORDS
      requires tb in disk.held && |disk.held| < 3 && forall b :: b in disk.held ==> b in owner
      requires tb == Ptr(Trees(sb, View()), up) && tb != 0 && Level(RANK, up) > 0
      requires table == View().blocks[tb] && WordAt(table, j) == 0
      modifies this, disk
      ensures Valid() && disk.held == old(disk.held) && inodes == old(inodes)
      ensures target == NONE ==> View() == old(View()) && owner == old(owner) && Full(sb, disk.blocks)
      ensures Grown(sb, old(View()), View(), Sub(up, j))
      ensures target != NONE ==>
        target == Ptr(Trees(sb, View()), Sub(up, j)) && target != 0 && target !in old(owner) &&
            owner == old(owner)[target := Sub(up, j)]
      ensures target != NONE <==> |FreeBlocks(sb, old(disk.blocks))| > 0
      ensures target != NONE ==> |FreeBlocks(sb, disk.blocks)| == |FreeBlocks(sb, old(disk.blocks))| - 1
    {
      ghost var s := View();
      hide Trees, Words, WordAt, SetWord, Ptr, Cell, Level, Grown, OneBit, BitSet, InUse, Full, Consistent, Owned,
           ByteAt, FreeBlocks;
      ReadyToFill(sb, s, owner, up, j);
      GrownRefl(sb, s, Sub(up, j));
      FullNone(sb, s.blocks);
      target := AllocBlock();
      if target == NONE { return; }
      HasFree(sb, s.blocks, target);
      ghost var marked := disk.blocks;
      AttachEntry(sb, s, owner, marked, target, up, j);
      disk.Write(tb, SetWord(table, j, target));
      ZeroOut(target);
      assert View() == EntryStore(s, marked, tb, j, target);
      FreeTaken(sb, s, owner, View(), target, Sub(up, j));
      owner := owner[target := Sub(up, j)];
    }

    /** The block in top-level slot `k`, allocated when the slot is empty. */
    method EnsureSlot(ino: nat, k: nat) returns (r: nat)
      requires Valid() && ino < |inodes| && k < N_INDEX && disk.held == {}
      modifies this, disk
      ensures Valid() && disk.held == {} && |inodes| == |old(inodes)|
      ensures Grown(sb, old(View()), View(), Top(ino, k))
      ensures r == NONE ==> Full(sb, disk.blocks) && Ptr(Trees(sb, View()), Top(ino, k)) == 0
      ensures r != NONE ==> r != 0 && r == Ptr(Trees(sb, View()), Top(ino, k)) && r in owner && r < |disk.blocks|
      ensures Ptr(Trees(sb, old(View())), Top(ino, k)) != 0 ==> View() == old(View()) && r != NONE
      ensures Allotted(sb, old(View()), View(), Top(ino, k), r)
    {
      hide Trees, Words, WordAt, SetWord, Ptr, Cell, Grown, BitSet, InUse, Full, Consistent, Owned, Level, FreeBlocks,
           Missing;
      GrownRefl(sb, View(), Top(ino, k));
      OneMissing(Trees(sb, View()), Top(ino, k));
      ShapeOf(sb, View(), owner);
      PtrTop(sb, View(), ino, k);
      if inodes[ino].index[k] == 0 {
        var ok := FillSlot(ino, k);
        PtrTop(sb, View(), ino, k);
        if !ok { return NONE; }
      }
      PtrInUse(sb, View(), owner, Top(ino, k));
      ShapeOf(sb, View(), owner);
      return inodes[ino].index[k];
    }

    /** The block in entry `j` of the index block `tb`, whose buffer is held, allocated when the
        entry is empty. */
    method EnsureEntry(ghost up: Pos, tb: nat, table: Block, j: nat) returns (r: nat)
      requires Valid() && j < WORDS
      requires tb in disk.held && |disk.held| < 3 && forall b :: b in disk.held ==> b in owner
      requires tb == Ptr(Trees(sb, View()), up) && tb != 0 && Level(RANK, up) > 0 && table == disk.blocks[tb]
      modifies this, disk
      ensures Valid() && disk.held == old(disk.held) && |inodes| == |old(inodes)|
      ensures forall b :: b in old(owner) ==> b in owner
      ensures Grown(sb, old(View()), View(), Sub(up, j))
      ensures r == NONE ==> Full(sb, disk.blocks) && Ptr(Trees(sb, View()), Sub(up, j)) == 0
      ensures r != NONE ==>
                && r != 0
                && r == Ptr(Trees(sb, View()), Sub(up, j))
                && r in owner
                && owner[r] == Sub(up, j)
                && r < |disk.blocks|
      ensures Ptr(Trees(sb, old(View())), Sub(up, j)) != 0 ==> View() == old(View()) && r != NONE
      ensures Allotted(sb, old(View()), View(), Sub(up, j), r)
    {
      hide Trees, Words, WordAt, SetWord, Ptr, Cell, Grown, BitSet, InUse, Full, Consistent, Owned, Level, FreeBlocks,
           Missing;
      GrownRefl(sb, View(), Sub(up, j));
      OneMissing(Trees(sb, View()), Sub(up, j));
      ReadyToFill(sb, View(), owner, up, j);
      r := WordAt(table, j);
      if r == 0 {
        r := FillEntry(up, tb, table, j);
      }
      PtrInUse(sb, View(), owner, Sub(up, j));
      ShapeOf(sb, View(), owner);
    }

    /** The outcome of a walk to cell `p` started in store `s0`: its block, or no block left. */
    ghost predicate Located(s0: Store, p: Pos, r: nat)
      requires Shape(sb, View())
      reads this, disk
    {
      && Grown(sb, s0, View(), p)
      && (r == NONE ==> Full(sb, disk.blocks) && Ptr(Trees(sb, View()), p) == 0)
      && (r != NONE ==> r != 0 && r == Ptr(Trees(sb, View()), p))
      && (Ptr(Trees(sb, s0), p) != 0 ==> View() == s0 && r != NONE)
    }

    /** locate_or_add_block: the physical number of logical block `n`, allocating what is missing. */
    method LocateOrAdd(ino: nat, n: nat) returns (r: nat)
      requires Valid() && ino < |inodes| && disk.held == {}
      modifies this, disk
      ensures Valid() && disk.held == {} && |inodes| == |old(inodes)|
      ensures n >= MAX_BLOCKS ==> r == NONE && View() == old(View())
      ensures n < MAX_BLOCKS ==> Located(old(View()), LogicalPos(ino, n), r)
      // it succeeds if and only if the free blocks are enough for the empty cells on the walk, and takes those
      ensures n < MAX_BLOCKS ==> Allotted(sb, old(View()), View(), LogicalPos(ino, n), r)
    {
      hide Trees, Words, WordAt, SetWord, Ptr, Cell, Grown, BitSet, InUse, Full, Consistent, Owned, Allotted;
      // case 1: direct slots
      if n < 10 {
        r := EnsureSlot(ino, n);
        return;
      }
      var m := n - 10;
      if m < 2 * 1024 {
        r := LocateIndirect(ino, m);
        return;
      }
      m := m - 2 * 1024;
      if m < 1024 * 1024 {
        r := LocateDouble(ino, m);
        return;
      }
      return NONE;
    }

    /** Case 2: the two single-indirect slots. */
    method LocateIndirect(ino: nat, m: nat) returns (r: nat)
      requires Valid() && ino < |inodes| && disk.held == {} && m < 2 * 1024
      modifies this, disk
      ensures Valid() && disk.held == {} && |inodes| == |old(inodes)|
      ensures Located(old(View()), Sub(Top(ino, 10 + m / 1024), m % 1024), r)
      ensures Allotted(sb, old(View()), View(), Sub(Top(ino, 10 + m / 1024), m % 1024), r)
    {
      hide Trees, Words, WordAt, SetWord, Ptr, Cell, Grown, BitSet, InUse, Full, Consistent, Owned, Level, Allotted;
      ghost var s0 := View();
      var l1, off := m / 1024, m % 1024;
      ghost var up := Top(ino, 10 + l1);
      ghost var p := Sub(up, off);
      PtrAbove(Trees(sb, s0), up, off);
      var tb := EnsureSlot(ino, 10 + l1);
      GrownWiden(sb, s0, View(), up, p);
      if tb == NONE {
        PtrBelowEmpty(Trees(sb, View()), up, off);
        AllottedNone(sb, s0, View(), up, off);
        return NONE;
      }
      ghost var s1 := View();
      RankOf(ino, 10 + l1, off);
      var table := disk.Get(tb);
      r := EnsureEntry(up, tb, table, off);
      AllottedThen(sb, s0, s1, View(), up, off, tb, r);
      GrownTrans(sb, s0, s1, View(), p);
      disk.Put(tb);
    }

    /** Case 3: the double-indirect slot. */
    method LocateDouble(ino: nat, m: nat) returns (r: nat)
      requires Valid() && ino < |inodes| && disk.held == {} && m < 1024 * 1024
      modifies this, disk
      ensures Valid() && disk.held == {} && |inodes| == |old(inodes)|
      ensures Located(old(View()), Sub(Sub(Top(ino, 12), m / 1024), m % 1024), r)
      ensures Allotted(sb, old(View()), View(), Sub(Sub(Top(ino, 12), m / 1024), m % 1024), r)
    {
      hide Trees, Words, WordAt, SetWord, Ptr, Cell, Grown, BitSet, InUse, Full, Consistent, Owned, Level, Allotted;
      ghost var s0 := View();
      var l1, off := m / 1024, m % 1024;
      ghost var top := Top(ino, 12);
      ghost var up := Sub(top, l1);
      ghost var p := Sub(up, off);
      PtrAbove(Trees(sb, s0), up, off);
      PtrAbove(Trees(sb, s0), top, l1);
      var l2Blk := EnsureSlot(ino, 12);
      GrownWiden(sb, s0, View(), top, p);
      if l2Blk == NONE {
        PtrBelowEmpty(Trees(sb, View()), top, l1);
        PtrBelowEmpty(Trees(sb, View()), up, off);
        AllottedNone(sb, s0, View(), top, l1);
        AllottedNone(sb, s0, View(), up, off);
        return NONE;
      }
      ghost var s1 := View();
      RankOf(ino, 12, l1);
      PtrInUse(sb, s1, owner, top);
      var l2Table := disk.Get(l2Blk);
      var l1Blk := EnsureEntry(top, l2Blk, l2Table, l1);
      ghost var s2 := View();
      AllottedThen(sb, s0, s1, s2, top, l1, l2Blk, l1Blk);
      GrownStep(sb, s0, s1, s2, up, p);
      if l1Blk == NONE {
        PtrBelowEmpty(Trees(sb, s2), up, off);
        AllottedNone(sb, s0, s2, up, off);
        disk.Put(l2Blk);
        return NONE;
      }
      GrownKeeps(sb, s1, s2, up, top);
      PtrInUse(sb, s2, owner, top);
      var l1Table := disk.Get(l1Blk);
      r := EnsureEntry(up, l1Blk, l1Table, off);
      GrownUp(sb, s0, s1, s2, top, l1);
      AllottedThen(sb, s0, s2, View(), up, off, l1Blk, r);
      GrownTrans(sb, s0, s2, View(), p);
      disk.Put(l1Blk);
      disk.Put(l2Blk);
    }

    /** inode_rw with write == true. */
    method InodeWrite(ino: nat)
      requires Valid() && ino < |inodes| && disk.held == {}
      modifies disk
      ensures Valid() && disk.held == {}
      ensures sb.inodeFirst + ino / PER_BLOCK < |old(disk.blocks)| && View() == Saved(sb, old(View()), ino)
      ensures old(SyncedBut(sb, View(), ino)) ==> Synced(sb, View())
    {
      hide Words, WordAt, Trees, Ptr, PutRecord, Decode, BitSet, InUse, Owned, ByteAt, Synced, SyncedBut;
      if SyncedBut(sb, View(), ino) { SyncedSave(sb, View(), ino); }
      SaveInode(sb, View(), owner, ino);
      var b := sb.inodeFirst + ino / PER_BLOCK;
      var data := disk.Get(b);
      disk.Write(b, PutRecord(data, ino % PER_BLOCK, inodes[ino]));
      disk.Put(b);
    }

    /** inode_rw with write == false: load the record of an inode from disk. */
    method InodeRead(ino: nat)
      requires Valid() && ino < |inodes| && disk.held == {} && SavedAt(sb, View(), ino)
      modifies this`inodes, disk
      ensures disk.held == {} && View() == old(View())
    {
      hide Words, WordAt, Trees, Ptr, Decode, BitSet, InUse, Owned;
      assert ino / PER_BLOCK < sb.inodeBlocks;
      var data := disk.Get(sb.inodeFirst + ino / PER_BLOCK);
      inodes := inodes[ino := Decode(data, ino % PER_BLOCK)];
      disk.Put(sb.inodeFirst + ino / PER_BLOCK);
    }

    /** Change a record and write the inode back. */
    method Update(ino: nat, record: DiskInode)
      requires Valid() && ino < |inodes| && disk.held == {} && record.index == inodes[ino].index
      modifies this, disk
      ensures Valid() && disk.held == {} && owner == old(owner) && lost == old(lost)
      ensures inodes == old(inodes)[ino := record]
      ensures Trees(sb, View()) == Trees(sb, old(View()))
      ensures SameBytes(sb, old(View()), View()) && SameBelow(old(disk.blocks), disk.blocks, sb.inodeFirst)
      ensures Full(sb, old(disk.blocks)) ==> Full(sb, disk.blocks)
      ensures SavedInode(sb, disk.blocks, ino) == inodes[ino]
      ensures old(SyncedBut(sb, View(), ino)) ==> Synced(sb, View())
      ensures forall d: nat {:trigger Late(sb, View(), d)} :: d != ino && old(Late(sb, View(), d)) ==>
                Late(sb, View(), d)
    {
      hide Words, WordAt, Trees, Ptr, PutRecord, Decode, BitSet, InUse, Owned, ByteAt, SyncedBut, Late;
      ghost var s0 := View();
      assert Shape(sb, s0) by { ShapeOf(sb, s0, owner); }
      Rewrite(sb, View(), owner, ino, record);
      inodes := inodes[ino := record];
      ghost var s1 := View();
      if SyncedBut(sb, s0, ino) { SyncedFrame(sb, s0, s1, ino); }
      SaveInode(sb, s1, owner, ino);
      SavedRecords(sb, s1, ino, ino);
      InodeWrite(ino);
      forall d: nat | d != ino && Late(sb, s0, d) ensures Late(sb, View(), d) { LateSave(sb, s0, ino, record, d); }
    }

    /** Overwrite part of one allocated data block through its buffer. */
    method Poke(ino: nat, n: nat, blk: nat, off: nat, part: seq<Byte>) returns (ghost was: Block)
      requires Valid() && n < MAX_BLOCKS && blk == BlockOf(sb, View(), ino, n) && blk != 0 && disk.held == {}
      requires off + |part| <= BLOCK_SIZE
      modifies disk
      ensures Valid() && disk.held == {} && SameBelow(old(disk.blocks), disk.blocks, sb.dataBitmapFirst)
      ensures forall q {:trigger Ptr(Trees(sb, View()), q)} ::
                Ptr(Trees(sb, View()), q) == Ptr(Trees(sb, old(View())), q)
      ensures forall o: nat :: o / BLOCK_SIZE == n ==> ByteAt(sb, old(View()), ino, o) == was[o % BLOCK_SIZE]
      ensures forall i: nat, o: nat {:trigger ByteAt(sb, View(), i, o)} :: ByteAt(sb, View(), i, o) ==
                if i == ino && o / BLOCK_SIZE == n then Copy(was, off, part)[o % BLOCK_SIZE]
                    else ByteAt(sb, old(View()), i, o)
      ensures Shape(sb, old(View())) && FreeBlocks(sb, disk.blocks) == FreeBlocks(sb, old(disk.blocks))
    {
      ghost var s := View();
      PtrInUse(sb, s, owner, LogicalPos(ino, n));
      DataWrite(sb, s, owner, ino, n, Copy(s.blocks[blk], off, part));
      assert forall o: nat :: o / BLOCK_SIZE == n ==> ByteAt(sb, s, ino, o) == s.blocks[blk][o % BLOCK_SIZE];
      ShapeOf(sb, s, owner);
      hide Trees, Words, WordAt, Ptr, BitSet, InUse, Owned, LogicalPos, ByteAt, Consistent, Copy, FreeBlocks;
      was := disk.blocks[blk];
      var data := disk.Get(blk);
      data := Copy(data, off, part);
      disk.Write(blk, data);
      disk.Put(blk);
      assert View() == s.(blocks := PutBlock(s.blocks, blk, data));
      FreeSame(sb, s, View(), owner);
    }

    /** One round of the write loop: find or allocate the block at `cur`, then fill it from `src`. */
    method WriteChunk(ghost s0: Store, ino: nat, ghost offset: nat, cur: nat, k: nat, part: seq<Byte>,
                      ghost src: seq<Byte>) returns (ok: bool)
      requires Valid() && disk.held == {} && Writing(sb, s0, View(), ino, offset, cur, src)
      requires cur / BLOCK_SIZE < MAX_BLOCKS && cur % BLOCK_SIZE + k <= BLOCK_SIZE
      requires offset <= cur && cur - offset + k <= |src| && part == src[cur - offset..cur - offset + k]
      modifies this, disk
      ensures Valid() && disk.held == {}
      ensures Writing(sb, s0, View(), ino, offset, if ok then cur + k else cur, src)
      ensures !ok ==> Full(sb, disk.blocks)
      ensures cur < s0.inodes[ino].size && offset <= s0.inodes[ino].size &&
              Covered(sb, s0, ino, s0.inodes[ino].size) ==>
                ok && inodes == old(inodes)
      ensures Shape(sb, old(View())) && (ok <==> Enough(sb, old(View()), LogicalPos(ino, cur / BLOCK_SIZE)))
      ensures ok ==> Stocked(sb, old(View()), View(), ino, cur / BLOCK_SIZE, cur / BLOCK_SIZE + 1)
    {
      hide Stocked, Enough, FreeBlocks, Missing, Trees, Words, WordAt, Ptr, BitSet, InUse, Full, Owned, LogicalPos,
           ByteAt, GrownCells, GrownData, Written, OthersCovered, SelfCovered, Covered;
      var n := cur / BLOCK_SIZE;
      ghost var s1 := View();
      if offset <= s0.inodes[ino].size && cur < s0.inodes[ino].size && Covered(sb, s0, ino, s0.inodes[ino].size) {
        WritingStuck(sb, s0, s1, ino, offset, cur, src);
      }
      var blk := LocateOrAdd(ino, n);
      ghost var s2 := View();
      WritingGrown(sb, s0, s1, s2, ino, offset, cur, src);
      if blk == NONE { return false; }
      StockedOne(sb, s1, s2, ino, n, blk);
      var was := Poke(ino, n, blk, cur % BLOCK_SIZE, part);
      ChunkWritten(sb, s0, s2, View(), ino, offset, cur, k, src, was);
      WritingPoked(sb, s0, s2, View(), ino, offset, cur, k, src);
      StockedSame(sb, s1, s2, View(), ino, n, n + 1);
      return true;
    }

    /** The end of inode_write_data: a file that grew gets its new size and is written back. */
    method SaveGrown(ghost s0: Store, ino: nat, offset: nat, written: nat, ghost src: seq<Byte>)
      requires Valid() && disk.held == {} && Writing(sb, s0, View(), ino, offset, offset + written, src)
      requires ino < |inodes|
      requires Shape(sb, s0) && offset + written <= NONE
      modifies this, disk
      ensures Valid() && disk.held == {}
      ensures Wrote(sb, s0, View(), ino, offset, written, src)
      ensures written == 0 || offset + written <= old(inodes)[ino].size ==> View() == old(View())
      ensures Full(sb, old(disk.blocks)) ==> Full(sb, disk.blocks)
      ensures Synced(sb, s0) ==>
                old(inodes) == s0.inodes || (written > 0 && offset + written > s0.inodes[ino].size) ==>
                  Synced(sb, View())
    {
      hide Synced, SyncedBut, Trees, Words, WordAt, Ptr, BitSet, InUse, Full, Owned, LogicalPos, ByteAt, Written,
           OthersCovered, SelfCovered, Writing, Wrote, Covered, InodeUsed, SameBytes, SavedInode;
      ghost var s := View();
      WritingFields(sb, s0, s, ino, offset, offset + written, src);
      RecordsBelow(sb, s0.blocks, disk.blocks);
      if Synced(sb, s0) {
        SyncedSome(sb, s0, ino);
        SyncedFrame(sb, s0, s, ino);
        if inodes == s0.inodes { SyncedAll(sb, s0, s); }
      }
      if written > 0 && offset + written > inodes[ino].size {
        Update(ino, inodes[ino].(size := offset + written));
        WritingResized(sb, s0, s, View(), ino, offset, offset + written, src);
      } else {
        WritingKeptSize(sb, s0, s, ino, offset, offset + written, src);
      }
    }

    /** inode_write_data */
    method WriteData(ino: nat, offset: Word, len: Word, src: seq<Byte>) returns (written: nat)
      requires Valid() && ino < |inodes| && disk.held == {} && |src| == len
      modifies this, disk
      ensures Valid() && disk.held == {} && |inodes| == |old(inodes)|
      ensures written <= len
      ensures written < len ==> offset + len > NONE || Full(sb, disk.blocks)
      ensures offset + len > NONE ==> written == 0 && View() == old(View())
      // exactly the bytes of the blocks that the free blocks last for
      ensures Shape(sb, old(View())) && (offset + len <= NONE ==> Lasted(sb, old(View()), ino, offset, len, written))
      // something is written if and only if the first block is there or can be allocated
      ensures 0 < len && offset + len <= NONE ==>
                (written > 0 <==> Enough(sb, old(View()), LogicalPos(ino, offset / BLOCK_SIZE)))
      // a short write ends at a block boundary, and no write inside a file with all its blocks is short
      ensures 0 < written < len ==> (offset + written) % BLOCK_SIZE == 0
      ensures old(Covered(sb, View(), ino, inodes[ino].size)) && offset + len <= old(inodes)[ino].size ==>
                written == len
      ensures SizesAfter(old(inodes), inodes, ino, offset, written)
      ensures KeptSlots(old(inodes)[ino].index, inodes[ino].index)
      // a write that does not grow the file leaves all records on disk as they are
      ensures written == 0 || offset + written <= old(inodes)[ino].size ==>
                SameRecords(sb, old(disk.blocks), disk.blocks)
      // the write is a splice exactly when it leaves no gap behind the old end that holds other than zeros
      ensures Contents(sb, View(), ino) == Splice(old(Contents(sb, View(), ino)), offset, src[..written]) <==>
                written == 0 || old(GapZero(sb, View(), ino, offset))
      ensures offset <= old(inodes)[ino].size ==>
                Contents(sb, View(), ino) == Splice(old(Contents(sb, View(), ino)), offset, src[..written])
      ensures old(ZeroTail(sb, View(), ino)) ==> ZeroTail(sb, View(), ino)
      ensures forall i :: 0 <= i < |inodes| && i != ino ==>
                && Contents(sb, View(), i) == old(Contents(sb, View(), i))
                && (old(ZeroTail(sb, View(), i)) ==> ZeroTail(sb, View(), i))
      ensures SameBelow(old(disk.blocks), disk.blocks, sb.inodeFirst)
      ensures OthersCovered(sb, old(View()), View(), ino)
      ensures offset <= old(inodes)[ino].size ==> SelfCovered(sb, old(View()), View(), ino, inodes[ino].size)
      ensures old(Healthy(sb, View(), owner)) && (old(LiveDir(sb, View(), ino)) ==> offset <= old(inodes)[ino].size) ==>
                Healthy(sb, View(), owner)
      // the record on disk is current unless the write fell short without growing the file
      ensures old(Synced(sb, View()) && Covered(sb, View(), ino, inodes[ino].size) && offset <= inodes[ino].size) ==>
                (written == len || offset + written > old(inodes)[ino].size) ==> Synced(sb, View())
    {
      hide Synced, SyncedBut, LiveDir, Healthy, Trees, Words, WordAt, Ptr, BitSet, InUse, Full, Owned, LogicalPos,
           ByteAt, Consistent, Written, Contents, ZeroTail, Splice, OthersCovered, SelfCovered, Writing, Covered, Wrote,
           Enough, FreeBlocks, Missing, Stocked, Lasted, UpTo, SizesAfter, KeptSlots, SameRecords, SameBelow, Shape,
           InodeUsed, Prefix;
      ghost var s0 := View();
      ShapeOf(sb, s0, owner);
      written := 0;
      var end := (offset + len) % 0x1_0000_0000;
      WritingStart(sb, s0, ino, offset, src);
      if end > NONE { return; }
      var cur := offset;
      StockedNone(sb, s0, ino, offset / BLOCK_SIZE);
      UpToNone(offset);
      while cur < end
        invariant Stocked(sb, s0, View(), ino, offset / BLOCK_SIZE, UpTo(offset, cur))
        invariant cur == offset + written && written <= len
        invariant cur <= end || offset + len > NONE
        invariant offset + len > NONE ==> written == 0 && View() == s0
        invariant 0 < written < len ==> cur % BLOCK_SIZE == 0
        invariant if written > 0 then Enough(sb, s0, LogicalPos(ino, offset / BLOCK_SIZE)) else View() == s0
        invariant Covered(sb, s0, ino, s0.inodes[ino].size) ==>
                    offset <= s0.inodes[ino].size && cur <= s0.inodes[ino].size ==> inodes == s0.inodes
        invariant Valid() && disk.held == {}
        invariant Writing(sb, s0, View(), ino, offset, cur, src)
      {
        var off := cur % BLOCK_SIZE;
        var k := BLOCK_SIZE - off;
        if k > end - cur { k := end - cur; }
        ghost var t := View();
        var ok := WriteChunk(s0, ino, offset, cur, k, src[written..written + k], src);
        LastedStep(sb, s0, t, View(), ino, offset, len, written, k, ok);
        if !ok { break; }
        written := written + k;
        cur := cur + k;
      }
      if written == len { LastedTo(sb, s0, View(), ino, offset, len, written); }
      WritingFields(sb, s0, View(), ino, offset, cur, src);
      RecordsBelow(sb, s0.blocks, disk.blocks);
      SaveGrown(s0, ino, offset, written, src);
      WriteMeaning(sb, s0, View(), ino, offset, written, src);
      if Healthy(sb, s0, old(owner)) && (LiveDir(sb, s0, ino) ==> offset <= s0.inodes[ino].size) {
        WriteHealthy(sb, s0, old(owner), View(), owner, ino, offset, written);
      }
    }

    /** inode_read_data: bytes [offset, offset + r) of the file come back in `dst`. */
    method ReadData(ino: nat, offset: Word, len: Word, dst: array<Byte>) returns (r: nat)
      requires Valid() && ino < |inodes| && disk.held == {} && dst.Length >= len
      modifies this, disk, dst
      ensures Valid() && disk.held == {}
      ensures r <= Readable(old(inodes)[ino], offset, len)
      ensures r < Readable(old(inodes)[ino], offset, len) ==> Full(sb, disk.blocks)
      // a hole is read by allocating it, so exactly the bytes of the blocks that the free blocks last for
      ensures Shape(sb, old(View())) &&
              Lasted(sb, old(View()), ino, offset, Readable(old(inodes)[ino], offset, len), r)
      ensures r > 0 ==>
                offset + r <= old(inodes)[ino].size && dst[..r] == old(Contents(sb, View(), ino))[offset..offset + r]
      ensures forall x :: r <= x < dst.Length ==> dst[x] == old(dst[x])
      ensures |inodes| == |old(inodes)|
      ensures forall i :: 0 <= i < |inodes| ==> Contents(sb, View(), i) == old(Contents(sb, View(), i))
      ensures Reading(sb, old(View()), View(), ino)
      ensures old(Covered(sb, View(), ino, inodes[ino].size)) ==>
                View() == old(View()) && r == Readable(old(inodes)[ino], offset, len)
      ensures old(Healthy(sb, View(), owner)) ==> Healthy(sb, View(), owner)
    {
      hide Healthy, Trees, Words, WordAt, Ptr, BitSet, InUse, Full, Owned, LogicalPos, ByteAt, Consistent, Contents,
           Covered, SameBytes, Reading, Stocked, Lasted, UpTo, Enough, FreeBlocks, Missing, Readable;
      ghost var s0 := View();
      assert Shape(sb, s0) by { ShapeOf(sb, s0, owner); }
      ReadableIs(inodes[ino], offset, len);
      r := 0;
      var end := (offset + len) % 0x1_0000_0000;
      ghost var most := Readable(s0.inodes[ino], offset, len);
      ReadingStart(sb, s0, ino);
      ReadingFacts(sb, s0, s0, ino);
      ReadMeaning(sb, s0, s0, ino, offset, 0, []);
      ghost var owner0 := owner;
      StockedNone(sb, s0, ino, offset / BLOCK_SIZE);
      UpToNone(offset);
      if most == 0 { LastedTo(sb, s0, s0, ino, offset, most, 0); }
      if inodes[ino].kind != TYPE_DATA && inodes[ino].kind != TYPE_DIR { return; }
      if end > inodes[ino].size { end := inodes[ino].size; }
      var cur := offset;
      while cur < end
        invariant Stocked(sb, s0, View(), ino, offset / BLOCK_SIZE, UpTo(offset, cur))
        invariant 0 < r < most ==> cur % BLOCK_SIZE == 0
        invariant cur == offset + r && r <= most && (cur <= end || r == 0)
        invariant Valid() && disk.held == {} && Reading(sb, s0, View(), ino)
        invariant forall k :: 0 <= k < r ==> dst[k] == ByteAt(sb, s0, ino, offset + k)
        invariant forall x :: r <= x < dst.Length ==> dst[x] == old(dst[x])
      {
        var off := cur % BLOCK_SIZE;
        var k := BLOCK_SIZE - off;
        if k > end - cur { k := end - cur; }
        ghost var t := View();
        var ok := ReadChunk(s0, ino, offset, r, k, dst);
        LastedStep(sb, s0, t, View(), ino, offset, most, r, k, ok);
        if !ok { break; }
        r := r + k;
        cur := cur + k;
      }
      if r == most { LastedTo(sb, s0, View(), ino, offset, most, r); }
      ReadingFacts(sb, s0, View(), ino);
      ReadMeaning(sb, s0, View(), ino, offset, r, dst[..r]);
      if Healthy(sb, s0, old(owner)) { ReadHealthy(sb, s0, old(owner), View(), owner, ino); }
    }

    /** One round of the read loop: find or allocate the block, then copy from it. */
    method ReadChunk(ghost s0: Store, ino: nat, offset: nat, r: nat, k: nat, dst: array<Byte>) returns (ok: bool)
      requires Valid() && disk.held == {} && Reading(sb, s0, View(), ino)
      requires (offset + r) / BLOCK_SIZE < MAX_BLOCKS && (offset + r) % BLOCK_SIZE + k <= BLOCK_SIZE
      requires r + k <= dst.Length
      requires offset + r < s0.inodes[ino].size
      modifies this, disk, dst
      ensures Valid() && disk.held == {} && Reading(sb, s0, View(), ino)
      ensures ok ==> forall x :: r <= x < r + k ==> dst[x] == ByteAt(sb, s0, ino, offset + x)
      ensures forall x :: 0 <= x < dst.Length && !(ok && r <= x < r + k) ==> dst[x] == old(dst[x])
      ensures !ok ==> Full(sb, disk.blocks) && !Covered(sb, s0, ino, s0.inodes[ino].size)
      ensures Shape(sb, old(View())) && (ok <==> Enough(sb, old(View()), LogicalPos(ino, (offset + r) / BLOCK_SIZE)))
      ensures ok ==> Stocked(sb, old(View()), View(), ino, (offset + r) / BLOCK_SIZE, (offset + r) / BLOCK_SIZE + 1)
    {
      hide Stocked, Enough, FreeBlocks, Missing, Trees, Words, WordAt, Ptr, BitSet, InUse, Full, Owned, LogicalPos,
           ByteAt, GrownCells, GrownData, OthersCovered, SameBytes;
      var n, off := (offset + r) / BLOCK_SIZE, (offset + r) % BLOCK_SIZE;
      ghost var s1 := View();
      var blk := LocateOrAdd(ino, n);
      ReadingGrown(sb, s0, s1, View(), ino, n);
      assert Covered(sb, s0, ino, s0.inodes[ino].size) ==> s1 == s0 && BlockOf(sb, s1, ino, n) != 0;
      if blk == NONE { return false; }
      StockedOne(sb, s1, View(), ino, n, blk);
      var data := Peek(ino, n, blk);
      CopyOut(dst, r, data, off, k);
      BytesRead(sb, s0, View(), ino, offset, r, k, data, dst[..]);
      return true;
    }

    /** `memcpy(dst + at, data + off, k)` */
    method CopyOut(dst: array<Byte>, at: nat, data: Block, off: nat, k: nat)
      requires at + k <= dst.Length && off + k <= BLOCK_SIZE
      modifies dst
      ensures forall x :: at <= x < at + k ==> dst[x] == data[off + (x - at)]
      ensures forall x :: 0 <= x < dst.Length && !(at <= x < at + k) ==> dst[x] == old(dst[x])
    {
      forall j | 0 <= j < k {
        dst[at + j] := data[off + j];
      }
    }

    /** Read one allocated data block through its buffer. */
    method Peek(ino: nat, n: nat, blk: nat) returns (data: Block)
      requires Valid() && n < MAX_BLOCKS && blk == BlockOf(sb, View(), ino, n) && blk != 0 && disk.held == {}
      modifies disk
      ensures disk.held == {} && disk.blocks == old(disk.blocks)
      ensures forall o: nat :: o / BLOCK_SIZE == n ==> ByteAt(sb, View(), ino, o) == data[o % BLOCK_SIZE]
    {
      PtrInUse(sb, View(), owner, LogicalPos(ino, n));
      data := disk.Get(blk);
      disk.Put(blk);
    }

    /** bitmap_free_block, in the middle of free_data_blocks: the bit is set and gets cleared. */
    method FreeBlock(ghost s0: Store, ghost freed: set<nat>, b: nat)
      requires Shape(sb, s0) && Freeing(sb, s0, disk.blocks, freed) && InUse(sb, s0.blocks, b) && b !in freed
      requires |disk.held| < 3 && forall h :: h in disk.held ==> sb.InData(h)
      modifies disk
      ensures disk.held == old(disk.held)
      ensures Freeing(sb, s0, disk.blocks, freed + {b})
    {
      hide BitSet, OneBit;
      ClearedOnce(sb, s0, disk.blocks, freed, b);
      FreeBit(disk, sb.dataBitmapFirst, sb.dataBitmapBlocks, b - sb.dataFirst);
      FreeOne(sb, s0, old(disk.blocks), disk.blocks, freed, b);
    }

    /** __free_data_blocks: give back the block that cell `p` of store `s0` points to, with
        everything behind it.  `s0` is the store when free_data_blocks began; no bit is cleared
        twice, and at most one buffer per table level plus one for the bitmap is held. */
    method FreeTree(ghost s0: Store, ghost p: Pos, ghost freed: set<nat>, b: nat, level: nat) returns (empty: bool)
      requires Consistent(sb, s0, owner) && Freeing(sb, s0, disk.blocks, freed)
      requires b == Ptr(Trees(sb, s0), p) && level == Level(RANK, p)
      requires |disk.held| + level < 3
      requires forall h :: h in disk.held ==> h in owner && owner[h] != p && Under(owner[h], p)
      requires freed !! Below(owner, p)
      modifies disk
      ensures disk.held == old(disk.held)
      ensures Freeing(sb, s0, disk.blocks, freed + Below(owner, p))
      ensures empty <==> b == 0
      decreases level, 1
    {
      hide Trees, Words, WordAt, Ptr, Freeing, OneBit, BitSet, InUse, Owned, Level, Below, BelowFirst, Under, Branch;
      if b == 0 {
        BelowEmpty(Trees(sb, s0), owner, p);
        assert freed + Below(owner, p) == freed;
        return true;
      }
      PtrInUse(sb, s0, owner, p);
      BelowSplit(sb, s0, owner, p, b);
      ghost var gone := freed;
      if level > 0 {
        FreeEntries(s0, p, freed, b, level);
        gone := freed + BelowFirst(owner, p, WORDS);
      }
      HeldInData(sb, s0, owner, disk.held);
      FreeBlock(s0, gone, b);
      assert gone + {b} == freed + Below(owner, p);
      return false;
    }

    /** The loop of __free_data_blocks over the entries of an index block. */
    method FreeEntries(ghost s0: Store, ghost p: Pos, ghost freed: set<nat>, b: nat, level: nat)
      requires Consistent(sb, s0, owner) && Freeing(sb, s0, disk.blocks, freed)
      requires b == Ptr(Trees(sb, s0), p) && b != 0 && level == Level(RANK, p) && level > 0
      requires |disk.held| + level < 3
      requires forall h :: h in disk.held ==> h in owner && owner[h] != p && Under(owner[h], p)
      requires freed !! Below(owner, p)
      modifies disk
      ensures disk.held == old(disk.held)
      ensures Freeing(sb, s0, disk.blocks, freed + BelowFirst(owner, p, WORDS))
      decreases level, 0
    {
      hide Trees, Words, WordAt, Ptr, Freeing, OneBit, BitSet, InUse, Owned, Level, Below, BelowFirst, Under, Branch;
      PtrInUse(sb, s0, owner, p);
      BelowSplit(sb, s0, owner, p, b);
      FreeingBlock(sb, s0, disk.blocks, freed, b);
      ghost var held := disk.held;
      ghost var gone := freed;
      var table := disk.Get(b);
      var i := 0;
      assert gone == freed + BelowFirst(owner, p, 0);
      while i < WORDS
        invariant 0 <= i <= WORDS && disk.held == held + {b}
        invariant gone == freed + BelowFirst(owner, p, i)
        invariant Freeing(sb, s0, disk.blocks, gone)
      {
        EntryFacts(sb, s0, owner, p, b, i, held, freed);
        BelowNext(owner, p, i);
        var meetEmpty := FreeTree(s0, Sub(p, i), gone, WordAt(table, i), level - 1);
        gone := gone + Below(owner, Sub(p, i));
        i := i + 1;
      }
      disk.Put(b);
    }

    /** Midway through free_data_blocks: the first `i` slots have been freed and emptied. */
    ghost predicate SlotsFreed(s0: Store, ino: nat, i: nat)
      reads this, disk
    {
      && Consistent(sb, s0, owner) && ino < |s0.inodes| && i <= N_INDEX
      && disk.held == {} && lost == s0.lost
      && Freeing(sb, s0, disk.blocks, SlotBlocks(owner, ino, i))
      && inodes == WithIndex(s0, ino, Emptied(s0.inodes[ino].index, i)).inodes
    }

    /** One round of free_data_blocks: free slot `i` and empty it. */
    method FreeSlot(ghost s0: Store, ino: nat, i: nat) returns (meetEmpty: bool)
      requires SlotsFreed(s0, ino, i) && i < N_INDEX
      modifies this, disk
      ensures owner == old(owner)
      ensures meetEmpty <==> s0.inodes[ino].index[i] == 0
      ensures SlotsFreed(s0, ino, if meetEmpty then i else i + 1)
    {
      hide Trees, Words, WordAt, Ptr, Freeing, OneBit, BitSet, InUse, Owned, Level, Below, Under, SlotBlocks,
           Consistent, Emptied;
      ghost var index := s0.inodes[ino].index;
      var level := if i < 10 then 0 else if i < 12 then 1 else 2;
      PtrTop(sb, s0, ino, i);
      SlotBlocksNext(owner, ino, i);
      EmptiedNext(index, i);
      ghost var gone := SlotBlocks(owner, ino, i);
      meetEmpty := FreeTree(s0, Top(ino, i), gone, inodes[ino].index[i], level);
      inodes := inodes[ino := inodes[ino].(index := inodes[ino].index[i := 0])];
      if meetEmpty {
        EmptyBelow(sb, s0, owner, Top(ino, i));
        assert gone + Below(owner, Top(ino, i)) == gone;
      }
    }

    /** free_data_blocks: give back the blocks behind the top-level slots up to the first empty one. */
    method FreeDataBlocks(ino: nat)
      requires Valid() && ino < |inodes| && disk.held == {}
      modifies this, disk
      ensures Valid() && disk.held == {}
      ensures var n := Reached(old(inodes)[ino].index);
              && Freeing(sb, old(View()), disk.blocks, SlotBlocks(old(owner), ino, n))
              && View() == WithIndex(old(View()).(blocks := disk.blocks), ino, Emptied(old(inodes)[ino].index, n))
              && owner == Without(old(owner), ino, n)
      ensures OthersKept(sb, old(View()), View(), ino)
    {
      ghost var s0 := View();
      FreeingStart(sb, s0, owner, ino);
      hide Trees, Words, WordAt, Ptr, Freeing, InUse, Owned, SlotBlocks, Reached, Without, Consistent, Emptied;
      var i := 0;
      while i < N_INDEX
        invariant 0 <= i <= N_INDEX && owner == old(owner)
        invariant SlotsFreed(s0, ino, i)
        invariant forall k :: 0 <= k < i ==> s0.inodes[ino].index[k] != 0
      {
        var meetEmpty := FreeSlot(s0, ino, i);
        if meetEmpty { break; }
        i := i + 1;
      }
      FirstEmptyIs(s0.inodes[ino].index, i);
      FreedConsistent(sb, s0, owner, disk.blocks, ino, i);
      FreedKept(sb, s0, owner, disk.blocks, ino, i);
      assert View() == WithIndex(s0.(blocks := disk.blocks), ino, Emptied(s0.inodes[ino].index, i));
      owner := Without(owner, ino, i);
    }

    /** inode_delete */
    method Delete(ino: nat)
      requires Valid() && ino < |inodes| && disk.held == {}
      modifies this, disk
      ensures Valid() && disk.held == {} && |inodes| == |old(inodes)|
      // the inode is free and empty
      ensures inodes[ino] == old(inodes)[ino].(index := inodes[ino].index, size := 0)
      ensures forall i: nat :: i < |inodes| ==>
                InodeUsed(sb, disk.blocks, i) == if i == ino then false else InodeUsed(sb, old(disk.blocks), i)
      // exactly blocks of this file are given back: all of them if and only if its nonzero slots are a prefix
      ensures owner == Without(old(owner), ino, Reached(old(inodes)[ino].index))
      ensures Prefix(old(inodes)[ino].index) <==> forall c :: c in owner ==> Root(owner[c]) != ino
      ensures Prefix(old(inodes)[ino].index) <==> inodes[ino].index == NO_BLOCKS
      // no other file is touched
      ensures OthersKept(sb, old(View()), View(), ino)
      ensures forall i: nat :: i < |inodes| && i != ino ==> Contents(sb, View(), i) == old(Contents(sb, View(), i))
      ensures old(Healthy(sb, View(), owner)) ==> Healthy(sb, View(), owner)
      ensures old(SyncedBut(sb, View(), ino)) ==> Synced(sb, View())
    {
      hide Trees, Words, WordAt, Ptr, BitSet, InUse, Owned, Reached, Without, SlotBlocks, SameBelow, SameBytes,
           SameRecords, Emptied, Freeing, OneBit, Covered, ZeroTail, ByteAt, Contents, Prefix, InodeUsed, SavedInode,
           Healthy, OthersCovered, Synced, SyncedBut;
      ghost var s0, owner0 := View(), owner;
      FreedAll(sb, s0, owner, ino);
      EmptiedExactly(s0.inodes[ino].index);
      FreeDataBlocks(ino);
      ghost var s1 := View();
      FreeingBelow(sb, s0, s1.blocks, SlotBlocks(owner0, ino, Reached(s0.inodes[ino].index)));
      RecordsBelow(sb, s0.blocks, s1.blocks);
      if SyncedBut(sb, s0, ino) { SyncedFrame(sb, s0, s1, ino); }
      Update(ino, inodes[ino].(size := 0));
      ghost var s2 := View();
      KeptStep(sb, s0, s1, s2, ino);
      FreeInode(ino);
      if Synced(sb, s2) { SyncedAll(sb, s2, View()); }
      KeptStep(sb, s0, s2, View(), ino);
      KeptContents(sb, s0, View(), ino);
      SameInodeBits(sb, s0.blocks, s1.blocks, s2.blocks);
      if Healthy(sb, s0, owner0) {
        OneHealthy(sb, s0, owner0, View(), owner, ino, false);
      }
    }

    /** bitmap_free_inode */
    method FreeInode(ino: nat)
      requires Valid() && ino < |inodes| && disk.held == {}
      modifies disk
      ensures Valid() && disk.held == {}
      ensures Trees(sb, View()) == Trees(sb, old(View())) && SameBytes(sb, old(View()), View())
      ensures SameRecords(sb, old(disk.blocks), disk.blocks)
      ensures forall i: nat {:trigger InodeUsed(sb, disk.blocks, i)} :: i < |inodes| ==>
                InodeUsed(sb, disk.blocks, i) == if i == ino then false else InodeUsed(sb, old(disk.blocks), i)
    {
      ghost var s := View();
      hide Trees, Words, Ptr, BitSet, InUse, Owned, OneBit, ByteAt, InodeUsed;
      FreeBit(disk, sb.inodeBitmapFirst, sb.inodeBitmapBlocks, ino);
      InodeBit(sb, s, owner, disk.blocks, ino, false);
      assert View() == s.(blocks := disk.blocks);
    }

    /** bitmap_alloc_inode: first fit. */
    method AllocInode() returns (r: nat)
      requires Valid() && disk.held == {}
      modifies disk
      ensures Valid() && disk.held == {}
      ensures Trees(sb, View()) == Trees(sb, old(View())) && SameBytes(sb, old(View()), View())
      ensures SameRecords(sb, old(disk.blocks), disk.blocks)
      ensures r == NONE ==> View() == old(View()) && forall i: nat :: i < |inodes| ==> InodeUsed(sb, disk.blocks, i)
      ensures r != NONE ==>
        && r < |inodes|
        && !InodeUsed(sb, old(disk.blocks), r)
        && (forall i: nat :: i < r ==> InodeUsed(sb, old(disk.blocks), i))
        && forall i: nat {:trigger InodeUsed(sb, disk.blocks, i)} :: i < |inodes| ==>
             InodeUsed(sb, disk.blocks, i) == if i == r then true else InodeUsed(sb, old(disk.blocks), i)
    {
      ghost var s := View();
      hide Trees, Words, Ptr, BitSet, InUse, Owned, OneBit, ByteAt;
      r := AllocBit(disk, sb.inodeBitmapFirst, sb.inodeBitmapBlocks, sb.totalInodes);
      if r != NONE {
        InodeBit(sb, s, owner, disk.blocks, r, true);
        assert View() == s.(blocks := disk.blocks);
      }
    }

    /** inode_create: the lowest free inode becomes an empty file with one link. */
    method Create(kind: Half, major: Half, minor: Half) returns (r: nat)
      requires Valid() && disk.held == {}
      modifies this, disk
      ensures Valid() && disk.held == {} && |inodes| == |old(inodes)|
      ensures r == NONE ==> View() == old(View()) && owner == old(owner)
      ensures r == NONE ==> forall i: nat :: i < |inodes| ==> InodeUsed(sb, disk.blocks, i)
      ensures r != NONE ==>
        && r < |inodes| && !InodeUsed(sb, old(disk.blocks), r)
        && inodes[r] == DiskInode(kind, major, minor, 1, 0, NO_BLOCKS) && SavedInode(sb, disk.blocks, r) == inodes[r]
        && Contents(sb, View(), r) == []
        && (forall i: nat :: i < |inodes| && i != r ==> Contents(sb, View(), i) == old(Contents(sb, View(), i)))
        && (forall i: nat {:trigger InodeUsed(sb, disk.blocks, i)} :: i < |inodes| ==>
              InodeUsed(sb, disk.blocks, i) == if i == r then true else InodeUsed(sb, old(disk.blocks), i))
        && OthersKept(sb, old(View()), View(), r)
      // blocks that the free inode still had, after the deletion of a file with holes, are lost
      ensures r != NONE ==>
        && owner == Without(old(owner), r, N_INDEX)
        && lost == old(lost) + SlotBlocks(old(owner), r, N_INDEX)
        && (lost == old(lost) <==> old(inodes)[r].index == NO_BLOCKS)
        && FreeBlocks(sb, disk.blocks) == FreeBlocks(sb, old(disk.blocks))
        && (forall q {:trigger Ptr(Trees(sb, View()), q)} ::
              Root(q) != r ==> Ptr(Trees(sb, View()), q) == Ptr(Trees(sb, old(View())), q))
      ensures old(Healthy(sb, View(), owner)) ==> Healthy(sb, View(), owner)
      ensures old(Synced(sb, View())) ==> Synced(sb, View())
    {
      hide Trees, Words, WordAt, Ptr, BitSet, InUse, Owned, OneBit, Covered, ZeroTail, ByteAt, Contents, InodeUsed,
           SavedInode, OthersKept, PutRecord, Synced, SyncedBut, FreeBlocks, Without, SlotBlocks, Root, Healthy;
      ghost var s0, owner0 := View(), owner;
      r := AllocInode();
      if r == NONE { return; }
      ghost var s1 := View();
      FreeSame(sb, s0, s1, owner);
      var record := DiskInode(kind, major, minor, 1, 0, NO_BLOCKS);
      NewInode(sb, s1, owner, r, record);
      RenewedKept(sb, s1, owner, r, record);
      LostExactly(sb, s1, owner, r);
      inodes := inodes[r := record];
      lost := lost + SlotBlocks(owner, r, N_INDEX);
      owner := Without(owner, r, N_INDEX);
      ghost var s2 := View();
      if Synced(sb, s0) {
        SyncedAll(sb, s0, s1);
        SyncedSome(sb, s1, r);
        SyncedFrame(sb, s1, s2, r);
      }
      SaveInode(sb, s2, owner, r);
      SavedRecords(sb, s2, r, r);
      InodeWrite(r);
      FreeSame(sb, s2, View(), owner);
      KeptStart(sb, s0, r);
      KeptStep(sb, s0, s0, s1, r);
      KeptTrans(sb, s0, s1, s2, r);
      KeptStep(sb, s0, s2, View(), r);
      KeptContents(sb, s0, View(), r);
      EmptyContents(sb, View(), r);
      SavedBelow(sb, s2, r);
      SameBitmap(sb, s2.blocks, disk.blocks);
      if Healthy(sb, s0, owner0) { OneHealthy(sb, s0, owner0, View(), owner, r, true); }
    }
  }
}
