/** Writing past the end of a file (file_lseek, then a write) and deleting it: blocks stay with the free inode, and are
    lost for good when it becomes a new file. */
module FileLeak {
  import opened BlockDevice
  import opened RadixForest
  import opened FileTree
  import opened FileData
  import opened FileLayout
  import opened FileSpace
  import opened FileFree
  import opened FileHealth
  import opened Inode

  /** The nonzero slots stay a prefix exactly when no slot before that of the new block is empty. */
  lemma PrefixExactly(sb: SuperBlock, s: Store, t: Store, ino: nat, n: nat)
    requires n < MAX_BLOCKS && ino < |s.inodes| && ino < |t.inodes| && Grown(sb, s, t, LogicalPos(ino, n))
    requires Prefix(s.inodes[ino].index) && BlockOf(sb, t, ino, n) != 0
    ensures Prefix(t.inodes[ino].index) <==> forall k :: 0 <= k < SlotIndex(n) ==> s.inodes[ino].index[k] != 0
  {
    hide GrownCells, GrownData, LogicalPos, Trees, Ptr;
    GrownSlots(sb, s, t, ino, n, ino);
    SlotUsed(sb, t, ino, n);
    var x, y, k0 := s.inodes[ino].index, t.inodes[ino].index, SlotIndex(n);
    assert y[k0] != 0;
    if Prefix(y) {
      forall k | 0 <= k < k0 ensures x[k] != 0 { assert y[k] != 0; }
    }
  }

  /** The first block written to an empty file is block `n`, not block 0, and then the file is deleted:
      either the disk was too full, or a block stays allocated that no live inode leads to. */
  method WriteBehindDelete(fs: FileSystem, ino: nat, n: nat) returns (r: nat)
    requires fs.Valid() && ino < |fs.inodes| && fs.inodes[ino].index == NO_BLOCKS && fs.disk.held == {}
    requires 0 < n < MAX_BLOCKS
    modifies fs, fs.disk
    ensures fs.Valid() && fs.disk.held == {} && |fs.inodes| == |old(fs.inodes)|
    ensures r != NONE <==> Enough(fs.sb, old(fs.View()), LogicalPos(ino, n))
    ensures r == NONE ==> Full(fs.sb, fs.disk.blocks)
    ensures r != NONE ==>
              && !InodeUsed(fs.sb, fs.disk.blocks, ino) && fs.inodes[ino].index != NO_BLOCKS
              && exists c :: c in fs.owner && Root(fs.owner[c]) == ino
  {
    hide Trees, Ptr, GrownCells, GrownData, InUse, LogicalPos, Prefix, InodeUsed, Owned, Enough, FreeBlocks, Missing,
         Full;
    ghost var s := fs.View();
    EmptyPrefix();
    ghost var x := fs.inodes[ino].index;
    r := fs.LocateOrAdd(ino, n);
    if r == NONE { return; }
    PrefixExactly(fs.sb, s, fs.View(), ino, n);
    assert x[0] == 0;
    fs.Delete(ino);
  }

  lemma EmptyPrefix()
    ensures Prefix(NO_BLOCKS)
  {}
}
