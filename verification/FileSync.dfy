/** Inode records in memory and their copies on disk. */
module FileSync {
  import opened BlockDevice
  import opened FileTree
  import opened FileData
  import opened FileLayout

  /** Inode `i` has on disk the record it has in memory. */
  predicate SavedAt(sb: SuperBlock, s: Store, i: nat) {
    && i < |s.inodes| && sb.inodeFirst + i / PER_BLOCK < |s.blocks|
    && SavedInode(sb, s.blocks, i) == s.inodes[i]
  }

  /** Every record but `ino`'s is on disk. */
  ghost predicate SyncedBut(sb: SuperBlock, s: Store, ino: nat) {
    forall i: nat {:trigger SavedAt(sb, s, i)} :: i < |s.inodes| && i != ino ==> SavedAt(sb, s, i)
  }

  /** Every record is on disk, so dropping cached copies loses nothing. */
  ghost predicate Synced(sb: SuperBlock, s: Store) { SyncedBut(sb, s, |s.inodes|) }

  ghost predicate SameRecords(sb: SuperBlock, was: seq<Block>, now: seq<Block>) {
    |now| == |was| && forall b {:trigger now[b]} :: sb.inodeFirst <= b < sb.inodeFirst + sb.inodeBlocks && b < |was| ==>
        now[b] == was[b]
  }

  lemma SyncedFrame(sb: SuperBlock, s: Store, t: Store, ino: nat)
    requires Shape(sb, s) && SyncedBut(sb, s, ino) && SameRecords(sb, s.blocks, t.blocks)
    requires OthersSame(s.inodes, t.inodes, ino)
    ensures SyncedBut(sb, t, ino)
  {
    hide Decode;
    forall i: nat | i < |t.inodes| && i != ino ensures SavedAt(sb, t, i) {
      assert SavedAt(sb, s, i) && i / PER_BLOCK < sb.inodeBlocks;
    }
  }

  lemma SyncedSave(sb: SuperBlock, s: Store, ino: nat)
    requires Shape(sb, s) && ino < |s.inodes| && SyncedBut(sb, s, ino)
    ensures sb.inodeFirst + ino / PER_BLOCK < |s.blocks| && Synced(sb, Saved(sb, s, ino))
  {
    assert ino / PER_BLOCK < sb.inodeBlocks;
    hide Decode, PutRecord;
    var t := Saved(sb, s, ino);
    forall i: nat | i < |t.inodes| ensures SavedAt(sb, t, i) {
      SavedRecords(sb, s, ino, i);
      assert i != ino ==> SavedAt(sb, s, i);
    }
  }

  /** Data and bitmaps may change. */
  lemma SyncedAll(sb: SuperBlock, s: Store, t: Store)
    requires Shape(sb, s) && Synced(sb, s) && SameRecords(sb, s.blocks, t.blocks) && t.inodes == s.inodes
    ensures Synced(sb, t)
  {
    SyncedFrame(sb, s, t, |s.inodes|);
  }

  lemma SyncedSome(sb: SuperBlock, s: Store, ino: nat)
    requires Synced(sb, s)
    ensures SyncedBut(sb, s, ino) && (ino < |s.inodes| ==> SavedAt(sb, s, ino))
  {
    hide SavedAt;
  }

  lemma RecordsBelow(sb: SuperBlock, was: seq<Block>, now: seq<Block>)
    requires sb.Layout() && SameBelow(was, now, sb.dataBitmapFirst)
    ensures SameRecords(sb, was, now)
  {}

  /** The record of inode `i` on disk, which inode_lock loads when the inode comes back. */
  function OnDisk(sb: SuperBlock, s: Store, i: nat): DiskInode
    requires sb.inodeFirst + i / PER_BLOCK < |s.blocks|
  {
    SavedInode(sb, s.blocks, i)
  }

  /** It differs from the record in memory by empty slots at most. */
  ghost predicate Lags(sb: SuperBlock, s: Store, i: nat) {
    && i < |s.inodes| && sb.inodeFirst + i / PER_BLOCK < |s.blocks|
    && OnDisk(sb, s, i) == s.inodes[i].(index := OnDisk(sb, s, i).index)
    && Sparser(OnDisk(sb, s, i).index, s.inodes[i].index)
  }

  predicate Sparser(x: Index, y: Index) {
    forall k :: 0 <= k < N_INDEX ==> x[k] == 0 || x[k] == y[k]
  }

  /** After a write that does not grow the file, the record on disk is the one from before the write. */
  lemma Lagging(sb: SuperBlock, s: Store, t: Store, i: nat)
    requires Shape(sb, s) && SavedAt(sb, s, i) && SameRecords(sb, s.blocks, t.blocks) && |t.inodes| == |s.inodes|
    requires t.inodes[i] == s.inodes[i].(index := t.inodes[i].index) && KeptSlots(s.inodes[i].index, t.inodes[i].index)
    ensures Lags(sb, t, i) && OnDisk(sb, t, i) == s.inodes[i]
  {
    hide Decode;
    assert i / PER_BLOCK < sb.inodeBlocks;
  }

  /** Every record but that of `d` is on disk; the one of `d` may lag behind, but leads to all bytes of the file. */
  ghost predicate Late(sb: SuperBlock, s: Store, d: nat) {
    && SyncedBut(sb, s, d) && Lags(sb, s, d) && Prefix(OnDisk(sb, s, d).index)
    && forall m: nat :: m < MAX_BLOCKS && m * BLOCK_SIZE < s.inodes[d].size ==>
        OnDisk(sb, s, d).index[SlotIndex(m)] != 0
  }

  /** Allocation that stopped halfway, in a file without holes. */
  lemma LateAfter(sb: SuperBlock, s: Store, t: Store, d: nat)
    requires Shape(sb, s) && Synced(sb, s) && d < |s.inodes| && Covered(sb, s, d, s.inodes[d].size)
    requires SameRecords(sb, s.blocks, t.blocks) && OthersSame(s.inodes, t.inodes, d)
    requires t.inodes[d] == s.inodes[d].(index := t.inodes[d].index) && KeptSlots(s.inodes[d].index, t.inodes[d].index)
    ensures Late(sb, t, d)
  {
    hide SavedAt, Lags, OnDisk, Trees, SlotIndex, Prefix, KeptSlots;
    SyncedSome(sb, s, d);
    SyncedFrame(sb, s, t, d);
    Lagging(sb, s, t, d);
    forall m: nat | m < MAX_BLOCKS && m * BLOCK_SIZE < s.inodes[d].size ensures s.inodes[d].index[SlotIndex(m)] != 0 {
      SlotUsed(sb, s, d, m);
    }
  }

  /** Saving another record changes nothing about that. */
  lemma LateSave(sb: SuperBlock, s: Store, ino: nat, record: DiskInode, d: nat)
    requires Shape(sb, s) && Late(sb, s, d) && ino < |s.inodes| && d != ino
    ensures sb.inodeFirst + ino / PER_BLOCK < |s.blocks|
    ensures Late(sb, Saved(sb, s.(inodes := s.inodes[ino := record]), ino), d)
  {
    assert ino / PER_BLOCK < sb.inodeBlocks;
    hide Decode, PutRecord, Prefix, SlotIndex;
    var u := s.(inodes := s.inodes[ino := record]);
    var t := Saved(sb, u, ino);
    forall i: nat | i < |t.inodes| && i != d ensures SavedAt(sb, t, i) {
      SavedRecords(sb, u, ino, i);
      assert SavedAt(sb, s, i);
    }
    SavedRecords(sb, u, ino, d);
  }
}
