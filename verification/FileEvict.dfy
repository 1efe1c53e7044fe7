/** What is lost when an inode leaves the cache whose record on disk lags behind (fs/inode.c): inode_write_data and
    inode_read_data save the inode only when the file has grown, but may give empty slots of its index a block. */
module FileEvict {
  import opened Memory
  import opened BlockDevice
  import opened Bitmap
  import opened RadixForest
  import opened FileTree
  import opened FileData
  import opened FileLayout
  import opened FileFree
  import opened FileSpace
  import opened FileHealth
  import opened FileSync
  import opened Inode
  import opened Dirent
  import opened Dentry
  import opened LinkGraph
  import opened InodeCache

  /** The blocks that only slots empty in `x` lead to. */
  function Unreached(owner: map<nat, Pos>, i: nat, x: Index): set<nat> {
    set b | b in owner && Root(owner[b]) == i && RootSlot(owner[b]) < N_INDEX && x[RootSlot(owner[b])] == 0
  }

  function Reaching(owner: map<nat, Pos>, i: nat, x: Index): map<nat, Pos> {
    owner - Unreached(owner, i, x)
  }

  /** The store after inode `i` was dropped from memory and loaded again. */
  function Reloaded(sb: SuperBlock, s: Store, owner: map<nat, Pos>, i: nat): Store
    requires i < |s.inodes| && sb.inodeFirst + i / PER_BLOCK < |s.blocks|
  {
    s.(inodes := s.inodes[i := OnDisk(sb, s, i)], lost := s.lost + Unreached(owner, i, OnDisk(sb, s, i).index))
  }

  /** With some slots of root `w` emptied, the cells behind them are empty and all others are as before. */
  lemma {:induction false} CutSlotsAt(f: Forest, w: nat, x: seq<nat>, q: Pos)
    requires w in f.tops && |x| == |f.tops[w]| && forall k :: 0 <= k < |x| ==> x[k] == 0 || x[k] == f.tops[w][k]
    ensures Ptr(f.(tops := f.tops[w := x]), q) ==
              if Root(q) == w && RootSlot(q) < |x| && x[RootSlot(q)] == 0 then 0 else Ptr(f, q)
  {
    if q.Sub? { CutSlotsAt(f, w, x, q.up); }
  }

  /** Loading a record that lags behind leaves bitmap and cells in agreement; the blocks only the record in memory led
      to are lost. */
  lemma ReloadedConsistent(sb: SuperBlock, s: Store, owner: map<nat, Pos>, i: nat)
    requires Consistent(sb, s, owner) && Lags(sb, s, i)
    ensures var t, x := Reloaded(sb, s, owner, i), OnDisk(sb, s, i).index;
            && Consistent(sb, t, Reaching(owner, i, x))
            && forall q {:trigger Ptr(Trees(sb, t), q)} :: Ptr(Trees(sb, t), q) ==
                 if Root(q) == i && RootSlot(q) < N_INDEX && x[RootSlot(q)] == 0 then 0 else Ptr(Trees(sb, s), q)
  {
    hide InUse, Words, Ptr, RootSlot, Root, SavedInode;
    var t, x, f := Reloaded(sb, s, owner, i), OnDisk(sb, s, i).index, Trees(sb, s);
    var slots: seq<nat> := IndexOf(OnDisk(sb, s, i));
    assert Trees(sb, t).tops == f.tops[i := slots];
    assert Trees(sb, t) == f.(tops := f.tops[i := slots]);
    forall q
      ensures Ptr(Trees(sb, t), q) ==
                if Root(q) == i && RootSlot(q) < N_INDEX && x[RootSlot(q)] == 0 then 0 else Ptr(f, q)
    {
      CutSlotsAt(f, i, slots, q);
    }
  }

  /** Byte `o` of file `i` lies behind a slot that is empty in the record on disk. */
  predicate Cut(sb: SuperBlock, s: Store, i: nat, o: nat)
    requires sb.inodeFirst + i / PER_BLOCK < |s.blocks|
  {
    o / BLOCK_SIZE < MAX_BLOCKS && OnDisk(sb, s, i).index[SlotIndex(o / BLOCK_SIZE)] == 0
  }

  /** Bytes behind such a slot read as zero from then on; all other bytes are kept. */
  lemma ReloadedBytes(sb: SuperBlock, s: Store, owner: map<nat, Pos>, i: nat, j: nat, o: nat)
    requires Consistent(sb, s, owner) && Lags(sb, s, i)
    ensures ByteAt(sb, Reloaded(sb, s, owner, i), j, o) == if j == i && Cut(sb, s, i, o) then 0 else ByteAt(sb, s, j, o)
  {
    ReloadedConsistent(sb, s, owner, i);
    hide Trees, Owned, SavedInode, LogicalPos, Consistent;
    if o / BLOCK_SIZE < MAX_BLOCKS { SlotOf(j, o / BLOCK_SIZE); }
  }

  /** The contents of all files afterwards: those of file `i` are kept if and only if the bytes cut off were zero. */
  lemma ReloadedContents(sb: SuperBlock, s: Store, owner: map<nat, Pos>, i: nat)
    requires Consistent(sb, s, owner) && Lags(sb, s, i)
    ensures var t, c := Reloaded(sb, s, owner, i), Contents(sb, s, i);
            && (forall j :: 0 <= j < |s.inodes| && j != i ==> Contents(sb, t, j) == Contents(sb, s, j))
            && Contents(sb, t, i) == seq(|c|, o requires 0 <= o < |c| => if Cut(sb, s, i, o) then 0 else c[o])
            && (Contents(sb, t, i) == c <==> forall o: nat :: o < |c| && Cut(sb, s, i, o) ==> c[o] == 0)
  {
    var t, c := Reloaded(sb, s, owner, i), Contents(sb, s, i);
    forall j: nat, o: nat
      ensures ByteAt(sb, t, j, o) == if j == i && Cut(sb, s, i, o) then 0 else ByteAt(sb, s, j, o)
    {
      ReloadedBytes(sb, s, owner, i, j, o);
    }
    hide ByteAt, SavedInode, Consistent, Cut;
    var d := Contents(sb, t, i);
    assert |c| == |d| && forall o :: 0 <= o < |c| ==> d[o] == if Cut(sb, s, i, o) then 0 else c[o];
  }

  /** Blocks are lost if and only if the record on disk is not the one in memory. */
  lemma LostOnReload(sb: SuperBlock, s: Store, owner: map<nat, Pos>, i: nat)
    requires Consistent(sb, s, owner) && Lags(sb, s, i)
    ensures Unreached(owner, i, OnDisk(sb, s, i).index) == {} <==> SavedAt(sb, s, i)
  {
    hide Trees, Owned, InUse, Ptr, SavedInode, Consistent;
    var x, y := OnDisk(sb, s, i).index, s.inodes[i].index;
    if x == y {
      forall b | b in Unreached(owner, i, x) ensures false { SlotNonzero(sb, s, owner, b, i); }
    } else {
      var k :| 0 <= k < N_INDEX && x[k] != y[k];
      TopOwned(sb, s, owner, i, k);
      assert y[k] in Unreached(owner, i, x);
    }
  }

  /** The inode is dropped from the cache and loaded again. */
  method Reload(fs: FileSystem, i: nat)
    requires fs.Valid() && i < |fs.inodes| && fs.disk.held == {} && Lags(fs.sb, fs.View(), i)
    modifies fs, fs.disk
    ensures fs.Valid() && fs.disk.held == {}
    ensures fs.View() == Reloaded(fs.sb, old(fs.View()), old(fs.owner), i)
  {
    hide Trees, Ptr, Owned, InUse, Decode;
    ghost var s, owner := fs.View(), fs.owner;
    ReloadedConsistent(fs.sb, s, owner, i);
    ghost var x := OnDisk(fs.sb, s, i).index;
    assert i / PER_BLOCK < fs.sb.inodeBlocks;
    var data := fs.disk.Get(fs.sb.inodeFirst + i / PER_BLOCK);
    fs.disk.Put(fs.sb.inodeFirst + i / PER_BLOCK);
    fs.inodes := fs.inodes[i := Decode(data, i % PER_BLOCK)];
    fs.lost := fs.lost + Unreached(owner, i, x);
    fs.owner := Reaching(owner, i, x);
  }

  /** `c` with `data` put at `offset` where slots of `x` were in use. */
  function Outliving(c: seq<Byte>, x: Index, offset: nat, data: seq<Byte>): seq<Byte>
    requires |c| <= NONE
  {
    seq(|c|, o requires 0 <= o < |c| =>
      if offset <= o < offset + |data| && x[SlotIndex(o / BLOCK_SIZE)] != 0 then data[o - offset] else c[o])
  }

  lemma HoleZero(sb: SuperBlock, s: Store, i: nat, o: nat)
    requires i < |s.inodes| && o / BLOCK_SIZE < MAX_BLOCKS && s.inodes[i].index[SlotIndex(o / BLOCK_SIZE)] == 0
    ensures ByteAt(sb, s, i, o) == 0
  {
    if BlockOf(sb, s, i, o / BLOCK_SIZE) != 0 { SlotUsed(sb, s, i, o / BLOCK_SIZE); }
  }

  /** A file holds zeros behind an empty slot, so what a write put there reads as before once it is cut off. */
  lemma CutBack(sb: SuperBlock, s: Store, t: Store, owner: map<nat, Pos>, i: nat, offset: nat, data: seq<Byte>)
    requires i < |s.inodes| && Consistent(sb, t, owner) && Lags(sb, t, i) && OnDisk(sb, t, i) == s.inodes[i]
    requires offset + |data| <= s.inodes[i].size
    requires Contents(sb, t, i) == Splice(Contents(sb, s, i), offset, data)
    ensures Contents(sb, Reloaded(sb, t, owner, i), i) == Outliving(Contents(sb, s, i), s.inodes[i].index, offset, data)
  {
    hide ByteAt, Consistent, Reloaded, SlotIndex, Lags, OnDisk;
    ReloadedContents(sb, t, owner, i);
    var c, x := Contents(sb, s, i), s.inodes[i].index;
    forall o: nat | o < |c| && x[SlotIndex(o / BLOCK_SIZE)] == 0 ensures c[o] == 0 { HoleZero(sb, s, i, o); }
    hide Contents;
  }

  /** Of a write inside a file, exactly the bytes behind slots that were in use before it outlive the cached inode. */
  method WriteThenReload(fs: FileSystem, i: nat, offset: Word, len: Word, src: seq<Byte>) returns (written: nat)
    requires fs.Valid() && i < |fs.inodes| && fs.disk.held == {} && SavedAt(fs.sb, fs.View(), i)
    requires |src| == len && offset + len <= fs.inodes[i].size
    modifies fs, fs.disk
    ensures fs.Valid() && fs.disk.held == {} && fs.inodes[i] == old(fs.inodes[i]) && written <= len
    ensures written < len ==> Full(fs.sb, fs.disk.blocks)
    ensures Contents(fs.sb, fs.View(), i) ==
              Outliving(old(Contents(fs.sb, fs.View(), i)), old(fs.inodes[i].index), offset, src[..written])
  {
    hide Trees, Ptr, Owned, InUse, Decode, Contents, Splice, Consistent, Reloaded, Outliving, SameRecords, SavedAt,
         KeptSlots, Full, Synced, Healthy, OthersCovered, SelfCovered, ZeroTail, GapZero, Enough, SameBelow, Lags,
         FreeBlocks, Missing, LogicalPos, Covered, OnDisk;
    ghost var s, sb := fs.View(), fs.sb;
    ShapeOf(sb, s, fs.owner);
    written := fs.WriteData(i, offset, len, src);
    ghost var t, owner := fs.View(), fs.owner;
    Lagging(sb, s, t, i);
    CutBack(sb, s, t, owner, i, offset, src[..written]);
    ReloadedRecord(sb, t, owner, i);
    Reload(fs, i);
  }

  lemma ReloadedRecord(sb: SuperBlock, s: Store, owner: map<nat, Pos>, i: nat)
    requires Lags(sb, s, i)
    ensures i < |s.inodes| && Reloaded(sb, s, owner, i).blocks == s.blocks
    ensures Reloaded(sb, s, owner, i).inodes == s.inodes[i := OnDisk(sb, s, i)]
  {}

  // Directories whose record is late

  /** The record on disk leads to all bytes of the file, so the file keeps its contents. */
  lemma LateContents(sb: SuperBlock, s: Store, owner: map<nat, Pos>, d: nat)
    requires Consistent(sb, s, owner) && Late(sb, s, d)
    ensures forall i: nat :: i < |s.inodes| ==> Contents(sb, Reloaded(sb, s, owner, d), i) == Contents(sb, s, i)
  {
    ReloadedContents(sb, s, owner, d);
    hide Consistent, ByteAt, Prefix, SlotIndex, OnDisk, Lags;
    assert forall o: nat :: o < s.inodes[d].size ==> !Cut(sb, s, d, o);
  }

  lemma LateCovered(sb: SuperBlock, s: Store, owner: map<nat, Pos>, d: nat, i: nat)
    requires Consistent(sb, s, owner) && Late(sb, s, d) && i < |s.inodes| && Covered(sb, s, i, s.inodes[i].size)
    ensures var t := Reloaded(sb, s, owner, d); Covered(sb, t, i, t.inodes[i].size)
  {
    ReloadedConsistent(sb, s, owner, d);
    hide Consistent, Trees, Ptr, Prefix, OnDisk, SlotIndex, LogicalPos;
    var t := Reloaded(sb, s, owner, d);
    forall m: nat | m < MAX_BLOCKS && m * BLOCK_SIZE < t.inodes[i].size ensures BlockOf(sb, t, i, m) != 0 {
      SlotOf(i, m);
      assert BlockOf(sb, s, i, m) != 0;
    }
  }

  lemma LateHealthy(sb: SuperBlock, s: Store, owner: map<nat, Pos>, d: nat)
    requires Healthy(sb, s, owner) && Late(sb, s, d)
    ensures Healthy(sb, Reloaded(sb, s, owner, d), Reaching(owner, d, OnDisk(sb, s, d).index))
  {
    ReloadedConsistent(sb, s, owner, d);
    hide Consistent, Covered, InodeUsed, Prefix, SlotIndex, OnDisk, Reaching, Trees, Ptr;
    var t := Reloaded(sb, s, owner, d);
    HealthyParts(sb, s, owner);
    LateRecord(sb, s, owner, d);
    forall i: nat | LiveDir(sb, t, i) ensures Covered(sb, t, i, t.inodes[i].size) {
      assert LiveDir(sb, s, i) && Covered(sb, s, i, s.inodes[i].size);
      LateCovered(sb, s, owner, d, i);
    }
  }

  lemma LateRecord(sb: SuperBlock, s: Store, owner: map<nat, Pos>, d: nat)
    requires Late(sb, s, d)
    ensures var t := Reloaded(sb, s, owner, d);
            && t.blocks == s.blocks && |t.inodes| == |s.inodes| && t.inodes[d] == OnDisk(sb, s, d)
            && forall i :: 0 <= i < |s.inodes| ==> t.inodes[i] == s.inodes[i].(index := t.inodes[i].index)
  {
    hide SyncedBut, OnDisk, Prefix, SlotIndex;
  }

  lemma LateSynced(sb: SuperBlock, s: Store, owner: map<nat, Pos>, d: nat)
    requires Late(sb, s, d)
    ensures Synced(sb, Reloaded(sb, s, owner, d))
  {
    hide Prefix, SlotIndex, SavedInode;
    var t := Reloaded(sb, s, owner, d);
    forall i: nat | i < |t.inodes| ensures SavedAt(sb, t, i) {
      if i != d { assert SavedAt(sb, s, i); }
    }
  }

  lemma LateNodes(sb: SuperBlock, s: Store, owner: map<nat, Pos>, d: nat)
    requires Consistent(sb, s, owner) && Late(sb, s, d) && Sized(sb, s)
    ensures var t := Reloaded(sb, s, owner, d); NodesOf(sb, t) == NodesOf(sb, s) && Sized(sb, t)
  {
    LateRecord(sb, s, owner, d);
    LateContents(sb, s, owner, d);
    hide Consistent, Contents, InodeUsed, Slots, Late, Reloaded;
    var t := Reloaded(sb, s, owner, d);
    forall i: nat | i < |t.inodes| ensures NodeOf(sb, t, i) == NodeOf(sb, s, i) && Used(sb, t, i) == Used(sb, s, i) {}
  }

  /** Loading a late record again restores the whole invariant, with all records on disk. */
  lemma LateWorld(sb: SuperBlock, s: Store, owner: map<nat, Pos>, slots: seq<CacheSlot>, x: nat, owed: int, d: nat)
    requires World(sb, s, owner, slots, x, owed) && Late(sb, s, d)
    ensures Consistent(sb, s, owner)
    ensures var t, owner' := Reloaded(sb, s, owner, d), Reaching(owner, d, OnDisk(sb, s, d).index);
            World(sb, t, owner', slots, x, owed) && Synced(sb, t) && NodesOf(sb, t) == NodesOf(sb, s)
  {
    WorldFacts(sb, s, owner, slots, x, owed);
    HealthyParts(sb, s, owner);
    hide Healthy, Consistent, Linked, NodesOf, Sized, Late, Reloaded, Reaching, Synced, OnDisk;
    LateHealthy(sb, s, owner, d);
    LateSynced(sb, s, owner, d);
    LateNodes(sb, s, owner, d);
  }

  /** After an entry for which there was no room: once the directory has been dropped from the cache and loaded again,
      every record is on disk, every file has its contents, and blocks are lost if the entry had got halfway. */
  method ReloadDirectory(ic: Icache, d: nat, ghost x: nat, ghost owed: int)
    requires ic.Loose(x, owed) && Late(ic.fs.sb, ic.fs.View(), d)
    modifies ic.fs, ic.fs.disk
    ensures ic.Good(x, owed) && NodesOf(ic.fs.sb, ic.fs.View()) == NodesOf(ic.fs.sb, old(ic.fs.View()))
    ensures |ic.fs.inodes| == |old(ic.fs.inodes)|
    ensures forall i: nat :: i < |ic.fs.inodes| ==>
              Contents(ic.fs.sb, ic.fs.View(), i) == Contents(ic.fs.sb, old(ic.fs.View()), i)
    ensures ic.fs.lost - old(ic.fs.lost) == {} <==> old(SavedAt(ic.fs.sb, ic.fs.View(), d))
  {
    hide World, NodesOf, Late, Lags, OnDisk, Contents, Synced, Reaching, Consistent, SavedAt, Unreached;
    ghost var sb, s, owner := ic.fs.sb, ic.fs.View(), ic.fs.owner;
    LateLags(sb, s, d);
    LateWorld(sb, s, owner, ic.slots, x, owed, d);
    LateContents(sb, s, owner, d);
    ghost var reaching := Reaching(owner, d, OnDisk(sb, s, d).index);
    LostOnReload(sb, s, owner, d);
    LostApart(sb, s, owner, d);
    Reload(ic.fs, d);
    WorldOwner(sb, ic.fs.View(), reaching, ic.fs.owner, ic.slots, x, owed);
  }

  lemma LateLags(sb: SuperBlock, s: Store, d: nat)
    requires Late(sb, s, d)
    ensures Lags(sb, s, d) && d < |s.inodes| && sb.inodeFirst + d / PER_BLOCK < |s.blocks|
  {
    hide OnDisk, SyncedBut;
  }

  lemma LostApart(sb: SuperBlock, s: Store, owner: map<nat, Pos>, i: nat)
    requires Consistent(sb, s, owner) && Lags(sb, s, i)
    ensures var t, u := Reloaded(sb, s, owner, i), Unreached(owner, i, OnDisk(sb, s, i).index);
            t.lost == s.lost + u && t.lost - s.lost == u && t.inodes == s.inodes[i := OnDisk(sb, s, i)]
  {
    hide Trees, Owned, InUse, OnDisk;
  }
}
