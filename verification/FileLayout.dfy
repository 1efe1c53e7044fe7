/** Which blocks of a file are present: files written without gaps (fs/inode.c). */
module FileLayout {
  import opened Memory
  import opened BlockDevice
  import opened Bitmap
  import opened RadixForest
  import opened FileTree
  import opened FileData

  /** The nonzero slots come first. */
  predicate Prefix(index: Index) {
    forall a, b :: 0 <= a < b < N_INDEX && index[b] != 0 ==> index[a] != 0
  }

  /** All blocks of the first `hw` bytes are allocated, and the top-level slots in use form a prefix. */
  ghost predicate Covered(sb: SuperBlock, s: Store, ino: nat, hw: nat) {
    && ino < |s.inodes| && Prefix(s.inodes[ino].index)
    && forall m: nat {:trigger BlockOf(sb, s, ino, m)} :: m < MAX_BLOCKS && m * BLOCK_SIZE < hw ==>
        BlockOf(sb, s, ino, m) != 0
  }

  /** The first logical block behind a top-level slot. */
  function FirstBlock(k: nat): nat {
    if k <= 10 then k else if k == 11 then 1034 else 2058
  }

  /** The top-level slot of a logical block. */
  function SlotIndex(n: nat): (k: nat)
    requires n < MAX_BLOCKS
    ensures k < N_INDEX && FirstBlock(k) <= n
  {
    if n < 10 then n else if n < 2058 then 10 + (n - 10) / 1024 else 12
  }

  lemma SlotOf(ino: nat, n: nat)
    requires n < MAX_BLOCKS
    ensures RootSlot(LogicalPos(ino, n)) == SlotIndex(n) && Root(LogicalPos(ino, n)) == ino
  {
    if 2058 <= n {
      var p := Sub(Top(ino, 12), (n - 2058) / 1024);
      assert RootSlot(p) == 12 && Root(p) == ino;
      assert LogicalPos(ino, n) == Sub(p, (n - 2058) % 1024);
    } else if 10 <= n {
      var q := Top(ino, 10 + (n - 10) / 1024);
      assert LogicalPos(ino, n) == Sub(q, (n - 10) % 1024) && RootSlot(q) == 10 + (n - 10) / 1024 && Root(q) == ino;
    }
  }

  /** An allocated block hangs on a nonempty top-level slot. */
  lemma SlotUsed(sb: SuperBlock, s: Store, ino: nat, m: nat)
    requires m < MAX_BLOCKS && ino < |s.inodes| && BlockOf(sb, s, ino, m) != 0
    ensures s.inodes[ino].index[SlotIndex(m)] != 0
  {
    var p := LogicalPos(ino, m);
    SlotOf(ino, m);
    UnderTop(ino, SlotIndex(m), p);
    UnderPtr(Trees(sb, s), Top(ino, SlotIndex(m)), p);
    PtrTop(sb, s, ino, SlotIndex(m));
  }

  /** Allocation in `ino` can fill one slot, that of the block asked for. */
  lemma GrownSlots(sb: SuperBlock, s: Store, t: Store, ino: nat, n: nat, i: nat)
    requires n < MAX_BLOCKS && Grown(sb, s, t, LogicalPos(ino, n)) && i < |s.inodes|
    ensures forall k :: 0 <= k < N_INDEX && !(i == ino && k == SlotIndex(n)) ==>
              t.inodes[i].index[k] == s.inodes[i].index[k]
    ensures forall k :: 0 <= k < N_INDEX && s.inodes[i].index[k] != 0 ==> t.inodes[i].index[k] == s.inodes[i].index[k]
  {
    SlotOf(ino, n);
    hide GrownData, Trees, Words, LogicalPos, SlotIndex;
    var x, y := s.inodes[i].index, t.inodes[i].index;
    forall k: nat | k < N_INDEX
      ensures x[k] != 0 ==> y[k] == x[k]
      ensures !(i == ino && k == SlotIndex(n)) ==> y[k] == x[k]
    {
      PtrTop(sb, s, i, k);
      PtrTop(sb, t, i, k);
      UnderTop(i, k, LogicalPos(ino, n));
    }
  }

  lemma PrefixKept(x: Index, y: Index, k0: nat)
    requires Prefix(x) && k0 < N_INDEX && (k0 > 0 ==> x[k0 - 1] != 0)
    requires forall k :: 0 <= k < N_INDEX && k != k0 ==> y[k] == x[k]
    requires x[k0] != 0 ==> y[k0] == x[k0]
    ensures Prefix(y)
  {}

  /** Allocating at or before the high-water mark keeps the prefix, even when allocation stops halfway. */
  lemma GrownCovered(sb: SuperBlock, s: Store, t: Store, ino: nat, n: nat, hw: nat)
    requires n < MAX_BLOCKS && Grown(sb, s, t, LogicalPos(ino, n)) && Covered(sb, s, ino, hw) && n * BLOCK_SIZE <= hw
    ensures Covered(sb, t, ino, hw)
    ensures BlockOf(sb, t, ino, n) != 0 ==> Covered(sb, t, ino, (n + 1) * BLOCK_SIZE)
  {
    GrownSlots(sb, s, t, ino, n, ino);
    hide GrownData, Trees, Words, Ptr;
    var k0 := SlotIndex(n);
    if k0 > 0 {
      var m := FirstBlock(k0) - 1;
      assert SlotIndex(m) == k0 - 1 && m < n;
      SlotUsed(sb, s, ino, m);
    }
    hide LogicalPos, SlotIndex, FirstBlock, Prefix;
    PrefixKept(s.inodes[ino].index, t.inodes[ino].index, k0);
    forall m: nat | m < MAX_BLOCKS && BlockOf(sb, s, ino, m) != 0 ensures BlockOf(sb, t, ino, m) != 0 {}
  }

  /** Allocating in one file leaves the layout of the others alone. */
  lemma GrownElsewhere(sb: SuperBlock, s: Store, t: Store, ino: nat, n: nat, i: nat, hw: nat)
    requires n < MAX_BLOCKS && Grown(sb, s, t, LogicalPos(ino, n)) && Covered(sb, s, i, hw) && i != ino
    ensures Covered(sb, t, i, hw)
  {
    GrownSlots(sb, s, t, ino, n, i);
    hide GrownData, Trees, Words, Ptr, LogicalPos;
    assert t.inodes[i].index == s.inodes[i].index;
    forall m: nat | m < MAX_BLOCKS && BlockOf(sb, s, i, m) != 0 ensures BlockOf(sb, t, i, m) != 0 {}
  }

  lemma CoveredLess(sb: SuperBlock, s: Store, ino: nat, hw: nat, less: nat)
    requires Covered(sb, s, ino, hw) && less <= hw
    ensures Covered(sb, s, ino, less)
  {
    hide BlockOf, Prefix;
  }

  lemma CoveredSame(sb: SuperBlock, s: Store, t: Store, i: nat, hw: nat)
    requires Covered(sb, s, i, hw) && i < |t.inodes| && t.inodes[i].index == s.inodes[i].index
    requires forall q {:trigger Ptr(Trees(sb, t), q)} :: Ptr(Trees(sb, t), q) == Ptr(Trees(sb, s), q)
    ensures Covered(sb, t, i, hw)
  {
    hide Prefix, LogicalPos, Trees;
    forall m: nat | m < MAX_BLOCKS ensures BlockOf(sb, t, i, m) == BlockOf(sb, s, i, m) {}
  }

  function Max(a: nat, b: nat): nat { if a >= b then a else b }

  ghost predicate OthersSame(was: seq<DiskInode>, now: seq<DiskInode>, ino: nat) {
    |now| == |was| && forall i {:trigger now[i]} :: 0 <= i < |was| && i != ino ==> now[i] == was[i]
  }

  /** Allocation for `ino` changes no other inode record. */
  lemma GrownOthers(sb: SuperBlock, s0: Store, s: Store, t: Store, ino: nat, n: nat)
    requires n < MAX_BLOCKS && Grown(sb, s, t, LogicalPos(ino, n)) && OthersSame(s0.inodes, s.inodes, ino)
    ensures OthersSame(s0.inodes, t.inodes, ino)
  {
    forall i: nat | i < |s.inodes| && i != ino ensures t.inodes[i] == s.inodes[i] {
      GrownSlots(sb, s, t, ino, n, i);
      hide GrownCells, GrownData;
      assert t.inodes[i].index == s.inodes[i].index;
    }
  }

  /** Files other than `ino` that had all their blocks still have them. */
  ghost predicate OthersCovered(sb: SuperBlock, s0: Store, t: Store, ino: nat) {
    && |t.inodes| == |s0.inodes|
    && forall i: nat {:trigger Covered(sb, t, i, s0.inodes[i].size)} ::
         i < |s0.inodes| && i != ino && Covered(sb, s0, i, s0.inodes[i].size) ==> Covered(sb, t, i, s0.inodes[i].size)
  }

  /** File `ino`, if it had all its blocks, has all blocks of its first `hw` bytes. */
  ghost predicate SelfCovered(sb: SuperBlock, s0: Store, t: Store, ino: nat, hw: nat) {
    ino < |s0.inodes| && Covered(sb, s0, ino, s0.inodes[ino].size) ==> Covered(sb, t, ino, hw)
  }

  /** Slots in use keep their block. */
  predicate KeptSlots(was: Index, now: Index) {
    forall k :: 0 <= k < N_INDEX && was[k] != 0 ==> now[k] == was[k]
  }

  /** The state of a write at `offset` into `ino` that has reached `cur`. */
  ghost predicate Writing(sb: SuperBlock, s0: Store, t: Store, ino: nat, offset: nat, cur: nat, src: seq<Byte>) {
    && ino < |s0.inodes|
    && SameButIndex(s0.inodes, t.inodes) && OthersSame(s0.inodes, t.inodes, ino)
    && SameBelow(s0.blocks, t.blocks, sb.dataBitmapFirst)
    && Written(sb, s0, t, ino, offset, cur, src)
    && OthersCovered(sb, s0, t, ino)
    && (offset <= s0.inodes[ino].size ==> SelfCovered(sb, s0, t, ino, Max(s0.inodes[ino].size, cur)))
    && KeptSlots(s0.inodes[ino].index, t.inodes[ino].index)
  }

  lemma WritingStart(sb: SuperBlock, s: Store, ino: nat, offset: nat, src: seq<Byte>)
    requires ino < |s.inodes|
    ensures Writing(sb, s, s, ino, offset, offset, src)
  {
    WrittenNothing(sb, s, ino, offset, src);
    hide Covered, Written;
  }

  /** Looking up (and maybe allocating) the block at `cur`. */
  lemma WritingGrown(sb: SuperBlock, s0: Store, s: Store, t: Store, ino: nat, offset: nat, cur: nat, src: seq<Byte>)
    requires Writing(sb, s0, s, ino, offset, cur, src)
    requires cur / BLOCK_SIZE < MAX_BLOCKS && Grown(sb, s, t, LogicalPos(ino, cur / BLOCK_SIZE))
    ensures Writing(sb, s0, t, ino, offset, cur, src)
    ensures BlockOf(sb, t, ino, cur / BLOCK_SIZE) != 0 && offset <= s0.inodes[ino].size ==>
              SelfCovered(sb, s0, t, ino, Max(s0.inodes[ino].size, (cur / BLOCK_SIZE + 1) * BLOCK_SIZE))
  {
    var n := cur / BLOCK_SIZE;
    AllocKeeps(sb, s0, s, t, ino, offset, cur, src, LogicalPos(ino, n));
    GrownOthers(sb, s0, s, t, ino, n);
    GrownSlots(sb, s, t, ino, n, ino);
    hide GrownCells, GrownData, Covered, Written, BlockOf, LogicalPos, Trees;
    forall i: nat | i < |s0.inodes| && i != ino && Covered(sb, s0, i, s0.inodes[i].size)
      ensures Covered(sb, t, i, s0.inodes[i].size)
    {
      GrownElsewhere(sb, s, t, ino, n, i, s0.inodes[i].size);
    }
    if offset <= s0.inodes[ino].size && Covered(sb, s0, ino, s0.inodes[ino].size) {
      var hw := Max(s0.inodes[ino].size, cur);
      GrownCovered(sb, s, t, ino, n, hw);
      if BlockOf(sb, t, ino, n) != 0 && Max(s0.inodes[ino].size, (n + 1) * BLOCK_SIZE) != (n + 1) * BLOCK_SIZE {
        CoveredLess(sb, t, ino, hw, s0.inodes[ino].size);
      }
    }
  }

  /** Inside a file that has all its blocks the write loop always finds one. */
  lemma WritingStuck(sb: SuperBlock, s0: Store, t: Store, ino: nat, offset: nat, cur: nat, src: seq<Byte>)
    requires Writing(sb, s0, t, ino, offset, cur, src) && cur / BLOCK_SIZE < MAX_BLOCKS
    requires offset <= s0.inodes[ino].size && cur < s0.inodes[ino].size && Covered(sb, s0, ino, s0.inodes[ino].size)
    ensures BlockOf(sb, t, ino, cur / BLOCK_SIZE) != 0
  {
    hide Written, Trees, Ptr, LogicalPos, OthersCovered, Prefix;
    assert Covered(sb, t, ino, Max(s0.inodes[ino].size, cur));
  }

  /** Filling `k` bytes of the block at `cur`. */
  lemma WritingPoked(sb: SuperBlock, s0: Store, s: Store, t: Store, ino: nat, offset: nat, cur: nat, k: nat,
                     src: seq<Byte>)
    requires Writing(sb, s0, s, ino, offset, cur, src)
    requires offset <= s0.inodes[ino].size ==>
               SelfCovered(sb, s0, s, ino, Max(s0.inodes[ino].size, (cur / BLOCK_SIZE + 1) * BLOCK_SIZE))
    requires cur % BLOCK_SIZE + k <= BLOCK_SIZE && t.inodes == s.inodes
    requires SameBelow(s.blocks, t.blocks, sb.dataBitmapFirst)
    requires forall q {:trigger Ptr(Trees(sb, t), q)} :: Ptr(Trees(sb, t), q) == Ptr(Trees(sb, s), q)
    requires Written(sb, s0, t, ino, offset, cur + k, src)
    ensures Writing(sb, s0, t, ino, offset, cur + k, src)
  {
    hide Covered, Written, Trees, Ptr;
    forall i: nat | i < |s0.inodes| && i != ino && Covered(sb, s0, i, s0.inodes[i].size)
      ensures Covered(sb, t, i, s0.inodes[i].size)
    {
      CoveredSame(sb, s, t, i, s0.inodes[i].size);
    }
    if offset <= s0.inodes[ino].size && Covered(sb, s0, ino, s0.inodes[ino].size) {
      var hw := Max(s0.inodes[ino].size, (cur / BLOCK_SIZE + 1) * BLOCK_SIZE);
      CoveredSame(sb, s, t, ino, hw);
      CoveredLess(sb, t, ino, hw, Max(s0.inodes[ino].size, cur + k));
    }
  }

  /** Records after `w` bytes went to `offset` of `ino`: the size is the larger of the two ends. */
  ghost predicate SizesAfter(was: seq<DiskInode>, now: seq<DiskInode>, ino: nat, offset: nat, w: nat)
    requires ino < |was|
  {
    && OthersSame(was, now, ino)
    && now[ino] == was[ino].(index := now[ino].index, size := now[ino].size)
    && now[ino].size == if w > 0 && offset + w > was[ino].size then offset + w else was[ino].size
  }

  /** What a finished write says. */
  ghost predicate Wrote(sb: SuperBlock, s0: Store, t: Store, ino: nat, offset: nat, w: nat, src: seq<Byte>) {
    && ino < |s0.inodes|
    && SizesAfter(s0.inodes, t.inodes, ino, offset, w)
    && SameBelow(s0.blocks, t.blocks, sb.inodeFirst)
    && Written(sb, s0, t, ino, offset, offset + w, src)
    && OthersCovered(sb, s0, t, ino)
    && (offset <= s0.inodes[ino].size ==> SelfCovered(sb, s0, t, ino, t.inodes[ino].size))
    && KeptSlots(s0.inodes[ino].index, t.inodes[ino].index)
  }

  lemma WritingFields(sb: SuperBlock, s0: Store, t: Store, ino: nat, offset: nat, cur: nat, src: seq<Byte>)
    requires Writing(sb, s0, t, ino, offset, cur, src)
    ensures |t.inodes| == |s0.inodes| && t.inodes[ino].size == s0.inodes[ino].size
    ensures SameBelow(s0.blocks, t.blocks, sb.dataBitmapFirst) && OthersSame(s0.inodes, t.inodes, ino)
  {
    hide Written, OthersCovered, SelfCovered;
  }

  lemma WritingKeptSize(sb: SuperBlock, s0: Store, t: Store, ino: nat, offset: nat, cur: nat, src: seq<Byte>)
    requires Writing(sb, s0, t, ino, offset, cur, src) && offset <= cur && sb.inodeFirst <= sb.dataBitmapFirst
    requires !(cur > offset && cur > s0.inodes[ino].size)
    ensures Wrote(sb, s0, t, ino, offset, cur - offset, src)
  {
    hide Written, OthersCovered, Covered;
  }

  /** The size update that ends a write past the old end. */
  lemma WritingResized(sb: SuperBlock, s0: Store, s: Store, t: Store, ino: nat, offset: nat, cur: nat, src: seq<Byte>)
    requires Writing(sb, s0, s, ino, offset, cur, src) && offset < cur && cur > s0.inodes[ino].size
    requires sb.inodeFirst <= sb.dataBitmapFirst
    requires cur <= NONE && t.inodes == s.inodes[ino := s.inodes[ino].(size := cur)]
    requires Trees(sb, t) == Trees(sb, s) && SameBytes(sb, s, t) && SameBelow(s.blocks, t.blocks, sb.inodeFirst)
    ensures Wrote(sb, s0, t, ino, offset, cur - offset, src)
  {
    WrittenKept(sb, s0, s, t, ino, offset, cur, src);
    hide Covered, Written, Trees, Ptr, ByteAt;
    forall i: nat | i < |s0.inodes| && i != ino && Covered(sb, s0, i, s0.inodes[i].size)
      ensures Covered(sb, t, i, s0.inodes[i].size)
    {
      CoveredSame(sb, s, t, i, s0.inodes[i].size);
    }
    if offset <= s0.inodes[ino].size && Covered(sb, s0, ino, s0.inodes[ino].size) {
      CoveredSame(sb, s, t, ino, cur);
    }
  }

  /** What the bytes written say about whole files. */
  lemma WriteMeaning(sb: SuperBlock, s: Store, t: Store, ino: nat, offset: nat, w: nat, src: seq<Byte>)
    requires w <= |src| && Wrote(sb, s, t, ino, offset, w, src)
    ensures ino < |s.inodes| && |t.inodes| == |s.inodes| && SizesAfter(s.inodes, t.inodes, ino, offset, w)
    ensures SameBelow(s.blocks, t.blocks, sb.inodeFirst) && OthersCovered(sb, s, t, ino)
    ensures offset <= s.inodes[ino].size ==> SelfCovered(sb, s, t, ino, t.inodes[ino].size)
    ensures KeptSlots(s.inodes[ino].index, t.inodes[ino].index)
    ensures Contents(sb, t, ino) == Splice(Contents(sb, s, ino), offset, src[..w]) <==>
              w == 0 || GapZero(sb, s, ino, offset)
    ensures ZeroTail(sb, s, ino) ==> ZeroTail(sb, t, ino)
    ensures forall i :: 0 <= i < |s.inodes| && i != ino ==>
              Contents(sb, t, i) == Contents(sb, s, i) && (ZeroTail(sb, s, i) ==> ZeroTail(sb, t, i))
  {
    hide Written, ByteAt, ZeroTail, GapZero, Contents, Splice, OthersCovered, SelfCovered;
    WrittenContents(sb, s, t, ino, offset, w, src);
    forall i | 0 <= i < |s.inodes| && i != ino
      ensures Contents(sb, t, i) == Contents(sb, s, i) && (ZeroTail(sb, s, i) ==> ZeroTail(sb, t, i))
    {
      WrittenOthers(sb, s, t, ino, offset, offset + w, src, i);
    }
  }

  /** The state of a read: no byte of any file has changed, and nothing at all if all blocks are present. */
  ghost predicate Reading(sb: SuperBlock, s0: Store, t: Store, ino: nat) {
    && ino < |s0.inodes|
    && SameButIndex(s0.inodes, t.inodes) && OthersSame(s0.inodes, t.inodes, ino)
    && SameBelow(s0.blocks, t.blocks, sb.dataBitmapFirst)
    && SameBytes(sb, s0, t)
    && OthersCovered(sb, s0, t, ino)
    && KeptSlots(s0.inodes[ino].index, t.inodes[ino].index)
    && (Covered(sb, s0, ino, s0.inodes[ino].size) ==> t == s0)
  }

  lemma ReadingStart(sb: SuperBlock, s: Store, ino: nat)
    requires ino < |s.inodes|
    ensures Reading(sb, s, s, ino)
  {
    hide Covered;
  }

  lemma ReadingGrown(sb: SuperBlock, s0: Store, s: Store, t: Store, ino: nat, n: nat)
    requires Reading(sb, s0, s, ino) && n < MAX_BLOCKS && Grown(sb, s, t, LogicalPos(ino, n))
    requires BlockOf(sb, s, ino, n) != 0 ==> t == s
    requires n * BLOCK_SIZE < s0.inodes[ino].size
    ensures Reading(sb, s0, t, ino)
  {
    AllocInvisible(sb, s0, s, t, LogicalPos(ino, n));
    GrownOthers(sb, s0, s, t, ino, n);
    GrownSlots(sb, s, t, ino, n, ino);
    if Covered(sb, s0, ino, s0.inodes[ino].size) { assert BlockOf(sb, s0, ino, n) != 0; }
    hide GrownCells, GrownData, Covered, SameBytes, BlockOf, LogicalPos, Trees;
    forall i: nat | i < |s0.inodes| && i != ino && Covered(sb, s0, i, s0.inodes[i].size)
      ensures Covered(sb, t, i, s0.inodes[i].size)
    {
      GrownElsewhere(sb, s, t, ino, n, i, s0.inodes[i].size);
    }
  }

  lemma ReadingFacts(sb: SuperBlock, s: Store, t: Store, ino: nat)
    requires Reading(sb, s, t, ino)
    ensures |t.inodes| == |s.inodes| && (Covered(sb, s, ino, s.inodes[ino].size) ==> t == s)
  {}

  /** What a finished read says. */
  lemma ReadMeaning(sb: SuperBlock, s: Store, t: Store, ino: nat, offset: nat, r: nat, dst: seq<Byte>)
    requires Reading(sb, s, t, ino) && |dst| == r
    requires r > 0 ==> offset + r <= s.inodes[ino].size
    requires forall k :: 0 <= k < r ==> dst[k] == ByteAt(sb, s, ino, offset + k)
    ensures r > 0 ==> offset + r <= |Contents(sb, s, ino)| && dst == Contents(sb, s, ino)[offset..offset + r]
    ensures |t.inodes| == |s.inodes| && forall i :: 0 <= i < |s.inodes| ==> Contents(sb, t, i) == Contents(sb, s, i)
  {
    hide ByteAt, SameBytes, OthersCovered, Covered;
    SameContents(sb, s, t);
  }
}
