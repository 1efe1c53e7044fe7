/** File contents as flat byte arrays, and inode records inside the inode blocks (fs/inode.c). */
module FileData {
  import opened Memory
  import opened BlockDevice
  import opened Bitmap
  import opened RadixForest
  import opened FileTree

  /** Nothing but zeros past the end: true of files made by inode_create. */
  ghost predicate ZeroTail(sb: SuperBlock, s: Store, ino: nat) {
    ino < |s.inodes| && forall o {:trigger ByteAt(sb, s, ino, o)} :: s.inodes[ino].size <= o ==>
        ByteAt(sb, s, ino, o) == 0
  }

  /** The bytes between the end of the file and `at`, which a write at `at` makes part of the file, are zero. */
  ghost predicate GapZero(sb: SuperBlock, s: Store, ino: nat, at: nat) {
    ino < |s.inodes| && forall o {:trigger ByteAt(sb, s, ino, o)} :: s.inodes[ino].size <= o < at ==>
        ByteAt(sb, s, ino, o) == 0
  }

  /** `c` with `data` placed at `at`; a gap between the end of `c` and `at` is filled with zeros. */
  function Splice(c: seq<Byte>, at: nat, data: seq<Byte>): seq<Byte> {
    if |data| == 0 then c
    else if at <= |c| then c[..at] + data + (if at + |data| <= |c| then c[at + |data|..] else [])
    else c + Zeros(at - |c|) + data
  }

  /** Rewriting the block of one logical block changes exactly its bytes, in that file only. */
  lemma DataWrite(sb: SuperBlock, s: Store, owner: map<nat, Pos>, ino: nat, n: nat, data: Block)
    requires Consistent(sb, s, owner) && n < MAX_BLOCKS && BlockOf(sb, s, ino, n) != 0
    ensures BlockOf(sb, s, ino, n) < |s.blocks|
    ensures var t := s.(blocks := PutBlock(s.blocks, BlockOf(sb, s, ino, n), data));
            && Consistent(sb, t, owner)
            && (forall q {:trigger Ptr(Trees(sb, t), q)} :: Ptr(Trees(sb, t), q) == Ptr(Trees(sb, s), q))
            && (forall i: nat, o: nat {:trigger ByteAt(sb, t, i, o)} ::
                  ByteAt(sb, t, i, o) == if i == ino && o / BLOCK_SIZE == n then data[o % BLOCK_SIZE]
                      else ByteAt(sb, s, i, o))
  {
    var p := LogicalPos(ino, n);
    var b := BlockOf(sb, s, ino, n);
    LogicalPosLevel(ino, n);
    PtrInUse(sb, s, owner, p);
    hide BitSet, Words, WordAt;
    var t := s.(blocks := PutBlock(s.blocks, b, data));
    TreesPut(sb, s, b, data);
    DataWriteUse(sb, s.blocks, b, data);
    DataWriteOwned(Trees(sb, s), owner, b, Words(data));
    hide Trees, Ptr, Owned, InUse;
    forall i: nat, o: nat
      ensures ByteAt(sb, t, i, o) == if i == ino && o / BLOCK_SIZE == n then data[o % BLOCK_SIZE]
                else ByteAt(sb, s, i, o)
    {
      if o / BLOCK_SIZE < MAX_BLOCKS { DataWriteByte(sb, s, owner, t, p, b, i, o / BLOCK_SIZE, ino, n); }
    }
  }

  lemma DataWriteByte(sb: SuperBlock, s: Store, owner: map<nat, Pos>, t: Store, p: Pos, b: nat, i: nat, m: nat,
                      ino: nat, n: nat)
    requires Consistent(sb, s, owner) && n < MAX_BLOCKS && m < MAX_BLOCKS && b != 0 && b == BlockOf(sb, s, ino, n)
    requires forall q {:trigger Ptr(Trees(sb, t), q)} :: Ptr(Trees(sb, t), q) == Ptr(Trees(sb, s), q)
    ensures BlockOf(sb, t, i, m) == BlockOf(sb, s, i, m)
    ensures BlockOf(sb, s, i, m) == b ==> i == ino && m == n
  {
    hide Trees, Ptr, InUse, LogicalPos;
    if BlockOf(sb, s, i, m) == b {
      assert owner[b] == LogicalPos(ino, n) && owner[b] == LogicalPos(i, m);
      LogicalPosInjective(i, m, ino, n);
    }
  }

  /** The bytes of a splice, one by one. */
  lemma SpliceAt(c: seq<Byte>, at: nat, data: seq<Byte>, i: nat)
    requires |data| > 0 && i < |Splice(c, at, data)|
    ensures |Splice(c, at, data)| == if at + |data| > |c| then at + |data| else |c|
    ensures Splice(c, at, data)[i] == if at <= i < at + |data| then data[i - at] else if i < |c| then c[i] else 0
  {}

  // Inode records

  const RECORD_WORDS := 16
  const PER_BLOCK := 64

  /** The 64 bytes of a disk inode as 16 little-endian words. */
  function Record(i: DiskInode): (w: seq<Word>)
    ensures |w| == RECORD_WORDS
  {
    [i.kind + 0x1_0000 * i.major, i.minor + 0x1_0000 * i.nlink, i.size] + i.index
  }

  function FromRecord(w: seq<nat>): DiskInode
    requires |w| == RECORD_WORDS && forall k :: 0 <= k < RECORD_WORDS ==> w[k] < 0x1_0000_0000
  {
    DiskInode(w[0] % 0x1_0000, w[0] / 0x1_0000, w[1] % 0x1_0000, w[1] / 0x1_0000, w[2], w[3..])
  }

  lemma FromRecordOf(i: DiskInode)
    ensures FromRecord(Record(i)) == i
  {
    assert Record(i)[3..] == i.index;
  }

  /** `((inode_disk_t *)data)[slot]` */
  function Decode(s: Block, slot: nat): DiskInode
    requires slot < PER_BLOCK
  {
    FromRecord(Words(s)[RECORD_WORDS * slot..RECORD_WORDS * (slot + 1)])
  }

  /** Store the words `w` from table entry `k` on. */
  function SetWords(s: Block, k: nat, w: seq<Word>): (t: Block)
    requires k + |w| <= WORDS
    decreases |w|
    ensures Words(t) == Words(s)[..k] + w + Words(s)[k + |w|..]
  {
    if w == [] then s
    else
      var t := SetWord(s, k, w[0]);
      SetWordWords(s, k, w[0]);
      SetWords(t, k + 1, w[1..])
  }

  /** `*((inode_disk_t *)data + slot) = i` */
  function PutRecord(s: Block, slot: nat, i: DiskInode): Block
    requires slot < PER_BLOCK
  {
    SetWords(s, RECORD_WORDS * slot, Record(i))
  }

  /** An inode written to its slot is read back as it was, and no other slot changes. */
  lemma RecordRoundTrip(s: Block, slot: nat, i: DiskInode, other: nat)
    requires slot < PER_BLOCK && other < PER_BLOCK
    ensures Decode(PutRecord(s, slot, i), other) == if other == slot then i else Decode(s, other)
  {
    FromRecordOf(i);
    var t := PutRecord(s, slot, i);
    SliceSplice(Words(s), Words(t), Record(i), slot, other);
    hide WordAt;
  }

  lemma SliceSplice(s: seq<nat>, t: seq<nat>, w: seq<nat>, slot: nat, other: nat)
    requires |s| == WORDS && |w| == RECORD_WORDS && slot < PER_BLOCK && other < PER_BLOCK
    requires t == s[..RECORD_WORDS * slot] + w + s[RECORD_WORDS * slot + RECORD_WORDS..]
    ensures t[RECORD_WORDS * other..RECORD_WORDS * (other + 1)] ==
            if other == slot then w else s[RECORD_WORDS * other..RECORD_WORDS * (other + 1)]
  {
    var b := RECORD_WORDS * other;
    if other != slot {
      assert forall k :: b <= k < b + RECORD_WORDS ==> t[k] == s[k];
    }
  }

  /** The copy of inode `ino` on disk. */
  function SavedInode(sb: SuperBlock, blocks: seq<Block>, ino: nat): DiskInode
    requires sb.inodeFirst + ino / PER_BLOCK < |blocks|
  {
    Decode(blocks[sb.inodeFirst + ino / PER_BLOCK], ino % PER_BLOCK)
  }

  /** Writing an inode back changes its own record and nothing in the data region or its bitmap. */
  lemma SaveInode(sb: SuperBlock, s: Store, owner: map<nat, Pos>, ino: nat)
    requires Consistent(sb, s, owner) && ino < |s.inodes|
    ensures sb.inodeFirst + ino / PER_BLOCK < |s.blocks|
    ensures var t := Saved(sb, s, ino);
            && Consistent(sb, t, owner)
            && Trees(sb, t) == Trees(sb, s)
            && (forall i: nat, o: nat {:trigger ByteAt(sb, t, i, o)} :: ByteAt(sb, t, i, o) == ByteAt(sb, s, i, o))
            && (forall c: nat {:trigger InUse(sb, t.blocks, c)} :: InUse(sb, t.blocks, c) == InUse(sb, s.blocks, c))
  {
    var b := sb.inodeFirst + ino / PER_BLOCK;
    assert ino / PER_BLOCK < sb.inodeBlocks;
    hide PutRecord, BlockBit, Owned, Ptr, LogicalPos, Words;
    MetaWrite(sb, s, owner, b, PutRecord(s.blocks[b], ino % PER_BLOCK, s.inodes[ino]));
  }

  /** A write in front of the data bitmap changes no bit, no cell and no byte. */
  lemma MetaWrite(sb: SuperBlock, s: Store, owner: map<nat, Pos>, b: nat, data: Block)
    requires Consistent(sb, s, owner) && b < sb.dataBitmapFirst
    ensures var t := s.(blocks := PutBlock(s.blocks, b, data));
            && Consistent(sb, t, owner)
            && Trees(sb, t) == Trees(sb, s)
            && (forall i: nat, o: nat {:trigger ByteAt(sb, t, i, o)} :: ByteAt(sb, t, i, o) == ByteAt(sb, s, i, o))
            && (forall c: nat {:trigger InUse(sb, t.blocks, c)} :: InUse(sb, t.blocks, c) == InUse(sb, s.blocks, c))
  {
    var t := s.(blocks := PutBlock(s.blocks, b, data));
    MetaUse(sb, s.blocks, b, data);
    hide InUse, Words, LogicalPos;
    TreesSameData(sb, s, t);
    hide Trees, Ptr, Level;
    forall i: nat, o: nat ensures ByteAt(sb, t, i, o) == ByteAt(sb, s, i, o) {
      if o / BLOCK_SIZE < MAX_BLOCKS { PtrInUse(sb, s, owner, LogicalPos(i, o / BLOCK_SIZE)); }
    }
  }

  lemma MetaUse(sb: SuperBlock, blocks: seq<Block>, b: nat, data: Block)
    requires sb.Layout() && |blocks| == sb.totalBlocks && b < sb.dataBitmapFirst
    ensures forall c: nat {:trigger InUse(sb, PutBlock(blocks, b, data), c)} ::
              InUse(sb, PutBlock(blocks, b, data), c) == InUse(sb, blocks, c)
    ensures forall c: nat :: sb.InData(c) ==> PutBlock(blocks, b, data)[c] == blocks[c]
  {
    hide BlockBit;
  }

  /** inode_rw(ip, true) on the store. */
  function Saved(sb: SuperBlock, s: Store, ino: nat): Store
    requires sb.inodeFirst + ino / PER_BLOCK < |s.blocks| && ino < |s.inodes|
  {
    var b := sb.inodeFirst + ino / PER_BLOCK;
    s.(blocks := PutBlock(s.blocks, b, PutRecord(s.blocks[b], ino % PER_BLOCK, s.inodes[ino])))
  }

  lemma SavedRecords(sb: SuperBlock, s: Store, ino: nat, i: nat)
    requires Shape(sb, s) && ino < |s.inodes| && i < |s.inodes|
    ensures sb.inodeFirst + ino / PER_BLOCK < |s.blocks| && sb.inodeFirst + i / PER_BLOCK < |s.blocks|
    ensures SavedInode(sb, Saved(sb, s, ino).blocks, i) == if i == ino then s.inodes[ino]
              else SavedInode(sb, s.blocks, i)
  {
    hide PutRecord, Decode;
    RecordRoundTrip(s.blocks[sb.inodeFirst + ino / PER_BLOCK], ino % PER_BLOCK, s.inodes[ino], i % PER_BLOCK);
  }

  /** Changing a record but for its index moves no block. */
  lemma Rewrite(sb: SuperBlock, s: Store, owner: map<nat, Pos>, ino: nat, record: DiskInode)
    requires Consistent(sb, s, owner) && ino < |s.inodes| && record.index == s.inodes[ino].index
    ensures var t := s.(inodes := s.inodes[ino := record]);
            && Consistent(sb, t, owner)
            && Trees(sb, t) == Trees(sb, s)
            && (forall i: nat, o: nat {:trigger ByteAt(sb, t, i, o)} :: ByteAt(sb, t, i, o) == ByteAt(sb, s, i, o))
  {
    var t := s.(inodes := s.inodes[ino := record]);
    assert Trees(sb, t).tops == Trees(sb, s).tops;
  }

  /** Every byte of every file is as in `s0`, except bytes [offset, cur) of `ino`: those are `src`. */
  ghost predicate Written(sb: SuperBlock, s0: Store, t: Store, ino: nat, offset: nat, cur: nat, src: seq<Byte>) {
    forall i: nat, o: nat {:trigger ByteAt(sb, t, i, o)} ::
      ByteAt(sb, t, i, o) == if i == ino && offset <= o < cur && o - offset < |src| then src[o - offset]
          else ByteAt(sb, s0, i, o)
  }

  lemma WrittenKept(sb: SuperBlock, s0: Store, s: Store, t: Store, ino: nat, offset: nat, cur: nat, src: seq<Byte>)
    requires Written(sb, s0, s, ino, offset, cur, src)
    requires forall i: nat, o: nat {:trigger ByteAt(sb, t, i, o)} :: ByteAt(sb, t, i, o) == ByteAt(sb, s, i, o)
    ensures Written(sb, s0, t, ino, offset, cur, src)
  {
    hide ByteAt;
  }

  /** One round of the write loop. */
  lemma ChunkWritten(sb: SuperBlock, s0: Store, s: Store, t: Store, ino: nat, offset: nat, cur: nat, k: nat,
                     src: seq<Byte>, was: Block)
    requires Written(sb, s0, s, ino, offset, cur, src)
    requires offset <= cur && cur - offset + k <= |src| && cur % BLOCK_SIZE + k <= BLOCK_SIZE
    requires forall o: nat :: o / BLOCK_SIZE == cur / BLOCK_SIZE ==> ByteAt(sb, s, ino, o) == was[o % BLOCK_SIZE]
    requires forall i: nat, o: nat {:trigger ByteAt(sb, t, i, o)} :: ByteAt(sb, t, i, o) ==
               if i == ino && o / BLOCK_SIZE == cur / BLOCK_SIZE
               then Copy(was, cur % BLOCK_SIZE, src[cur - offset..cur - offset + k])[o % BLOCK_SIZE]
               else ByteAt(sb, s, i, o)
    ensures Written(sb, s0, t, ino, offset, cur + k, src)
  {
    hide ByteAt;
    var at, part := cur % BLOCK_SIZE, src[cur - offset..cur - offset + k];
    forall i: nat, o: nat
      ensures ByteAt(sb, t, i, o) == if i == ino && offset <= o < cur + k && o - offset < |src| then src[o - offset]
                else ByteAt(sb, s0, i, o)
    {
      if i == ino && o / BLOCK_SIZE == cur / BLOCK_SIZE {
        CopyAt(was, at, part, o % BLOCK_SIZE);
        assert o - cur == o % BLOCK_SIZE - at;
      }
    }
  }

  lemma AllocKeeps(sb: SuperBlock, s0: Store, s: Store, t: Store, ino: nat, offset: nat, cur: nat, src: seq<Byte>,
                   p: Pos)
    requires Written(sb, s0, s, ino, offset, cur, src) && Grown(sb, s, t, p)
    ensures Written(sb, s0, t, ino, offset, cur, src)
  {
    forall i: nat, o: nat ensures ByteAt(sb, t, i, o) == ByteAt(sb, s, i, o) { GrownBytes(sb, s, t, p, i, o); }
    WrittenKept(sb, s0, s, t, ino, offset, cur, src);
  }

  lemma WrittenNothing(sb: SuperBlock, s: Store, ino: nat, offset: nat, src: seq<Byte>)
    ensures Written(sb, s, s, ino, offset, offset, src)
  {}

  /** A write of `w` bytes at `offset`, told byte by byte, is a splice of the flat array, unless it leaves a
      gap that holds something else than zeros. */
  lemma WrittenContents(sb: SuperBlock, s: Store, t: Store, ino: nat, offset: nat, w: nat, src: seq<Byte>)
    requires w <= |src| && Written(sb, s, t, ino, offset, offset + w, src) && ino < |s.inodes| && ino < |t.inodes|
    requires t.inodes[ino].size == if w > 0 && offset + w > s.inodes[ino].size then offset + w else s.inodes[ino].size
    ensures Contents(sb, t, ino) == Splice(Contents(sb, s, ino), offset, src[..w]) <==>
              w == 0 || GapZero(sb, s, ino, offset)
    ensures ZeroTail(sb, s, ino) ==> ZeroTail(sb, t, ino)
  {
    hide ByteAt, Splice;
    var c, d, e := Contents(sb, s, ino), Contents(sb, t, ino), Splice(Contents(sb, s, ino), offset, src[..w]);
    SpliceLength(c, offset, src[..w]);
    if w == 0 {
      SpliceNothing(c, offset);
    } else {
      forall k | 0 <= k < |d| ensures d[k] == e[k] <==> (|c| <= k < offset ==> ByteAt(sb, s, ino, k) == 0) {
        SpliceAt(c, offset, src[..w], k);
      }
      if d == e {
        forall o | |c| <= o < offset ensures ByteAt(sb, s, ino, o) == 0 { assert d[o] == e[o]; }
      }
    }
  }

  lemma SpliceLength(c: seq<Byte>, at: nat, data: seq<Byte>)
    ensures |Splice(c, at, data)| == if |data| > 0 && at + |data| > |c| then at + |data| else |c|
  {}

  lemma SpliceNothing(c: seq<Byte>, at: nat)
    ensures Splice(c, at, []) == c
  {}

  /** Every other file keeps its contents. */
  lemma WrittenOthers(sb: SuperBlock, s: Store, t: Store, ino: nat, offset: nat, cur: nat, src: seq<Byte>, i: nat)
    requires Written(sb, s, t, ino, offset, cur, src) && i != ino && i < |s.inodes| && i < |t.inodes|
    requires t.inodes[i].size == s.inodes[i].size
    ensures Contents(sb, t, i) == Contents(sb, s, i)
    ensures ZeroTail(sb, s, i) ==> ZeroTail(sb, t, i)
  {
    hide ByteAt;
  }

  /** A short and an unsigned int as they lie in memory, the low byte first. */
  function TwoBytes(s: Block, b: nat): nat
    requires b + 1 < BLOCK_SIZE
  {
    s[b] + 0x100 * (s[b + 1] as int)
  }

  function FourBytes(s: Block, b: nat): nat
    requires b + 3 < BLOCK_SIZE
  {
    TwoBytes(s, b) + 0x1_0000 * TwoBytes(s, b + 2)
  }

  /** The struct inode_disk as it lies in an inode block: 64 bytes a record, four shorts, the size and 13 words. */
  lemma RecordBytes(s: Block, slot: nat)
    requires slot < PER_BLOCK
    ensures var i, b := Decode(s, slot), 64 * slot;
            && i.kind == TwoBytes(s, b) && i.major == TwoBytes(s, b + 2) && i.minor == TwoBytes(s, b + 4)
            && i.nlink == TwoBytes(s, b + 6) && i.size == FourBytes(s, b + 8)
    ensures forall k :: 0 <= k < N_INDEX ==> Decode(s, slot).index[k] == FourBytes(s, 64 * slot + 12 + 4 * k)
  {
    hide Words, WordAt, TwoBytes;
    var w, b := Words(s)[RECORD_WORDS * slot..RECORD_WORDS * (slot + 1)], 64 * slot;
    WordBytesAt(s, RECORD_WORDS * slot);
    WordBytesAt(s, RECORD_WORDS * slot + 1);
    WordBytesAt(s, RECORD_WORDS * slot + 2);
    HalfWords(s, b);
    HalfWords(s, b + 4);
    forall k | 0 <= k < N_INDEX ensures Decode(s, slot).index[k] == FourBytes(s, b + 12 + 4 * k) {
      WordBytesAt(s, RECORD_WORDS * slot + 3 + k);
      assert w[3 + k] == Words(s)[RECORD_WORDS * slot + 3 + k];
    }
  }

  lemma HalfWords(s: Block, b: nat)
    requires b + 3 < BLOCK_SIZE
    ensures FourBytes(s, b) % 0x1_0000 == TwoBytes(s, b) && FourBytes(s, b) / 0x1_0000 == TwoBytes(s, b + 2)
  {}

  lemma WordBytesAt(s: Block, i: nat)
    requires i < WORDS
    ensures Words(s)[i] == FourBytes(s, 4 * i)
  {}

  /** The record of inode `ino` starts 64 * `ino` bytes into the inode region. */
  lemma RecordPlace(sb: SuperBlock, blocks: seq<Block>, ino: nat)
    requires sb.inodeFirst + ino / PER_BLOCK < |blocks|
    ensures var at := sb.inodeFirst * BLOCK_SIZE + 64 * ino;
            && at / BLOCK_SIZE < |blocks| && at % 64 == 0
            && SavedInode(sb, blocks, ino) == Decode(blocks[at / BLOCK_SIZE], at % BLOCK_SIZE / 64)
  {
    hide Decode;
    PlaceOf(sb.inodeFirst, ino);
  }

  lemma PlaceOf(first: nat, ino: nat)
    ensures var at := first * BLOCK_SIZE + 64 * ino;
            at / BLOCK_SIZE == first + ino / 64 && at % BLOCK_SIZE == 64 * (ino % 64) && at % 64 == 0
  {
    var q, r := ino / 64, ino % 64;
    var at := first * BLOCK_SIZE + 64 * ino;
    assert at == BLOCK_SIZE * (first + q) + 64 * r;
  }

  /** Bytes a read may return: up to the end of the file; none for devices or when offset + len wraps. */
  function Readable(i: DiskInode, offset: nat, len: nat): nat {
    if (i.kind != TYPE_DATA && i.kind != TYPE_DIR) || offset + len > NONE || offset >= i.size then 0
    else if offset + len > i.size then i.size - offset
    else len
  }

  /** A read goes up to the end of the file, or to the end of the range where that comes first; the last clause is how
      the code finds out, in 32 bits. */
  lemma ReadableIs(i: DiskInode, offset: Word, len: Word)
    ensures (i.kind != TYPE_DATA && i.kind != TYPE_DIR) || offset + len > NONE ==> Readable(i, offset, len) == 0
    ensures (i.kind == TYPE_DATA || i.kind == TYPE_DIR) && offset + len <= NONE ==>
              var r := Readable(i, offset, len);
              if offset + len <= i.size then r == len else if offset <= i.size then offset + r == i.size else r == 0
    ensures i.kind == TYPE_DATA || i.kind == TYPE_DIR ==>
              var end := (offset + len) % 0x1_0000_0000;
              var stop := if end > i.size then i.size else end;
              if stop <= offset then Readable(i, offset, len) == 0 else stop == offset + Readable(i, offset, len)
  {}

  ghost predicate SameBytes(sb: SuperBlock, s: Store, t: Store) {
    forall i: nat, o: nat {:trigger ByteAt(sb, t, i, o)} :: ByteAt(sb, t, i, o) == ByteAt(sb, s, i, o)
  }

  lemma AllocInvisible(sb: SuperBlock, s0: Store, s: Store, t: Store, p: Pos)
    requires SameBytes(sb, s0, s) && SameButIndex(s0.inodes, s.inodes) && Grown(sb, s, t, p)
    ensures SameBytes(sb, s0, t) && SameButIndex(s0.inodes, t.inodes)
  {
    forall i: nat, o: nat ensures ByteAt(sb, t, i, o) == ByteAt(sb, s, i, o) { GrownBytes(sb, s, t, p, i, o); }
  }

  lemma SameContents(sb: SuperBlock, s: Store, t: Store)
    requires SameButIndex(s.inodes, t.inodes)
    requires SameBytes(sb, s, t)
    ensures forall i :: 0 <= i < |s.inodes| ==> Contents(sb, t, i) == Contents(sb, s, i)
  {
    hide ByteAt;
    forall i | 0 <= i < |s.inodes| ensures Contents(sb, t, i) == Contents(sb, s, i) {}
  }

  /** One round of the read loop. */
  lemma BytesRead(sb: SuperBlock, s: Store, t: Store, ino: nat, offset: nat, r: nat, k: nat, data: Block,
                  dst: seq<Byte>)
    requires SameBytes(sb, s, t)
    requires forall o: nat :: o / BLOCK_SIZE == (offset + r) / BLOCK_SIZE ==>
               ByteAt(sb, t, ino, o) == data[o % BLOCK_SIZE]
    requires (offset + r) % BLOCK_SIZE + k <= BLOCK_SIZE && r + k <= |dst|
    requires forall x :: r <= x < r + k ==> dst[x] == data[(offset + r) % BLOCK_SIZE + (x - r)]
    ensures forall x :: r <= x < r + k ==> dst[x] == ByteAt(sb, s, ino, offset + x)
  {
    hide ByteAt;
    forall x | r <= x < r + k ensures dst[x] == ByteAt(sb, s, ino, offset + x) {
      var o := offset + x;
      assert o / BLOCK_SIZE == (offset + r) / BLOCK_SIZE && o % BLOCK_SIZE == (offset + r) % BLOCK_SIZE + (x - r);
      assert ByteAt(sb, t, ino, o) == ByteAt(sb, s, ino, o);
    }
  }
}
