/** The block index of inodes as a radix forest, and file contents read through it (fs/inode.c). */
module FileTree {
  import opened Memory
  import opened BlockDevice
  import opened Bitmap
  import opened RadixForest

  const N_INDEX := 13
  /** Blocks one inode can address: 10 direct, 2 * 1024 indirect, 1024 * 1024 double indirect. */
  const MAX_BLOCKS := 10 + 2 * 1024 + 1024 * 1024
  const RANK: seq<nat> := [0, 0, 0, 0, 0, 0, 0, 0, 0, 0, 1, 1, 2]

  type Half = x: int | 0 <= x < 0x1_0000

  const TYPE_DATA := 0
  const TYPE_DIR := 1

  type Index = s: seq<Word> | |s| == N_INDEX witness [0, 0, 0, 0, 0, 0, 0, 0, 0, 0, 0, 0, 0]

  const NO_BLOCKS: Index := [0, 0, 0, 0, 0, 0, 0, 0, 0, 0, 0, 0, 0]

  datatype DiskInode = DiskInode(kind: Half, major: Half, minor: Half, nlink: Half, size: Word, index: Index)

  /** All disk blocks, the current copy of every inode, and the blocks that are lost: their bit is set, but the inode
      that led to them was free and has been made a new file. */
  datatype Store = Store(blocks: seq<Block>, inodes: seq<DiskInode>, lost: set<nat>)

  function IndexOf(i: DiskInode): seq<nat> { i.index }

  function Trees(sb: SuperBlock, s: Store): Forest {
    Forest(map i: nat | i < |s.inodes| :: IndexOf(s.inodes[i]),
           RANK,
           map b: nat | b < |s.blocks| && sb.InData(b) :: Words(s.blocks[b]))
  }

  /** The cell that holds the physical number of logical block `n` of inode `ino`. */
  function LogicalPos(ino: nat, n: nat): Pos
    requires n < MAX_BLOCKS
  {
    if n < 10 then Top(ino, n)
    else if n - 10 < 2 * 1024 then Sub(Top(ino, 10 + (n - 10) / 1024), (n - 10) % 1024)
    else Sub(Sub(Top(ino, 12), (n - 2058) / 1024), (n - 2058) % 1024)
  }

  /** The walks, counted out: ten direct slots, then two tables of 1024 entries, then 1024 tables of 1024 under the
      last slot. */
  lemma LogicalPosCounts(ino: nat, a: nat, b: nat)
    requires a < 1024 && b < 1024
    ensures a < 10 ==> LogicalPos(ino, a) == Top(ino, a)
    ensures a < 2 ==> LogicalPos(ino, 10 + 1024 * a + b) == Sub(Top(ino, 10 + a), b)
    ensures LogicalPos(ino, 10 + 1024 * 2 + 1024 * a + b) == Sub(Sub(Top(ino, 12), a), b)
  {
    assert (1024 * a + b) / 1024 == a && (1024 * a + b) % 1024 == b;
  }

  lemma LogicalPosLevel(ino: nat, n: nat)
    requires n < MAX_BLOCKS
    ensures Level(RANK, LogicalPos(ino, n)) == 0 && Root(LogicalPos(ino, n)) == ino
  {
    if 10 <= n < 2058 {
      assert Level(RANK, Top(ino, 10 + (n - 10) / 1024)) == 1;
    } else if 2058 <= n {
      var p := Sub(Top(ino, 12), (n - 2058) / 1024);
      assert Level(RANK, Top(ino, 12)) == 2;
      assert Level(RANK, p) == 1 && Root(p) == ino;
    }
  }

  lemma LogicalPosInjective(i: nat, m: nat, j: nat, n: nat)
    requires m < MAX_BLOCKS && n < MAX_BLOCKS && LogicalPos(i, m) == LogicalPos(j, n)
    ensures i == j && m == n
  {}

  predicate InUse(sb: SuperBlock, blocks: seq<Block>, b: nat)
    requires sb.Layout() && |blocks| == sb.totalBlocks
  {
    sb.InData(b) && BitSet(blocks, sb.dataBitmapFirst, b - sb.dataFirst)
  }

  ghost predicate Full(sb: SuperBlock, blocks: seq<Block>)
    requires sb.Layout() && |blocks| == sb.totalBlocks
  {
    forall b: nat :: sb.InData(b) ==> InUse(sb, blocks, b)
  }

  ghost predicate Shape(sb: SuperBlock, s: Store) {
    sb.Layout() && |s.blocks| == sb.totalBlocks && |s.inodes| == sb.totalInodes
  }

  /** The set data-bitmap bits are exactly the index and data blocks that some cell points to, and the lost ones;
      every block in a cell is pointed to by that cell only, and is not lost. */
  ghost predicate Consistent(sb: SuperBlock, s: Store, owner: map<nat, Pos>) {
    && Shape(sb, s)
    && Owned(Trees(sb, s), owner)
    && (forall b: nat :: b in owner || b in s.lost <==> InUse(sb, s.blocks, b))
    && owner.Keys !! s.lost
  }

  /** Physical number of a logical block, 0 when there is none. */
  function BlockOf(sb: SuperBlock, s: Store, ino: nat, n: nat): nat
    requires n < MAX_BLOCKS
  {
    Ptr(Trees(sb, s), LogicalPos(ino, n))
  }

  /** Byte `o` of file `ino`; unallocated blocks read as zero. */
  function ByteAt(sb: SuperBlock, s: Store, ino: nat, o: nat): Byte {
    if o / BLOCK_SIZE < MAX_BLOCKS then
      var b := BlockOf(sb, s, ino, o / BLOCK_SIZE);
      if b != 0 && b < |s.blocks| then s.blocks[b][o % BLOCK_SIZE] else 0
    else 0
  }

  /** The flat byte array a file stands for. */
  function Contents(sb: SuperBlock, s: Store, ino: nat): (c: seq<Byte>)
    requires ino < |s.inodes|
    ensures |c| == s.inodes[ino].size
  {
    seq(s.inodes[ino].size, o requires 0 <= o => ByteAt(sb, s, ino, o))
  }

  /** Old walks lead to the same blocks, and every new block hangs on the walk to `p`. */
  ghost predicate GrownCells(f: Forest, g: Forest, p: Pos) {
    && (forall q {:trigger Ptr(g, q)} {:trigger Ptr(f, q)} :: Ptr(f, q) != 0 ==> Ptr(g, q) == Ptr(f, q))
    && (forall q {:trigger Ptr(g, q)} :: Ptr(f, q) == 0 && Ptr(g, q) != 0 ==> Under(q, p))
  }

  /** Old data blocks are untouched and new data blocks hold zeros. */
  ghost predicate GrownData(f: Forest, g: Forest, was: seq<Block>, now: seq<Block>) {
    && |now| == |was|
    && (forall q {:trigger Ptr(g, q)} :: Level(RANK, q) == 0 && 0 < Ptr(g, q) < |now| ==>
          now[Ptr(g, q)] == if Ptr(f, q) != 0 then was[Ptr(g, q)] else ZeroBlock())
  }

  ghost predicate SameButIndex(was: seq<DiskInode>, now: seq<DiskInode>) {
    && |now| == |was|
    && forall i {:trigger now[i]} :: 0 <= i < |was| ==> now[i] == was[i].(index := now[i].index)
  }

  /** The first `n` blocks are untouched. */
  ghost predicate SameBelow(was: seq<Block>, now: seq<Block>, n: nat) {
    |now| == |was| && forall b {:trigger now[b]} :: 0 <= b < n && b < |was| ==> now[b] == was[b]
  }

  /** What adding blocks on the walk to `p` may change. */
  ghost predicate Grown(sb: SuperBlock, s: Store, t: Store, p: Pos) {
    && t.lost == s.lost
    && SameBelow(s.blocks, t.blocks, sb.dataBitmapFirst)
    && SameButIndex(s.inodes, t.inodes)
    && GrownCells(Trees(sb, s), Trees(sb, t), p)
    && GrownData(Trees(sb, s), Trees(sb, t), s.blocks, t.blocks)
  }

  lemma GrownRefl(sb: SuperBlock, s: Store, p: Pos)
    ensures Grown(sb, s, s, p)
  {}

  lemma GrownTrans(sb: SuperBlock, s: Store, t: Store, u: Store, p: Pos)
    requires Grown(sb, s, t, p) && Grown(sb, t, u, p)
    ensures Grown(sb, s, u, p)
  {
  }

  lemma GrownWiden(sb: SuperBlock, s: Store, t: Store, p: Pos, q: Pos)
    requires Grown(sb, s, t, p) && Under(p, q)
    ensures Grown(sb, s, t, q)
  {
    forall r | Ptr(Trees(sb, s), r) == 0 && Ptr(Trees(sb, t), r) != 0 ensures Under(r, q) { UnderTrans(r, p, q); }
  }

  /** Allocation is invisible in the contents of every file. */
  lemma GrownBytes(sb: SuperBlock, s: Store, t: Store, p: Pos, ino: nat, o: nat)
    requires Grown(sb, s, t, p)
    ensures ByteAt(sb, t, ino, o) == ByteAt(sb, s, ino, o)
  {
    if o / BLOCK_SIZE < MAX_BLOCKS { LogicalPosLevel(ino, o / BLOCK_SIZE); }
  }

  // How the forest changes with the store

  lemma TreesPut(sb: SuperBlock, s: Store, b: nat, data: Block)
    requires b < |s.blocks| && sb.InData(b)
    ensures var f := Trees(sb, s);
            Trees(sb, s.(blocks := PutBlock(s.blocks, b, data))) == f.(kids := f.kids[b := Words(data)])
  {}

  lemma TreesSameData(sb: SuperBlock, s: Store, t: Store)
    requires s.inodes == t.inodes && |s.blocks| == |t.blocks|
    requires forall b: nat :: b < |s.blocks| && sb.InData(b) ==> t.blocks[b] == s.blocks[b]
    ensures Trees(sb, t) == Trees(sb, s)
  {}

  lemma TreesIndex(sb: SuperBlock, s: Store, ino: nat, k: nat, v: Word)
    requires ino < |s.inodes| && k < N_INDEX
    ensures var i := s.inodes[ino];
            Trees(sb, s.(inodes := s.inodes[ino := i.(index := i.index[k := v])])) ==
                SetPtr(Trees(sb, s), Top(ino, k), v)
  {
    var i := s.inodes[ino];
    var t := s.(inodes := s.inodes[ino := i.(index := i.index[k := v])]);
    var g := SetPtr(Trees(sb, s), Top(ino, k), v);
    assert forall j :: j in Trees(sb, t).tops <==> j in g.tops;
    assert Trees(sb, t).tops == g.tops;
  }

  lemma OneBitUse(sb: SuperBlock, was: seq<Block>, now: seq<Block>, b: nat, on: bool)
    requires sb.Layout() && |was| == sb.totalBlocks && sb.InData(b)
    requires OneBit(was, now, sb.dataBitmapFirst, sb.dataBitmapBlocks, b - sb.dataFirst, on)
    ensures forall c: nat {:trigger InUse(sb, now, c)} :: InUse(sb, now, c) == if c == b then on else InUse(sb, was, c)
    ensures forall c: nat :: sb.InData(c) ==> now[c] == was[c]
  {
    forall c: nat ensures InUse(sb, now, c) == if c == b then on else InUse(sb, was, c) {
      if sb.InData(c) {
        assert BitSet(now, sb.dataBitmapFirst, c - sb.dataFirst) == if c == b then on
            else BitSet(was, sb.dataBitmapFirst, c - sb.dataFirst);
      }
    }
  }

  lemma DataWriteUse(sb: SuperBlock, blocks: seq<Block>, w: nat, data: Block)
    requires sb.Layout() && |blocks| == sb.totalBlocks && sb.InData(w)
    ensures forall c: nat {:trigger InUse(sb, PutBlock(blocks, w, data), c)} ::
              InUse(sb, PutBlock(blocks, w, data), c) == InUse(sb, blocks, c)
  {}

  lemma PtrTop(sb: SuperBlock, s: Store, ino: nat, k: nat)
    requires ino < |s.inodes| && k < N_INDEX
    ensures Cell(Trees(sb, s), Top(ino, k)) && Ptr(Trees(sb, s), Top(ino, k)) == s.inodes[ino].index[k]
    ensures Level(RANK, Top(ino, k)) == if k < 10 then 0 else if k < 12 then 1 else 2
  {}

  lemma PtrEntry(sb: SuperBlock, s: Store, owner: map<nat, Pos>, up: Pos, j: nat)
    requires Consistent(sb, s, owner) && Ptr(Trees(sb, s), up) != 0 && Level(RANK, up) > 0 && j < WORDS
    ensures var tb := Ptr(Trees(sb, s), up);
            tb in owner && owner[tb] == up && sb.InData(tb) && tb < |s.blocks| && InUse(sb, s.blocks, tb) &&
                Cell(Trees(sb, s), Sub(up, j)) &&
            Ptr(Trees(sb, s), Sub(up, j)) == WordAt(s.blocks[tb], j)
  {
    var tb := Ptr(Trees(sb, s), up);
    assert tb in owner;
    assert InUse(sb, s.blocks, tb);
  }

  /** What the forest gains when block `b` is marked in the bitmap, zeroed and hung on cell `p`. */
  lemma AttachConsistent(sb: SuperBlock, s: Store, owner: map<nat, Pos>, t: Store, p: Pos, b: nat)
    requires Consistent(sb, s, owner) && Shape(sb, t) && t.lost == s.lost
    requires Cell(Trees(sb, s), p) && Ptr(Trees(sb, s), p) == 0 && b != 0 && !InUse(sb, s.blocks, b)
    requires Trees(sb, t) == Attach(Trees(sb, s), p, b, Words(ZeroBlock()))
    requires forall c: nat {:trigger InUse(sb, t.blocks, c)} ::
               InUse(sb, t.blocks, c) == if c == b then true else InUse(sb, s.blocks, c)
    ensures Consistent(sb, t, owner[b := p])
    ensures forall q :: Ptr(Trees(sb, t), q) == if q == p then b else Ptr(Trees(sb, s), q)
  {
    ZeroWords();
    hide InUse, Trees, Words, Attach, Owned, Ptr, Cell;
    AttachOwned(Trees(sb, s), owner, p, b, Words(ZeroBlock()));
  }

  lemma AttachGrown(f: Forest, owner: map<nat, Pos>, g: Forest, was: seq<Block>, now: seq<Block>, p: Pos, b: nat,
                    table: nat)
    requires Owned(f, owner) && |now| == |was| && b < |was| && b !in owner
    requires forall q {:trigger Ptr(g, q)} :: Ptr(g, q) == if q == p then b else Ptr(f, q)
    requires Ptr(f, p) == 0 && now[b] == ZeroBlock()
    requires forall c: nat :: c in owner && c < |was| && c != table ==> now[c] == was[c]
    requires table in owner ==> Level(RANK, owner[table]) > 0
    ensures GrownCells(f, g, p) && GrownData(f, g, was, now)
  {}

  /** After bitmap_alloc_block, filling a top-level slot keeps the store consistent. */
  lemma AttachTop(sb: SuperBlock, s: Store, owner: map<nat, Pos>, marked: seq<Block>, b: Word, ino: nat, k: nat)
    requires Consistent(sb, s, owner) && ino < |s.inodes| && k < N_INDEX && s.inodes[ino].index[k] == 0
    requires sb.InData(b) && !InUse(sb, s.blocks, b)
    requires OneBit(s.blocks, marked, sb.dataBitmapFirst, sb.dataBitmapBlocks, b - sb.dataFirst, true)
    ensures var i := s.inodes[ino];
            var t := Store(PutBlock(marked, b, ZeroBlock()), s.inodes[ino := i.(index := i.index[k := b])],
                           s.lost);
            && Consistent(sb, t, owner[b := Top(ino, k)])
            && Grown(sb, s, t, Top(ino, k))
            && Ptr(Trees(sb, t), Top(ino, k)) == b
  {
    assert |marked| == |s.blocks|;
    assert Trees(sb, s).rank == RANK;
    hide BitSet, OneBit, Words, WordAt, Owned, GrownCells, GrownData;
    PtrTop(sb, s, ino, k);
    var i := s.inodes[ino];
    var t := Store(PutBlock(marked, b, ZeroBlock()), s.inodes[ino := i.(index := i.index[k := b])], s.lost);
    OneBitUse(sb, s.blocks, marked, b, true);
    DataWriteUse(sb, marked, b, ZeroBlock());
    assert SameBelow(s.blocks, t.blocks, sb.dataBitmapFirst);
    assert Trees(sb, t) == Attach(Trees(sb, s), Top(ino, k), b, Words(ZeroBlock())) by {
      var s1 := s.(blocks := marked);
      TreesSameData(sb, s, s1);
      TreesIndex(sb, s1, ino, k, b);
      TreesPut(sb, t.(blocks := marked), b, ZeroBlock());
    }
    AttachConsistent(sb, s, owner, t, Top(ino, k), b);
    AttachGrown(Trees(sb, s), owner, Trees(sb, t), s.blocks, t.blocks, Top(ino, k), b, b);
  }

  lemma ReadyToFill(sb: SuperBlock, s: Store, owner: map<nat, Pos>, up: Pos, j: nat)
    requires Consistent(sb, s, owner) && Ptr(Trees(sb, s), up) != 0 && Level(RANK, up) > 0 && j < WORDS
    ensures Shape(sb, s) && Ptr(Trees(sb, s), up) < |s.blocks|
    ensures Ptr(Trees(sb, s), Sub(up, j)) == WordAt(s.blocks[Ptr(Trees(sb, s), up)], j)
    ensures forall b: nat {:trigger b in owner} {:trigger InUse(sb, s.blocks, b)} ::
              (b in owner ==> InUse(sb, s.blocks, b)) && (b in owner ==> sb.InData(b))
  {
    PtrEntry(sb, s, owner, up, j);
  }

  /** The table block `tb` points to the new block `b` from entry `j`, and `b` is zeroed. */
  function EntryStore(s: Store, marked: seq<Block>, tb: nat, j: nat, b: Word): Store
    requires tb < |marked| && b < |marked| && j < WORDS
  {
    s.(blocks := PutBlock(PutBlock(marked, tb, SetWord(marked[tb], j, b)), b, ZeroBlock()))
  }

  lemma TreesAttachEntry(sb: SuperBlock, s: Store, marked: seq<Block>, b: Word, up: Pos, j: nat)
    requires |marked| == |s.blocks| && sb.InData(b) && b < |marked|
    requires forall c: nat :: c < |marked| && sb.InData(c) ==> marked[c] == s.blocks[c]
    requires Cell(Trees(sb, s), Sub(up, j)) && Ptr(Trees(sb, s), up) != b
    ensures var tb := Ptr(Trees(sb, s), up);
            var t := EntryStore(s, marked, tb, j, b);
            Trees(sb, t) == Attach(Trees(sb, s), Sub(up, j), b, Words(ZeroBlock()))
  {
    var tb := Ptr(Trees(sb, s), up);
    var table := SetWord(marked[tb], j, b);
    var s1 := s.(blocks := marked);
    TreesSameData(sb, s, s1);
    TreesPut(sb, s1, tb, table);
    SetWordWords(marked[tb], j, b);
    TreesPut(sb, s1.(blocks := PutBlock(marked, tb, table)), b, ZeroBlock());
  }

  lemma EntryUse(sb: SuperBlock, was: seq<Block>, marked: seq<Block>, b: nat, tb: nat, table: Block)
    requires sb.Layout() && |was| == sb.totalBlocks && sb.InData(b) && sb.InData(tb) && tb != b
    requires OneBit(was, marked, sb.dataBitmapFirst, sb.dataBitmapBlocks, b - sb.dataFirst, true)
    ensures |marked| == |was| && forall c: nat :: sb.InData(c) ==> marked[c] == was[c]
    ensures var now := PutBlock(PutBlock(marked, tb, table), b, ZeroBlock());
            && (forall c: nat {:trigger InUse(sb, now, c)} ::
                InUse(sb, now, c) == if c == b then true else InUse(sb, was, c))
            && SameBelow(was, now, sb.dataBitmapFirst) && now[b] == ZeroBlock()
            && (forall c: nat :: sb.InData(c) && c != b && c != tb ==> now[c] == was[c])
  {
    OneBitUse(sb, was, marked, b, true);
    DataWriteUse(sb, marked, tb, table);
    DataWriteUse(sb, PutBlock(marked, tb, table), b, ZeroBlock());
  }

  /** After bitmap_alloc_block, filling an entry of an index block keeps the store consistent. */
  lemma AttachEntry(sb: SuperBlock, s: Store, owner: map<nat, Pos>, marked: seq<Block>, b: Word, up: Pos, j: nat)
    requires Consistent(sb, s, owner)
    requires Ptr(Trees(sb, s), up) != 0 && Level(RANK, up) > 0 && j < WORDS
    requires Ptr(Trees(sb, s), Sub(up, j)) == 0
    requires sb.InData(b) && !InUse(sb, s.blocks, b)
    requires OneBit(s.blocks, marked, sb.dataBitmapFirst, sb.dataBitmapBlocks, b - sb.dataFirst, true)
    ensures var tb := Ptr(Trees(sb, s), up);
            tb < |marked| && sb.InData(tb) && tb != b && marked[tb] == s.blocks[tb] &&
            var t := EntryStore(s, marked, tb, j, b);
            && Consistent(sb, t, owner[b := Sub(up, j)])
            && Grown(sb, s, t, Sub(up, j))
            && Ptr(Trees(sb, t), Sub(up, j)) == b
  {
    ReadyToFill(sb, s, owner, up, j);
    var tb := Ptr(Trees(sb, s), up);
    assert |marked| == |s.blocks|;
    hide *;
    EntryStep(sb, s, owner, marked, b, up, tb, j);
  }

  lemma EntryStep(sb: SuperBlock, s: Store, owner: map<nat, Pos>, marked: seq<Block>, b: Word, up: Pos, tb: nat, j: nat)
    requires Consistent(sb, s, owner) && j < WORDS && Level(RANK, up) > 0
    requires tb == Ptr(Trees(sb, s), up) && tb != 0 && Ptr(Trees(sb, s), Sub(up, j)) == 0
    requires sb.InData(b) && !InUse(sb, s.blocks, b) && InUse(sb, s.blocks, tb) && tb != b
    requires OneBit(s.blocks, marked, sb.dataBitmapFirst, sb.dataBitmapBlocks, b - sb.dataFirst, true)
    ensures tb < |marked| && b < |marked| && marked[tb] == s.blocks[tb]
    ensures Consistent(sb, EntryStore(s, marked, tb, j, b), owner[b := Sub(up, j)])
    ensures Ptr(Trees(sb, EntryStore(s, marked, tb, j, b)), Sub(up, j)) == b
    ensures Grown(sb, s, EntryStore(s, marked, tb, j, b), Sub(up, j))
  {
    OneBitLength(sb, s.blocks, marked, b);
    hide *;
    EntryConsistent(sb, s, owner, marked, b, up, tb, j);
    EntryGrown(sb, s, owner, marked, b, up, tb, j);
  }

  lemma OneBitLength(sb: SuperBlock, was: seq<Block>, marked: seq<Block>, b: nat)
    requires sb.Layout() && |was| == sb.totalBlocks && sb.InData(b)
    requires OneBit(was, marked, sb.dataBitmapFirst, sb.dataBitmapBlocks, b - sb.dataFirst, true)
    ensures |marked| == |was| && forall c: nat :: sb.InData(c) ==> c < |was| && marked[c] == was[c]
  {
    hide BitSet;
  }

  lemma EntryConsistent(sb: SuperBlock, s: Store, owner: map<nat, Pos>, marked: seq<Block>, b: Word, up: Pos, tb: nat,
                        j: nat)
    requires Consistent(sb, s, owner) && j < WORDS && Level(RANK, up) > 0
    requires tb == Ptr(Trees(sb, s), up) && tb != 0 && Ptr(Trees(sb, s), Sub(up, j)) == 0
    requires sb.InData(b) && !InUse(sb, s.blocks, b) && InUse(sb, s.blocks, tb) && tb != b
    requires OneBit(s.blocks, marked, sb.dataBitmapFirst, sb.dataBitmapBlocks, b - sb.dataFirst, true)
    ensures tb < |marked| && b < |marked|
    ensures var t := EntryStore(s, marked, tb, j, b);
            && Consistent(sb, t, owner[b := Sub(up, j)])
            && forall q {:trigger Ptr(Trees(sb, t), q)} ::
                Ptr(Trees(sb, t), q) == if q == Sub(up, j) then b else Ptr(Trees(sb, s), q)
  {
    EntryUse(sb, s.blocks, marked, b, tb, SetWord(marked[tb], j, b));
    PtrEntry(sb, s, owner, up, j);
    hide BitSet, OneBit, Words, SetWord, WordAt, Cell, InUse, Trees, Attach, Ptr, Owned;
    TreesAttachEntry(sb, s, marked, b, up, j);
    AttachConsistent(sb, s, owner, EntryStore(s, marked, tb, j, b), Sub(up, j), b);
  }

  lemma EntryGrown(sb: SuperBlock, s: Store, owner: map<nat, Pos>, marked: seq<Block>, b: Word, up: Pos, tb: nat,
                   j: nat)
    requires Consistent(sb, s, owner) && j < WORDS && Level(RANK, up) > 0
    requires tb == Ptr(Trees(sb, s), up) && tb != 0 && Ptr(Trees(sb, s), Sub(up, j)) == 0
    requires sb.InData(b) && !InUse(sb, s.blocks, b) && InUse(sb, s.blocks, tb) && tb != b
    requires OneBit(s.blocks, marked, sb.dataBitmapFirst, sb.dataBitmapBlocks, b - sb.dataFirst, true)
    requires tb < |marked| && b < |marked|
    requires var t := EntryStore(s, marked, tb, j, b);
             forall q {:trigger Ptr(Trees(sb, t), q)} ::
                 Ptr(Trees(sb, t), q) == if q == Sub(up, j) then b else Ptr(Trees(sb, s), q)
    ensures Grown(sb, s, EntryStore(s, marked, tb, j, b), Sub(up, j))
  {
    EntryUse(sb, s.blocks, marked, b, tb, SetWord(marked[tb], j, b));
    PtrEntry(sb, s, owner, up, j);
    ReadyToFill(sb, s, owner, up, j);
    hide BitSet, OneBit, SetWord, InUse, Trees, Ptr, Owned, GrownCells, GrownData;
    var t := EntryStore(s, marked, tb, j, b);
    AttachGrown(Trees(sb, s), owner, Trees(sb, t), s.blocks, t.blocks, Sub(up, j), b, tb);
  }

  lemma PtrInUse(sb: SuperBlock, s: Store, owner: map<nat, Pos>, p: Pos)
    requires Consistent(sb, s, owner)
    ensures var b := Ptr(Trees(sb, s), p);
            b != 0 ==>
                  b in owner && owner[b] == p && sb.InData(b) && b < |s.blocks| && b < NONE && InUse(sb, s.blocks, b)
  {
    var b := Ptr(Trees(sb, s), p);
    if b != 0 {
      assert b in owner;
      assert InUse(sb, s.blocks, b);
    }
  }

  lemma PtrBelowEmpty(f: Forest, up: Pos, j: nat)
    requires Ptr(f, up) == 0
    ensures Ptr(f, Sub(up, j)) == 0
  {}

  lemma HeldInData(sb: SuperBlock, s: Store, owner: map<nat, Pos>, held: set<nat>)
    requires Consistent(sb, s, owner) && forall h :: h in held ==> h in owner
    ensures forall h :: h in held ==> sb.InData(h)
  {
    forall h | h in held ensures sb.InData(h) { assert InUse(sb, s.blocks, h); }
  }

  lemma ShapeOf(sb: SuperBlock, s: Store, owner: map<nat, Pos>)
    requires Consistent(sb, s, owner)
    ensures Shape(sb, s) && sb.Layout()
  {}

  lemma PtrAbove(f: Forest, up: Pos, j: nat)
    ensures Ptr(f, Sub(up, j)) != 0 ==> Ptr(f, up) != 0
  {}

  lemma RankOf(ino: nat, k: nat, j: nat)
    requires 10 <= k < N_INDEX
    ensures Level(RANK, Top(ino, k)) == k / 12 + 1 && Level(RANK, Sub(Top(ino, k), j)) == k / 12
  {}

  lemma GrownKeeps(sb: SuperBlock, s: Store, t: Store, p: Pos, q: Pos)
    requires Grown(sb, s, t, p) && Ptr(Trees(sb, s), q) != 0
    ensures Ptr(Trees(sb, t), q) == Ptr(Trees(sb, s), q)
  {}

  lemma GrownStep(sb: SuperBlock, s: Store, t: Store, u: Store, q: Pos, p: Pos)
    requires Grown(sb, s, t, p) && Grown(sb, t, u, q) && Under(q, p)
    ensures Grown(sb, s, u, p)
  {
    GrownWiden(sb, t, u, q, p);
    GrownTrans(sb, s, t, u, p);
  }
}
