/** A small disk image: a full data region, a file whose last block holds other than zeros behind its end, as those that
    mkfs makes do, and an empty subdirectory without entries of its own.  It witnesses that the invariant of the file
    system can hold, and it is the input on which linking and creating go wrong. */
module Image {
  import opened Memory
  import opened BlockDevice
  import opened Bitmap
  import opened RadixForest
  import opened FileTree
  import opened FileData
  import opened FileLayout
  import opened FileFree
  import opened FileHealth
  import opened FileSync
  import opened FileSpace
  import opened Dirent
  import opened Dentry
  import opened LinkGraph
  import opened InodeCache
  import opened PathName
  import opened Path
  import opened Naming

  const LAYOUT := SuperBlock(6, 4, 1, 1, 2, 1, 3, 1, 4, 2)

  /** "f", the file, and "d", the empty directory. */
  const F: seq<Byte> := [102]
  const D: seq<Byte> := [100]

  function NameBuffer(n: seq<Byte>): (b: seq<Byte>)
    requires |n| < NAME_LEN
    ensures |b| == NAME_LEN
  {
    n + Zeros(NAME_LEN - |n|)
  }

  /** A bitmap block with its first `n` bits set. */
  function Marked(n: nat): Block
    requires n <= BITS
  {
    if n == 0 then ZeroBlock() else PutBlockBit(Marked(n - 1), n - 1, true)
  }

  const ROOT_INDEX: Index := [4, 0, 0, 0, 0, 0, 0, 0, 0, 0, 0, 0, 0]
  const FILE_INDEX: Index := [5, 0, 0, 0, 0, 0, 0, 0, 0, 0, 0, 0, 0]

  const RECORDS: seq<DiskInode> := [
    DiskInode(TYPE_DIR, 1, 1, 1, 2 * ENTRY, ROOT_INDEX),
    DiskInode(TYPE_DATA, 1, 1, 1, 1, FILE_INDEX),
    DiskInode(TYPE_DIR, 1, 1, 1, 0, NO_BLOCKS),
    DiskInode(TYPE_DATA, 0, 0, 0, 0, NO_BLOCKS)]

  function RecordBlock(n: nat): Block
    requires n <= 4
  {
    if n == 0 then ZeroBlock() else PutRecord(RecordBlock(n - 1), n - 1, RECORDS[n - 1])
  }

  function RootData(): Block { Copy(ZeroBlock(), 0, Encode(NameBuffer(F), 1) + Encode(NameBuffer(D), 2)) }

  /** The image; `data` is the one block of file "f", which is one byte long. */
  function Stored(data: Block): Store {
    Store([ZeroBlock(), Marked(3), RecordBlock(4), Marked(2), RootData(), data], RECORDS, {})
  }

  const OWNER: map<nat, Pos> := map[4 := Top(0, 0), 5 := Top(1, 0)]

  const NODES: seq<Node> := [
    Node(true, TYPE_DIR, 1, [Slot(F, 1), Slot(D, 2)]),
    Node(true, TYPE_DATA, 1, []),
    Node(true, TYPE_DIR, 1, []),
    Node(false, TYPE_DATA, 0, [])]

  lemma {:induction false} NoBit(k: nat)
    ensures !Bit(0, k)
  {
    if k > 0 { NoBit(k - 1); }
  }

  lemma {:induction false} MarkedBits(n: nat, m: nat)
    requires n <= BITS && m < BITS
    ensures BlockBit(Marked(n), m) == (m < n)
  {
    hide PutBlockBit;
    if n == 0 {
      NoBit(m % 8);
    } else {
      hide BlockBit;
      PutBlockBitAt(Marked(n - 1), n - 1, true, m);
      MarkedBits(n - 1, m);
    }
  }

  lemma Bits(data: Block)
    ensures LAYOUT.Layout() && |Stored(data).blocks| == LAYOUT.totalBlocks
    ensures forall b: nat :: InUse(LAYOUT, Stored(data).blocks, b) <==> 4 <= b < 6
    ensures forall i: nat :: InodeUsed(LAYOUT, Stored(data).blocks, i) <==> i < 3
  {
    hide BlockBit, Marked, RecordBlock, RootData;
    forall i: nat | i < 4 ensures BlockBit(Marked(3), i) == (i < 3) && BlockBit(Marked(2), i) == (i < 2) {
      MarkedBits(3, i);
      MarkedBits(2, i);
    }
  }

  lemma {:induction false} Cells(data: Block, p: Pos)
    ensures Ptr(Trees(LAYOUT, Stored(data)), p) == if p == Top(0, 0) then 4 else if p == Top(1, 0) then 5 else 0
  {
    hide Words, Marked, RecordBlock, RootData;
    match p
    case Top(w, k) =>
      if w < 4 { assert Trees(LAYOUT, Stored(data)).tops[w] == RECORDS[w].index; }
    case Sub(up, j) =>
      Cells(data, up);
  }

  lemma AllCells(data: Block)
    ensures forall p {:trigger Ptr(Trees(LAYOUT, Stored(data)), p)} ::
              Ptr(Trees(LAYOUT, Stored(data)), p) == if p == Top(0, 0) then 4 else if p == Top(1, 0) then 5 else 0
  {
    hide Trees, Ptr;
    forall p
      ensures Ptr(Trees(LAYOUT, Stored(data)), p) == if p == Top(0, 0) then 4 else if p == Top(1, 0) then 5 else 0
    {
      Cells(data, p);
    }
  }

  lemma ImageConsistent(data: Block)
    ensures Consistent(LAYOUT, Stored(data), OWNER)
  {
    hide Trees, Ptr, InUse, InodeUsed, Marked, RecordBlock, RootData;
    Bits(data);
    AllCells(data);
    assert Owned(Trees(LAYOUT, Stored(data)), OWNER);
  }

  lemma ImageCovered(data: Block, i: nat)
    requires i < 4
    ensures Covered(LAYOUT, Stored(data), i, RECORDS[i].size)
  {
    hide Trees, Ptr, LogicalPos, Marked, RecordBlock, RootData;
    FirstCell(data, i);
  }

  lemma FirstCell(data: Block, i: nat)
    requires i < 4
    ensures BlockOf(LAYOUT, Stored(data), i, 0) == if i == 0 then 4 else if i == 1 then 5 else 0
  {
    Cells(data, Top(i, 0));
    hide Trees, Ptr;
  }

  lemma ImageHealthy(data: Block)
    ensures Healthy(LAYOUT, Stored(data), OWNER)
  {
    hide Consistent, Covered, Marked, RecordBlock, RootData;
    ImageConsistent(data);
    forall i: nat | i < 4
      ensures Covered(LAYOUT, Stored(data), i, Stored(data).inodes[i].size)
    {
      ImageCovered(data, i);
    }
  }

  lemma {:induction false} RecordsBack(n: nat, i: nat)
    requires n <= 4 && i < n
    ensures Decode(RecordBlock(n), i) == RECORDS[i]
  {
    hide Decode, PutRecord;
    RecordRoundTrip(RecordBlock(n - 1), n - 1, RECORDS[n - 1], i);
    if i < n - 1 { RecordsBack(n - 1, i); }
  }

  lemma ImageSynced(data: Block)
    ensures Synced(LAYOUT, Stored(data))
  {
    hide Decode, RecordBlock, Marked, RootData;
    forall i: nat | i < 4 ensures SavedAt(LAYOUT, Stored(data), i) { RecordsBack(4, i); }
  }

  /** The contents of the root directory are its two entries. */
  lemma RootContents(data: Block)
    ensures Contents(LAYOUT, Stored(data), 0) == Encode(NameBuffer(F), 1) + Encode(NameBuffer(D), 2)
  {
    hide Trees, Ptr, LogicalPos, Encode, NameBuffer, Marked, RecordBlock;
    FirstCell(data, 0);
    var e := Encode(NameBuffer(F), 1) + Encode(NameBuffer(D), 2);
    var c := Contents(LAYOUT, Stored(data), 0);
    forall o: nat | o < 2 * ENTRY ensures c[o] == e[o] {
      CopyAt(ZeroBlock(), 0, e, o);
      RootByte(data, o);
    }
  }

  lemma RootByte(data: Block, o: nat)
    requires o < BLOCK_SIZE
    ensures ByteAt(LAYOUT, Stored(data), 0, o) == RootData()[o]
    ensures ByteAt(LAYOUT, Stored(data), 1, o) == data[o]
  {
    hide Trees, Ptr, LogicalPos, Encode, NameBuffer, Marked, RecordBlock, RootData;
    FirstCell(data, 0);
    FirstCell(data, 1);
    assert o / BLOCK_SIZE == 0 && o % BLOCK_SIZE == o;
  }

  lemma NamesBack()
    ensures Decode64(Encode(NameBuffer(F), 1)) == Slot(F, 1) && Decode64(Encode(NameBuffer(D), 2)) == Slot(D, 2)
  {
    hide Encode, Decode64, StrLen;
    BufferName(F);
    BufferName(D);
    EncodeDecode(NameBuffer(F), 1);
    EncodeDecode(NameBuffer(D), 2);
  }

  lemma BufferName(n: seq<Byte>)
    requires |n| < NAME_LEN && 0 !in n
    ensures IsName(NameBuffer(n)) && CStr(NameBuffer(n)) == n
  {
    hide StrLen, IsName, CStr;
    assert NameBuffer(n)[..|n|] == n;
    NameIs(NameBuffer(n), n);
  }

  /** The two entries of the root directory. */
  lemma RootSlots(data: Block)
    ensures SlotsIn(LAYOUT, Stored(data), 0) == [Slot(F, 1), Slot(D, 2)]
  {
    hide Contents, Encode, NameBuffer, Decode64, Marked, RecordBlock, RootData;
    RootContents(data);
    NamesBack();
    var c := Contents(LAYOUT, Stored(data), 0);
    assert SlotBytes(c, 0) == Encode(NameBuffer(F), 1);
    assert SlotBytes(c, 1) == Encode(NameBuffer(D), 2);
  }

  lemma ImageNodes(data: Block)
    ensures NodesOf(LAYOUT, Stored(data)) == NODES
  {
    Bits(data);
    RootSlots(data);
    hide InodeUsed, Marked, RecordBlock, RootData, Contents;
    assert SlotsIn(LAYOUT, Stored(data), 2) == [];
  }

  lemma ImageLinked()
    ensures Linked(NODES, NoSlots(), 0, 0)
  {
    hide RefSum, LinkSum;
    forall i: nat ensures RefSum(NoSlots(), i) == 0 { RefSumOne(NoSlots(), N_INODE, i); }
    OneName();
    assert forall d :: 0 <= d < 4 ==> DirNode(NODES[d]);
  }

  lemma OneName()
    ensures LinkSum(NODES, 1) == 1
  {
    assert NODES[..3][..2][..1][..0] == [];
    var e := NODES[0].entries;
    assert e[..1] == [Slot(F, 1)] && e[..1][..0] == [];
    assert Links(e[..1], 1) == 1;
    assert Links(e, 1) == 1;
    assert LinkSum(NODES[..3][..2][..1], 1) == 1;
    assert LinkSum(NODES[..3][..2], 1) == 1;
    assert LinkSum(NODES[..3], 1) == 1;
  }

  /** The image meets every invariant, whatever bytes follow the end of the file. */
  lemma ImageWorld(data: Block)
    ensures World(LAYOUT, Stored(data), OWNER, NoSlots(), 0, 0) && Synced(LAYOUT, Stored(data))
    ensures (exists o :: 1 <= o < BLOCK_SIZE && data[o] != 0) ==> !ZeroTail(LAYOUT, Stored(data), 1)
  {
    hide Healthy, Synced, Linked, NodesOf, Trees, Ptr, InodeUsed, Marked, RecordBlock, RootData;
    ImageHealthy(data);
    ImageSynced(data);
    ImageNodes(data);
    ImageLinked();
    if o :| 1 <= o < BLOCK_SIZE && data[o] != 0 { RootByte(data, o); }
  }

  /** "x" */
  const X: seq<Byte> := [120]

  lemma TwoComponents(a: seq<Byte>, b: seq<Byte>)
    requires 0 < |a| < NAME_LEN && SLASH !in a && 0 < |b| < NAME_LEN && SLASH !in b
    ensures Components(a + [SLASH] + b) == [a, b]
  {
    hide Components;
    Joined(a, b);
    OneComponent(a);
    OneComponent(b);
  }

  lemma Walks()
    ensures Step(NODES, 0, F) == 1 && Step(NODES, 0, D) == 2 && Step(NODES, 1, X) == NONE && Step(NODES, 2, X) == NONE
  {
    var e := NODES[0].entries;
    assert UniqueNames(e);
    NamesOf(e);
    assert e[0].name == F && e[1].name == D;
    assert Names(NODES[2].entries) == map[];
  }

  lemma WalkOne(a: seq<Byte>, i: nat)
    requires Step(NODES, 0, a) == i && i < 4
    ensures Resolve(NODES, 0, [a]) == i
  {
    hide Step;
    assert [a][1..] == [];
    ResolveNone(NODES, i);
  }

  /** path_link("f", "f/x") waits for the lock of "f", which it holds. */
  lemma LinkBelowItself()
    ensures Components(F + [SLASH] + X) == [F, X]
    ensures LinkResult(NODES, 0, F, 0, F + [SLASH] + X) == Stuck
  {
    hide Components, Resolve, Step;
    OneComponent(F);
    TwoComponents(F, X);
    Walks();
    WalkOne(F, 1);
    assert [F, X][..1] == [F];
  }

  lemma PlaceInD()
    ensures ParentOf(NODES, 0, D + [SLASH] + X) == 2 && Components(D + [SLASH] + X) == [D, X]
  {
    hide Components, Resolve, Step;
    TwoComponents(D, X);
    Walks();
    WalkOne(D, 2);
    assert [D, X][..1] == [D];
  }

  /** path_link("f", "d/x") gets as far as the new name, and so does path_create_inode("d/x"). */
  lemma LinkIntoD()
    ensures Components(D + [SLASH] + X) == [D, X]
    ensures LinkResult(NODES, 0, F, 0, D + [SLASH] + X) == Done && !NoPlace(NODES, 0, D + [SLASH] + X)
    ensures !AllUsed(NODES)
  {
    hide Components, Resolve, Step, ParentOf;
    OneComponent(F);
    PlaceInD();
    Walks();
    WalkOne(F, 1);
    assert !NODES[3].used;
  }

  /** On the image those two calls find no room for the name: the directory needs its first block and none
      is free.  They go on all the same, and leave a link count that is one too high. */
  lemma NoRoomForName(data: Block)
    ensures World(LAYOUT, Stored(data), OWNER, NoSlots(), 0, 0) && NodesOf(LAYOUT, Stored(data)) == NODES
    ensures !Takes(LAYOUT, Stored(data), 2)
  {
    hide World, NodesOf, Room;
    ImageWorld(data);
    ImageNodes(data);
    NoRoom(data);
  }

  lemma NoRoom(data: Block)
    ensures Shape(LAYOUT, Stored(data)) && !Room(LAYOUT, Stored(data), 2)
  {
    Bits(data);
    FirstCell(data, 2);
    hide Trees, Ptr, InUse, Marked, RecordBlock, RootData, Contents;
    assert FreeBlocks(LAYOUT, Stored(data).blocks) == {};
    assert SlotsIn(LAYOUT, Stored(data), 2) == [];
    assert Missing(Trees(LAYOUT, Stored(data)), Top(2, 0)) == 1;
  }
}
