/** Blocks as byte strings, the little-endian words inside them, and the disk the file system sees
    through its write-through buffer cache. */
module BlockDevice {
  import opened Memory

  const BLOCK_SIZE := 4096
  const WORDS := 1024
  const BITS := 32768
  /** -1 as a uint32: "no block", "no inode". */
  const NONE := 0xFFFF_FFFF

  type Word = x: int | 0 <= x < 0x1_0000_0000
  type Block = s: seq<Byte> | |s| == BLOCK_SIZE witness Zeros(BLOCK_SIZE)

  function Zeros(n: nat): (s: seq<Byte>)
    ensures |s| == n && forall i :: 0 <= i < n ==> s[i] == 0
  {
    seq(n, _ => 0)
  }

  function LittleEndian(a: int, b: int, c: int, d: int): int {
    a + 0x100 * b + 0x1_0000 * c + 0x100_0000 * d
  }

  /** Entry `i` of a block read as a table of uint32. */
  function WordAt(s: Block, i: nat): Word
    requires i < WORDS
  {
    LittleEndian(s[4 * i], s[4 * i + 1], s[4 * i + 2], s[4 * i + 3])
  }

  function SetWord(s: Block, i: nat, v: Word): Block
    requires i < WORDS
  {
    s[4 * i := v % 0x100][4 * i + 1 := v / 0x100 % 0x100]
     [4 * i + 2 := v / 0x1_0000 % 0x100][4 * i + 3 := v / 0x100_0000]
  }

  function Words(s: Block): (t: seq<nat>)
    ensures |t| == WORDS
  {
    seq(WORDS, i requires 0 <= i < WORDS => WordAt(s, i))
  }

  lemma WordBytes(v: Word)
    ensures v == LittleEndian(v % 0x100, v / 0x100 % 0x100, v / 0x1_0000 % 0x100, v / 0x100_0000)
  {
    assert v / 0x1_0000 == v / 0x100 / 0x100;
    assert v / 0x100_0000 == v / 0x1_0000 / 0x100;
  }

  /** Storing a word changes that table entry and no other. */
  lemma SetWordWords(s: Block, i: nat, v: Word)
    requires i < WORDS
    ensures Words(SetWord(s, i, v)) == Words(s)[i := v]
  {
    WordBytes(v);
    assert WordAt(SetWord(s, i, v), i) == v;
    forall j: nat | j < WORDS && j != i ensures WordAt(SetWord(s, i, v), j) == WordAt(s, j) {}
  }

  /** The value of `memset(data, 0, BLOCK_SIZE)`. */
  function ZeroBlock(): Block { Zeros(BLOCK_SIZE) }

  lemma ZeroWords()
    ensures forall i :: 0 <= i < WORDS ==> Words(ZeroBlock())[i] == 0
  {}

  /** `memcpy(data + at, src, |src|)`. */
  function Copy(s: Block, at: nat, src: seq<Byte>): Block
    requires at + |src| <= BLOCK_SIZE
  {
    s[..at] + src + s[at + |src|..]
  }

  lemma CopyAt(s: Block, at: nat, src: seq<Byte>, i: nat)
    requires at + |src| <= BLOCK_SIZE && i < BLOCK_SIZE
    ensures Copy(s, at, src)[i] == if at <= i < at + |src| then src[i - at] else s[i]
  {}

  function PutBlock(blocks: seq<Block>, b: nat, data: Block): seq<Block>
    requires b < |blocks|
  {
    blocks[b := data]
  }

  /** The disk through `buffer_get`, `buffer_write` and `buffer_put`: a buffer handed out holds the
      current block, and a write reaches the disk at once.  `held` lists the buffers handed out and
      not put back.  `Get` may be called only for a buffer not held, and only while fewer than
      three are: a caller that verifies never waits for itself and needs three buffers at most. */
  class Disk {
    var blocks: seq<Block>
    ghost var held: set<nat>

    constructor (image: seq<Block>)
      ensures blocks == image && held == {}
    {
      blocks := image;
      held := {};
    }

    method Get(b: nat) returns (data: Block)
      requires b < |blocks| && b !in held && |held| < 3
      modifies this`held
      ensures held == old(held) + {b} && data == blocks[b]
    {
      held := held + {b};
      data := blocks[b];
    }

    method Write(b: nat, data: Block)
      requires b < |blocks| && b in held
      modifies this`blocks
      ensures blocks == PutBlock(old(blocks), b, data)
    {
      blocks := PutBlock(blocks, b, data);
    }

    method Put(b: nat)
      requires b in held
      modifies this`held
      ensures held == old(held) - {b}
    {
      held := held - {b};
    }
  }

  /** The superblock fields that place the disk regions. */
  datatype SuperBlock = SuperBlock(
    totalBlocks: nat,
    totalInodes: nat,
    inodeBitmapFirst: nat, inodeBitmapBlocks: nat,
    inodeFirst: nat, inodeBlocks: nat,
    dataBitmapFirst: nat, dataBitmapBlocks: nat,
    dataFirst: nat, dataBlocks: nat)
  {
    /** Consecutive regions, each bitmap large enough for what it counts (as mkfs lays them out). */
    predicate Layout() {
      && 1 <= inodeBitmapFirst
      && inodeBitmapFirst + inodeBitmapBlocks <= inodeFirst
      && inodeFirst + inodeBlocks <= dataBitmapFirst
      && dataBitmapFirst + dataBitmapBlocks <= dataFirst
      && dataFirst + dataBlocks <= totalBlocks < NONE
      && dataBlocks <= dataBitmapBlocks * BITS
      && totalInodes <= inodeBitmapBlocks * BITS
      && totalInodes <= inodeBlocks * 64
      && totalInodes < NONE
    }

    predicate InData(b: nat) { dataFirst <= b < dataFirst + dataBlocks }
  }
}
