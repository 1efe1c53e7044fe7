/** The data and inode bitmaps (fs/bitmap.c). */
module Bitmap {
  import opened Memory
  import opened BlockDevice

  /** `x >> k` */
  function Shift(x: nat, k: nat): nat {
    if k == 0 then x else Shift(x / 2, k - 1)
  }

  /** `(x & (1 << k)) != 0` */
  predicate Bit(x: nat, k: nat) {
    Shift(x, k) % 2 == 1
  }

  lemma BitHalf(x: nat)
    ensures Bit(x, 0) == (x % 2 == 1)
    ensures forall i: nat {:trigger Bit(x, i)} :: i > 0 ==> Bit(x, i) == Bit(x / 2, i - 1)
  {}

  function Pow2(m: nat): nat {
    if m == 0 then 1 else 2 * Pow2(m - 1)
  }

  /** The `m`-bit number `x` with bit `k` set to `on` and every other bit kept. */
  function PutBit(x: nat, m: nat, k: nat, on: bool): (y: nat)
    requires x < Pow2(m) && k < m
    ensures y < Pow2(m)
    ensures forall i {:trigger Bit(y, i)} :: 0 <= i ==> (Bit(y, i) <==> if i == k then on else Bit(x, i))
  {
    if k == 0 then
      var y := x / 2 * 2 + if on then 1 else 0;
      assert y / 2 == x / 2;
      y
    else
      var z := PutBit(x / 2, m - 1, k - 1, on);
      var y := x % 2 + 2 * z;
      assert y / 2 == z;
      BitHalf(x);
      BitHalf(y);
      y
  }

  /** `|= (1 << k)` adds the weight of a clear bit, `&= ~(1 << k)` takes away that of a set one. */
  lemma {:induction false} PutBitWeight(x: nat, m: nat, k: nat, on: bool)
    requires x < Pow2(m) && k < m
    ensures PutBit(x, m, k, on) == x + (if on && !Bit(x, k) then Pow2(k) else 0) - (if !on && Bit(x, k) then Pow2(k)
              else 0)
  {
    if k > 0 { PutBitWeight(x / 2, m - 1, k - 1, on); }
  }

  /** One bitmap byte with bit `k` set or cleared. */
  function PutByteBit(x: Byte, k: nat, on: bool): (y: Byte)
    requires k < 8
    ensures forall i {:trigger Bit(y, i)} :: 0 <= i ==> (Bit(y, i) <==> if i == k then on else Bit(x, i))
  {
    assert Pow2(8) == 2 * (2 * (2 * (2 * Pow2(4)))) && Pow2(4) == 16;
    PutBit(x, 8, k, on)
  }

  /** Bit `i` of one bitmap block. */
  predicate BlockBit(s: Block, i: nat)
    requires i < BITS
  {
    Bit(s[i / 8], i % 8)
  }

  function PutBlockBit(s: Block, i: nat, on: bool): Block
    requires i < BITS
  {
    s[i / 8 := PutByteBit(s[i / 8], i % 8, on)]
  }

  lemma PutBlockBitAt(s: Block, i: nat, on: bool, m: nat)
    requires i < BITS && m < BITS
    ensures BlockBit(PutBlockBit(s, i, on), m) == if m == i then on else BlockBit(s, m)
  {
    if m / 8 == i / 8 { assert m == 8 * (m / 8) + m % 8; }
  }

  /** Bit `i` of the bitmap that starts at block `first`. */
  predicate BitSet(blocks: seq<Block>, first: nat, i: nat)
    requires first + i / BITS < |blocks|
  {
    BlockBit(blocks[first + i / BITS], i % BITS)
  }

  /** Bit `i` has weight 1, 2, 4 up to 128, as i % 8 is 0, 1, 2 up to 7, in byte i / 8 of the bitmap region. */
  lemma BitPlace(blocks: seq<Block>, first: nat, i: nat)
    requires first + i / BITS < |blocks|
    ensures var at := first * BLOCK_SIZE + i / 8;
            && at / BLOCK_SIZE < |blocks|
            && BitSet(blocks, first, i) == (blocks[at / BLOCK_SIZE][at % BLOCK_SIZE] / WEIGHTS[i % 8] % 2 == 1)
  {
    var at, j := first * BLOCK_SIZE + i / 8, i % BITS;
    assert i == BITS * (i / BITS) + j && j == 8 * (j / 8) + j % 8;
    assert i / 8 == BLOCK_SIZE * (i / BITS) + j / 8 && i % 8 == j % 8;
    assert at == (first + i / BITS) * BLOCK_SIZE + j / 8;
    assert at / BLOCK_SIZE == first + i / BITS && at % BLOCK_SIZE == j / 8;
    ShiftIs(blocks[first + i / BITS][j / 8], i % 8);
  }

  const WEIGHTS := [1, 2, 4, 8, 16, 32, 64, 128]

  lemma {:induction false} ShiftIs(x: nat, k: nat)
    requires k < 8
    ensures Shift(x, k) == x / WEIGHTS[k]
  {
    if k > 0 {
      ShiftIs(x / 2, k - 1);
      assert x / 2 / WEIGHTS[k - 1] == x / WEIGHTS[k];
    }
  }

  /** Only bit `r` of the bitmap of `n` blocks at `first` differs, and it now is `on`. */
  ghost predicate OneBit(was: seq<Block>, now: seq<Block>, first: nat, n: nat, r: nat, on: bool)
    requires first + n <= |was|
  {
    && |now| == |was|
    && (forall b {:trigger now[b]} :: 0 <= b < |was| && !(first <= b < first + n) ==> now[b] == was[b])
    && (forall i: nat {:trigger BitSet(now, first, i)} :: i < n * BITS ==>
          i / BITS < n && BitSet(now, first, i) == if i == r then on else BitSet(was, first, i))
  }

  lemma PutOneBit(was: seq<Block>, first: nat, n: nat, r: nat, on: bool)
    requires first + n <= |was| && r < n * BITS
    ensures r / BITS < n
    ensures var b := first + r / BITS;
            OneBit(was, PutBlock(was, b, PutBlockBit(was[b], r % BITS, on)), first, n, r, on)
  {
    var b := first + r / BITS;
    var now := PutBlock(was, b, PutBlockBit(was[b], r % BITS, on));
    forall i: nat | i < n * BITS
      ensures i / BITS < n && BitSet(now, first, i) == if i == r then on else BitSet(was, first, i)
    {
      if i / BITS == r / BITS { PutBlockBitAt(was[b], r % BITS, on, i % BITS); }
    }
  }

  /** bitmap_search_and_set: find, set and return the lowest clear bit below `valid`. */
  method SearchAndSet(d: Disk, bm: nat, valid: nat) returns (found: nat)
    requires bm < |d.blocks| && bm !in d.held && |d.held| < 3 && valid <= BITS
    modifies d
    ensures d.held == old(d.held)
    ensures found == NONE ==> d.blocks == old(d.blocks) && forall i :: 0 <= i < valid ==> BlockBit(d.blocks[bm], i)
    ensures found != NONE ==>
      && found < valid && !BlockBit(old(d.blocks)[bm], found)
      && (forall i :: 0 <= i < found ==> BlockBit(old(d.blocks)[bm], i))
      && d.blocks == PutBlock(old(d.blocks), bm, PutBlockBit(old(d.blocks)[bm], found, true))
  {
    var data := d.Get(bm);
    found := NONE;
    var i := 0;
    while i < valid
      invariant i <= valid && found == NONE
      invariant d.blocks == old(d.blocks) && d.held == old(d.held) + {bm} && data == d.blocks[bm]
      invariant forall m :: 0 <= m < i ==> BlockBit(data, m)
    {
      if !Bit(data[i / 8], i % 8) {
        data := data[i / 8 := PutByteBit(data[i / 8], i % 8, true)];
        d.Write(bm, data);
        found := i;
        break;
      }
      i := i + 1;
    }
    d.Put(bm);
  }

  /** bitmap_clear */
  method Clear(d: Disk, bm: nat, index: nat)
    requires bm < |d.blocks| && bm !in d.held && |d.held| < 3 && index < BITS
    modifies d
    ensures d.held == old(d.held)
    ensures d.blocks == PutBlock(old(d.blocks), bm, PutBlockBit(old(d.blocks)[bm], index, false))
  {
    var data := d.Get(bm);
    data := data[index / 8 := PutByteBit(data[index / 8], index % 8, false)];
    d.Write(bm, data);
    d.Put(bm);
  }

  /** The loop of bitmap_alloc_block and bitmap_alloc_inode over the `n` blocks of a bitmap that
      counts `count` objects: the lowest clear bit is set and returned. */
  method AllocBit(d: Disk, first: nat, n: nat, count: nat) returns (r: nat)
    requires first + n <= |d.blocks| && count <= n * BITS && count < NONE
    requires |d.held| < 3 && forall b :: first <= b < first + n ==> b !in d.held
    modifies d
    ensures d.held == old(d.held)
    ensures r == NONE ==>
      && d.blocks == old(d.blocks)
      && forall i: nat :: i < count ==> BitSet(d.blocks, first, i)
    ensures r != NONE ==>
      && r < count && !BitSet(old(d.blocks), first, r)
      && (forall i: nat :: i < r ==> BitSet(old(d.blocks), first, i))
      && OneBit(old(d.blocks), d.blocks, first, n, r, true)
  {
    var left := count;
    var i := 0;
    while i < n
      invariant 0 <= i <= n
      invariant left == if count <= i * BITS then 0 else count - i * BITS
      invariant d.blocks == old(d.blocks) && d.held == old(d.held)
      invariant forall m: nat :: m < count && m < i * BITS ==> BitSet(d.blocks, first, m)
    {
      var len := if left > BITS then BITS else left;
      var idx := SearchAndSet(d, first + i, len);
      if idx != NONE {
        r := i * BITS + idx;
        assert r / BITS == i && r % BITS == idx;
        forall m: nat | m < r ensures BitSet(old(d.blocks), first, m) {
          if m >= i * BITS { assert m / BITS == i && m % BITS == m - i * BITS; }
        }
        PutOneBit(old(d.blocks), first, n, r, true);
        return;
      }
      forall m: nat | m < count && m < (i + 1) * BITS ensures BitSet(d.blocks, first, m) {
        if m >= i * BITS { assert m / BITS == i && m % BITS == m - i * BITS; }
      }
      left := left - len;
      i := i + 1;
    }
    r := NONE;
  }

  /** bitmap_free_block and bitmap_free_inode, given the index of the object. */
  method FreeBit(d: Disk, first: nat, n: nat, r: nat)
    requires first + n <= |d.blocks| && r < n * BITS
    requires |d.held| < 3 && forall b :: first <= b < first + n ==> b !in d.held
    modifies d
    ensures d.held == old(d.held)
    ensures OneBit(old(d.blocks), d.blocks, first, n, r, false)
  {
    PutOneBit(d.blocks, first, n, r, false);
    Clear(d, first + r / BITS, r % BITS);
  }
}
