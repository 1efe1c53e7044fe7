/** The virtio block driver (fs/virtio.c) against a device that completes requests in any order
    (split virtqueues, section 2.6 of VIRTIO 1.1).

    Every method is one stretch of code under the disk lock, or one step of the device, so a
    concurrent run of any number of requesters is a sequence of method calls. */
module Virtio {
  import opened Memory
  import opened BlockDevice

  /** VIRTIO_NUM: descriptors, and entries of both rings. */
  const NUM := 8
  const F_NEXT := 1
  const F_WRITE := 2
  const U16: nat := 0x1_0000

  /** What a descriptor's address points to: the request header on the requester's stack, the data of a
      buffer, or a status byte. */
  datatype Addr = Nowhere | Header(write: bool, sector: nat) | Data(buf: nat) | Status(i: nat)

  datatype Desc = Desc(addr: Addr, len: nat, flags: nat, next: nat)

  /** disk.info; no buffer is NULL. */
  datatype Info = Info(buf: int, status: nat)

  /** How far a request is: published at `pos` of the avail ring, taken by the device, completed at `pos` of
      the used ring, or handled by the interrupt. */
  datatype Stage = Queued(pos: nat) | Taken | Used(pos: nat) | Handled

  /** A request in flight, named by its first descriptor, for the bytes of the disk that `block` has. */
  datatype Chain = Chain(d1: nat, d2: nat, buf: nat, write: bool, block: nat, stage: Stage)

  /** The unit the device counts in, whatever the block size of the file system (section 5.2.6). */
  const SECTOR_SIZE := 512

  /** The first sector of a block, in 32 bits. */
  function Sector(block: nat): nat { block * (BLOCK_SIZE / 512) % 0x1_0000_0000 }

  /** The block number as far as its sector number fits 32 bits. */
  function Wrapped(block: nat): nat { block % 0x2000_0000 }

  /** The sector named for a block is where the bytes of the block begin if and only if its number fits 32 bits; else
      they are the bytes of the block 2^29 (or a multiple of it) before. */
  lemma ReachedExactly(block: nat)
    ensures Sector(block) * SECTOR_SIZE == Wrapped(block) * BLOCK_SIZE
    ensures Sector(block) * SECTOR_SIZE == block * BLOCK_SIZE <==> block < 0x2000_0000
  {
    var q, r := block / 0x2000_0000, block % 0x2000_0000;
    assert block * 8 == 0x1_0000_0000 * q + r * 8;
    assert block * 8 % 0x1_0000_0000 == r * 8;
  }

  /** The status of a request: VIRTIO_BLK_S_IOERR, or another error, when the disk does not have the block. */
  function Answer(status: nat, there: bool): nat { if there || status != 0 then status else 1 }

  /** The disk has all bytes of the block. */
  predicate OnDisk(platter: seq<Byte>, block: nat) { (block + 1) * BLOCK_SIZE <= |platter| }

  /** The bytes of a block: those from `block * BLOCK_SIZE` up to the next block. */
  function BytesOf(platter: seq<Byte>, block: nat): Block
    requires OnDisk(platter, block)
  {
    platter[block * BLOCK_SIZE..(block + 1) * BLOCK_SIZE]
  }

  /** The disk after `src` is written to the bytes of a block, and to no others. */
  function WithBytes(platter: seq<Byte>, block: nat, src: Block): seq<Byte>
    requires OnDisk(platter, block)
  {
    platter[..block * BLOCK_SIZE] + src + platter[(block + 1) * BLOCK_SIZE..]
  }

  /** What is written to one block is read back from it, and every other block reads as before. */
  lemma BytesBack(platter: seq<Byte>, block: nat, src: Block, other: nat)
    requires OnDisk(platter, block) && OnDisk(platter, other)
    ensures var p := WithBytes(platter, block, src);
            |p| == |platter| && BytesOf(p, other) == if other == block then src else BytesOf(platter, other)
  {
    var p := WithBytes(platter, block, src);
    var a, b := other * BLOCK_SIZE, block * BLOCK_SIZE;
    assert other < block ==> a + BLOCK_SIZE <= b;
    assert other > block ==> b + BLOCK_SIZE <= a;
    forall i: nat | i < BLOCK_SIZE
      ensures p[a + i] == if other == block then src[i] else platter[a + i]
    {}
  }

  predicate Member(h: nat, c: Chain, i: nat) { i == h || i == c.d1 || i == c.d2 }

  /** Every descriptor is free, or belongs to the one chain named by `role`. */
  ghost predicate ChainsOk(free: seq<bool>, role: seq<int>, chains: map<nat, Chain>) {
    && |free| == NUM && |role| == NUM
    && (forall i: nat {:trigger role[i]} {:trigger free[i]} :: i < NUM ==> (free[i] <==> role[i] < 0))
    && (forall i: nat {:trigger role[i]} :: i < NUM && role[i] >= 0 ==>
        role[i] as nat in chains && Member(role[i] as nat, chains[role[i] as nat], i))
    && (forall h {:trigger h in chains} :: h in chains ==> OwnsThree(role, h, chains[h]))
  }

  predicate OwnsThree(role: seq<int>, h: nat, c: Chain)
    requires |role| == NUM
  {
    h < NUM && c.d1 < NUM && c.d2 < NUM && h != c.d1 && h != c.d2 && c.d1 != c.d2 && role[h] == h && role[c.d1] == h &&
        role[c.d2] == h
  }

  /** The descriptors of a chain say what the request asks for. */
  predicate Says(desc: seq<Desc>, h: nat, c: Chain) {
    && |desc| == NUM && h < NUM && c.d1 < NUM && c.d2 < NUM && desc[h].addr.Header?
    && desc[h].addr.sector * SECTOR_SIZE == c.block * BLOCK_SIZE
    && desc[h] == Desc(Header(c.write, desc[h].addr.sector), 16, F_NEXT, c.d1)
    && desc[c.d1] == Desc(Data(c.buf), BLOCK_SIZE, if c.write then F_NEXT else F_WRITE + F_NEXT, c.d2)
    && desc[c.d2] == Desc(Status(h), 1, F_WRITE, 0)
  }

  predicate Writable(d: Desc) { d.flags / F_WRITE % 2 == 1 }

  predicate Readable(d: Desc) { !Writable(d) }

  /** Chains encode their requests, no buffer is in two of them, and `busy` holds exactly the buffers whose
      request has not been handled. */
  ghost predicate RequestsOk(desc: seq<Desc>, info: seq<Info>, busy: set<nat>, chains: map<nat, Chain>) {
    && |info| == NUM && |desc| == NUM
    && (forall h {:trigger h in chains} :: h in chains ==>
        h < NUM && Says(desc, h, chains[h]) && info[h].buf == chains[h].buf)
    && (forall h {:trigger h in chains} :: h in chains ==> (chains[h].buf in busy <==> !chains[h].stage.Handled?))
    && (forall h, k {:trigger h in chains, k in chains} ::
        h in chains && k in chains && chains[h].buf == chains[k].buf ==> h == k)
  }

  /** The avail ring: entries from `taken` on are still there for the device. */
  ghost predicate AvailOk(ring: seq<nat>, idx: nat, submitted: seq<nat>, taken: nat, chains: map<nat, Chain>) {
    && |ring| == NUM && taken <= |submitted| && idx == |submitted| % U16
    && (forall k: nat {:trigger submitted[k]} :: taken <= k < |submitted| ==>
          submitted[k] in chains && chains[submitted[k]].stage == Queued(k) && ring[k % NUM] == submitted[k])
    && (forall h {:trigger h in chains} :: h in chains && chains[h].stage.Queued? ==>
          taken <= chains[h].stage.pos < |submitted| && submitted[chains[h].stage.pos] == h)
  }

  /** The used ring: entries from `handled` on are still there for the interrupt handler. */
  ghost predicate UsedOk(elems: seq<nat>, id: nat, usedIdx: nat, completed: seq<nat>, handled: nat,
                         chains: map<nat, Chain>) {
    && |elems| == NUM && handled <= |completed| && id == |completed| % U16 && usedIdx == handled % NUM
    && (forall k: nat {:trigger completed[k]} :: handled <= k < |completed| ==>
          completed[k] in chains && chains[completed[k]].stage == Used(k) && elems[k % NUM] == completed[k])
    && (forall h {:trigger h in chains} :: h in chains && chains[h].stage.Used? ==>
          handled <= chains[h].stage.pos < |completed| && completed[chains[h].stage.pos] == h)
  }

  /** The buffers of the requests exist. */
  ghost predicate Stored(chains: map<nat, Chain>, data: map<nat, Block>) {
    forall h {:trigger h in chains} :: h in chains ==> chains[h].buf in data
  }

  /** Buffer `b` has no request in flight. */
  ghost predicate NotInUse(chains: map<nat, Chain>, b: nat) {
    forall h {:trigger h in chains} :: h in chains ==> chains[h].buf != b
  }

  /** No lost wakeup: whoever sleeps on the descriptors finds two requests in flight, and whoever sleeps on a
      buffer waits for a request that is not handled yet. */
  ghost predicate SleepersOk(asleepFree: set<nat>, asleepOn: set<(nat, nat)>, busy: set<nat>, chains: map<nat, Chain>) {
    && (asleepFree != {} ==> |chains| == 2)
    && (forall p {:trigger p in asleepOn} :: p in asleepOn ==> p.1 in busy)
  }

  lemma SleepersAdd(asleepOn: set<(nat, nat)>, busy: set<nat>, chains: map<nat, Chain>, h: nat, c: Chain)
    requires SleepersOk({}, asleepOn, busy, chains)
    ensures SleepersOk({}, asleepOn, busy + {c.buf}, chains[h := c])
  {}

  lemma StoredAdd(chains: map<nat, Chain>, data: map<nat, Block>, h: nat, c: Chain)
    requires Stored(chains, data) && c.buf in data
    ensures Stored(chains[h := c], data)
  {}

  function Members(h: nat, c: Chain): set<nat> { {h, c.d1, c.d2} }

  function Below(n: nat): (s: set<nat>)
    ensures |s| == n && forall i: nat :: i in s <==> i < n
  {
    if n == 0 then {} else Below(n - 1) + {n - 1}
  }

  lemma SubsetSize(a: set<nat>, b: set<nat>)
    requires a <= b
    ensures |a| <= |b|
    decreases a
  {
    if a != {} {
      var x :| x in a;
      SubsetSize(a - {x}, b - {x});
    }
  }

  lemma MembersOk(free: seq<bool>, role: seq<int>, chains: map<nat, Chain>, h: nat)
    requires ChainsOk(free, role, chains) && h in chains
    ensures |Members(h, chains[h])| == 3 && Members(h, chains[h]) <= Below(NUM)
    ensures forall i :: i in Members(h, chains[h]) ==> role[i] == h
  {
    hide ChainsOk, Below;
    var c := chains[h];
    Three(free, role, chains, h);
    ThreeDistinct(h, c.d1, c.d2);
  }

  lemma Three(free: seq<bool>, role: seq<int>, chains: map<nat, Chain>, h: nat)
    requires ChainsOk(free, role, chains) && h in chains
    ensures |role| == NUM && OwnsThree(role, h, chains[h])
  {}

  lemma ThreeDistinct(a: nat, b: nat, c: nat)
    requires a != b && b != c && a != c
    ensures |{a, b, c}| == 3
  {
    assert {a, b, c} == {a} + {b} + {c};
  }

  lemma MembersDisjoint(free: seq<bool>, role: seq<int>, chains: map<nat, Chain>, h: nat, k: nat)
    requires ChainsOk(free, role, chains) && h in chains && k in chains && h != k
    ensures Members(h, chains[h]) !! Members(k, chains[k])
  {
    MembersOk(free, role, chains, h);
    MembersOk(free, role, chains, k);
    forall i | i in Members(h, chains[h]) ensures i !in Members(k, chains[k]) {}
  }

  /** At most two chains fit: there are no three different heads. */
  lemma AtMostTwo(free: seq<bool>, role: seq<int>, chains: map<nat, Chain>, a: nat, b: nat, c: nat)
    requires ChainsOk(free, role, chains) && a in chains && b in chains && c in chains
    ensures a == b || b == c || a == c
  {
    hide ChainsOk, Members, Below;
    if a != b && b != c && a != c {
      var x, y, z := Members(a, chains[a]), Members(b, chains[b]), Members(c, chains[c]);
      MembersOk(free, role, chains, a);
      MembersOk(free, role, chains, b);
      MembersOk(free, role, chains, c);
      MembersDisjoint(free, role, chains, a, b);
      MembersDisjoint(free, role, chains, b, c);
      MembersDisjoint(free, role, chains, a, c);
      assert x + y !! z;
      assert |x + y| == 6 && |x + y + z| == 9;
      SubsetSize(x + y + z, Below(NUM));
    }
  }

  /** At most two requests wait for the device, so no entry of the avail ring is overwritten before it is taken. */
  lemma FewQueued(free: seq<bool>, role: seq<int>, chains: map<nat, Chain>, ring: seq<nat>, idx: nat,
                  submitted: seq<nat>, taken: nat)
    requires ChainsOk(free, role, chains) && AvailOk(ring, idx, submitted, taken, chains)
    ensures |submitted| - taken <= 2
  {
    if |submitted| - taken > 2 {
      AtMostTwo(free, role, chains, submitted[taken], submitted[taken + 1], submitted[taken + 2]);
      hide ChainsOk;
    }
  }

  /** At most two completions wait for the handler, so comparing the two indices modulo 8 tells exactly whether
      any is left. */
  lemma UsedTestExact(free: seq<bool>, role: seq<int>, chains: map<nat, Chain>, elems: seq<nat>, id: nat, usedIdx: nat,
                      completed: seq<nat>, handled: nat)
    requires ChainsOk(free, role, chains) && UsedOk(elems, id, usedIdx, completed, handled, chains)
    ensures |completed| - handled <= 2
    ensures usedIdx % NUM != id % NUM <==> handled < |completed|
  {
    if |completed| - handled > 2 {
      AtMostTwo(free, role, chains, completed[handled], completed[handled + 1], completed[handled + 2]);
    }
    Mod16(|completed|);
  }

  function FreeSet(free: seq<bool>): set<nat> { set i: nat | i < |free| && free[i] }

  /** With at most one chain in flight, five descriptors are free. */
  lemma FreeCount(free: seq<bool>, role: seq<int>, chains: map<nat, Chain>)
    requires ChainsOk(free, role, chains)
    ensures |chains| <= 2
    ensures |FreeSet(free)| == NUM - 3 * |chains|
  {
    hide ChainsOk, Members, Below, Member, FreeSet;
    if chains == map[] {
      FreeIs(free, role, chains, {});
    } else {
      var h :| h in chains;
      var x := Members(h, chains[h]);
      MembersOk(free, role, chains, h);
      if k :| k in chains && k != h {
        var y := Members(k, chains[k]);
        MembersOk(free, role, chains, k);
        MembersDisjoint(free, role, chains, h, k);
        forall c | c in chains ensures c in {h, k} { AtMostTwo(free, role, chains, h, k, c); }
        assert chains.Keys == {h, k} && |chains| == |chains.Keys|;
        assert |x + y| == 6;
        InMembers(h, chains[h]);
        InMembers(k, chains[k]);
        FreeIs(free, role, chains, x + y);
      } else {
        assert chains.Keys == {h} && |chains| == |chains.Keys|;
        InMembers(h, chains[h]);
        FreeIs(free, role, chains, x);
      }
    }
  }

  lemma InMembers(h: nat, c: Chain)
    ensures forall i: nat :: i in Members(h, c) <==> Member(h, c, i)
  {}

  /** The free descriptors are those in no chain. */
  lemma FreeIs(free: seq<bool>, role: seq<int>, chains: map<nat, Chain>, taken: set<nat>)
    requires ChainsOk(free, role, chains) && taken <= Below(NUM)
    requires forall i: nat {:trigger i in taken} :: i < NUM ==>
               (i in taken <==> exists h :: h in chains && Member(h, chains[h], i))
    ensures |FreeSet(free)| == NUM - |taken|
  {
    hide ChainsOk, Member;
    forall i: nat | i < NUM
      ensures |free| == NUM && (free[i] <==> i !in taken)
    {
      FreeOne(free, role, chains, taken, i);
    }
    assert |free| == NUM by { FreeOne(free, role, chains, taken, 0); }
    assert FreeSet(free) == Below(NUM) - taken;
  }

  lemma FreeOne(free: seq<bool>, role: seq<int>, chains: map<nat, Chain>, taken: set<nat>, i: nat)
    requires ChainsOk(free, role, chains) && i < NUM
    requires (i in taken <==> exists h :: h in chains && Member(h, chains[h], i))
    ensures |free| == NUM && (free[i] <==> i !in taken)
  {
    if role[i] >= 0 { assert role[i] as nat in chains; }
  }

  // What a new request, a device step, the handler and the end of a request do to the four parts

  /** Three entries set to `v`. */
  function Set3<T>(s: seq<T>, a: nat, b: nat, c: nat, v: T): (r: seq<T>)
    requires |s| == NUM && a < NUM && b < NUM && c < NUM
    ensures |r| == NUM
  {
    s[a := v][b := v][c := v]
  }

  lemma HeadBusy(free: seq<bool>, role: seq<int>, chains: map<nat, Chain>, h: nat)
    requires ChainsOk(free, role, chains) && h < NUM
    ensures h in chains ==> !free[h]
  {}

  lemma ChainsAdd(free: seq<bool>, role: seq<int>, chains: map<nat, Chain>, free1: seq<bool>, h: nat, c: Chain)
    requires ChainsOk(free, role, chains) && h < NUM && c.d1 < NUM && c.d2 < NUM && h != c.d1 && h != c.d2
    requires c.d1 != c.d2
    requires free[h] && free[c.d1] && free[c.d2] && free1 == Set3(free, h, c.d1, c.d2, false)
    ensures h !in chains
    ensures ChainsOk(free1, Set3(role, h, c.d1, c.d2, h), chains[h := c])
  {
    HeadBusy(free, role, chains, h);
    var r := Set3(role, h, c.d1, c.d2, h);
    var now := chains[h := c];
    forall k | k in now ensures OwnsThree(r, k, now[k]) {
      if k != h { assert OwnsThree(role, k, chains[k]); }
    }
  }

  /** Only the stage of a chain changes. */
  lemma ChainsStage(free: seq<bool>, role: seq<int>, chains: map<nat, Chain>, h: nat, stage: Stage)
    requires ChainsOk(free, role, chains) && h in chains
    ensures ChainsOk(free, role, chains[h := chains[h].(stage := stage)])
  {
    var now := chains[h := chains[h].(stage := stage)];
    forall k | k in now ensures OwnsThree(role, k, now[k]) { assert OwnsThree(role, k, chains[k]); }
  }

  lemma ChainsDrop(free: seq<bool>, role: seq<int>, chains: map<nat, Chain>, h: nat)
    requires ChainsOk(free, role, chains) && h in chains
    ensures OwnsThree(role, h, chains[h]) && !free[h] && !free[chains[h].d1] && !free[chains[h].d2]
    ensures var c := chains[h];
            ChainsOk(Set3(free, h, c.d1, c.d2, true), Set3(role, h, c.d1, c.d2, -1), chains - {h})
  {
    var c := chains[h];
    assert OwnsThree(role, h, c);
    var r := Set3(role, h, c.d1, c.d2, -1);
    forall k | k in chains - {h} ensures OwnsThree(r, k, chains[k]) { assert OwnsThree(role, k, chains[k]); }
  }

  lemma RequestsAdd(free: seq<bool>, role: seq<int>, desc: seq<Desc>, info: seq<Info>, busy: set<nat>,
                    chains: map<nat, Chain>, desc1: seq<Desc>, info1: seq<Info>, h: nat, c: Chain)
    requires ChainsOk(free, role, chains) && RequestsOk(desc, info, busy, chains) && h < NUM && c.d1 < NUM && c.d2 < NUM
    requires free[h] && free[c.d1] && free[c.d2] && Says(desc1, h, c) && !c.stage.Handled?
    requires |desc1| == |desc| == |info1| == |info| == NUM && info1[h].buf == c.buf
    requires forall i: nat {:trigger desc1[i]} :: i < NUM && !free[i] ==> desc1[i] == desc[i]
    requires forall i: nat {:trigger info1[i]} :: i < NUM && !free[i] ==> info1[i] == info[i]
    requires NotInUse(chains, c.buf)
    ensures RequestsOk(desc1, info1, busy + {c.buf}, chains[h := c])
  {
    hide Says;
    var now := chains[h := c];
    forall k | k in now ensures k < NUM && Says(desc1, k, now[k]) && info1[k].buf == now[k].buf {
      if k != h {
        assert OwnsThree(role, k, chains[k]);
        SaysSame(desc, desc1, k, chains[k]);
      }
    }
  }

  lemma SaysSame(desc: seq<Desc>, desc1: seq<Desc>, h: nat, c: Chain)
    requires Says(desc, h, c) && |desc1| == NUM && desc1[h] == desc[h] && desc1[c.d1] == desc[c.d1]
    requires desc1[c.d2] == desc[c.d2]
    ensures Says(desc1, h, c)
  {}

  lemma RequestsStage(desc: seq<Desc>, info: seq<Info>, busy: set<nat>, chains: map<nat, Chain>, info1: seq<Info>,
                      h: nat, stage: Stage)
    requires RequestsOk(desc, info, busy, chains) && h in chains && !chains[h].stage.Handled?
    requires |info1| == NUM && |desc| == NUM
    requires forall i: nat {:trigger info1[i]} :: i < NUM ==> info1[i].buf == info[i].buf
    ensures RequestsOk(desc, info1, if stage.Handled? then busy - {chains[h].buf}
              else busy, chains[h := chains[h].(stage := stage)])
  {
    var now := chains[h := chains[h].(stage := stage)];
    forall k | k in now ensures k < NUM && Says(desc, k, now[k]) && info1[k].buf == now[k].buf { assert k in chains; }
  }

  lemma RequestsDrop(free: seq<bool>, role: seq<int>, desc: seq<Desc>, info: seq<Info>, busy: set<nat>,
                     chains: map<nat, Chain>, desc1: seq<Desc>, info1: seq<Info>, h: nat)
    requires ChainsOk(free, role, chains) && RequestsOk(desc, info, busy, chains) && h in chains
    requires |desc1| == NUM && |info1| == NUM
    requires forall i: nat {:trigger desc1[i]} :: i < NUM && role[i] != h ==> desc1[i] == desc[i]
    requires forall i: nat {:trigger info1[i]} :: i < NUM && i != h ==> info1[i] == info[i]
    ensures RequestsOk(desc1, info1, busy, chains - {h})
  {
    hide Says;
    forall k | k in chains - {h} ensures k < NUM && Says(desc1, k, chains[k]) && info1[k].buf == chains[k].buf {
      assert OwnsThree(role, k, chains[k]);
      SaysSame(desc, desc1, k, chains[k]);
    }
  }

  lemma AvailAdd(free: seq<bool>, role: seq<int>, chains: map<nat, Chain>, ring: seq<nat>, idx: nat,
                 submitted: seq<nat>, taken: nat, h: nat, c: Chain)
    requires ChainsOk(free, role, chains) && AvailOk(ring, idx, submitted, taken, chains) && h !in chains
    requires c.stage == Queued(|submitted|)
    ensures AvailOk(ring[idx % NUM := h], (idx + 1) % U16, submitted + [h], taken, chains[h := c])
  {
    hide ChainsOk;
    FewQueued(free, role, chains, ring, idx, submitted, taken);
    Mod16(|submitted|);
    forall k: nat | taken <= k < |submitted| ensures k % NUM != |submitted| % NUM { NotSame(k, |submitted|); }
  }

  /** A 16-bit index counts correctly modulo the size of the rings. */
  lemma Mod16(n: nat)
    ensures n % U16 % NUM == n % NUM && (n % U16 + 1) % U16 == (n + 1) % U16
  {
    assert n == n / U16 * U16 + n % U16;
  }

  lemma NotSame(a: nat, b: nat)
    requires a < b < a + NUM
    ensures a % NUM != b % NUM
  {}

  /** A stage other than queued does not matter to the avail ring. */
  lemma AvailStage(chains: map<nat, Chain>, ring: seq<nat>, idx: nat, submitted: seq<nat>, taken: nat, h: nat,
                   stage: Stage)
    requires AvailOk(ring, idx, submitted, taken, chains) && h in chains && !chains[h].stage.Queued? && !stage.Queued?
    ensures AvailOk(ring, idx, submitted, taken, chains[h := chains[h].(stage := stage)])
  {}

  lemma AvailTake(chains: map<nat, Chain>, ring: seq<nat>, idx: nat, submitted: seq<nat>, taken: nat)
    requires AvailOk(ring, idx, submitted, taken, chains) && taken < |submitted|
    ensures var h := ring[taken % NUM]; h == submitted[taken] && h in chains && chains[h].stage == Queued(taken)
                                        && AvailOk(ring, idx, submitted, taken + 1,
                                            chains[h := chains[h].(stage := Taken)])
  {
    var h := submitted[taken];
    assert chains[h].stage == Queued(taken);
  }

  lemma AvailDrop(chains: map<nat, Chain>, ring: seq<nat>, idx: nat, submitted: seq<nat>, taken: nat, h: nat)
    requires AvailOk(ring, idx, submitted, taken, chains) && h in chains && !chains[h].stage.Queued?
    ensures AvailOk(ring, idx, submitted, taken, chains - {h})
  {}

  /** A stage other than used does not matter to the used ring. */
  lemma UsedStage(chains: map<nat, Chain>, elems: seq<nat>, id: nat, usedIdx: nat, completed: seq<nat>, handled: nat,
                  h: nat, c: Chain)
    requires UsedOk(elems, id, usedIdx, completed, handled, chains) && (h in chains ==> !chains[h].stage.Used?)
    requires !c.stage.Used?
    ensures UsedOk(elems, id, usedIdx, completed, handled, chains[h := c])
  {}

  lemma UsedAdd(free: seq<bool>, role: seq<int>, chains: map<nat, Chain>, elems: seq<nat>, id: nat, usedIdx: nat,
                completed: seq<nat>, handled: nat, h: nat)
    requires ChainsOk(free, role, chains) && UsedOk(elems, id, usedIdx, completed, handled, chains) && h in chains
    requires !chains[h].stage.Used?
    ensures UsedOk(elems[id % NUM := h], (id + 1) % U16, usedIdx, completed + [h], handled,
              chains[h := chains[h].(stage := Used(|completed|))])
  {
    hide ChainsOk;
    UsedTestExact(free, role, chains, elems, id, usedIdx, completed, handled);
    Mod16(|completed|);
    forall k: nat | handled <= k < |completed| ensures k % NUM != |completed| % NUM { NotSame(k, |completed|); }
  }

  lemma UsedHandle(chains: map<nat, Chain>, elems: seq<nat>, id: nat, usedIdx: nat, completed: seq<nat>, handled: nat)
    requires UsedOk(elems, id, usedIdx, completed, handled, chains) && handled < |completed|
    ensures usedIdx < NUM
    ensures var h := elems[usedIdx]; h == completed[handled] && h in chains && chains[h].stage == Used(handled)
                                     && UsedOk(elems, id, (usedIdx + 1) % NUM, completed, handled + 1,
                                         chains[h := chains[h].(stage := Handled)])
  {
    var h := completed[handled];
    assert chains[h].stage == Used(handled);
  }

  lemma UsedDrop(chains: map<nat, Chain>, elems: seq<nat>, id: nat, usedIdx: nat, completed: seq<nat>, handled: nat,
                 h: nat)
    requires UsedOk(elems, id, usedIdx, completed, handled, chains) && h in chains && !chains[h].stage.Used?
    ensures UsedOk(elems, id, usedIdx, completed, handled, chains - {h})
  {}

  /** disk_t, with the device's side of the rings and the disk behind it. */
  class VirtioDisk {
    var free: seq<bool>
    var desc: seq<Desc>
    var info: seq<Info>
    /** The avail ring: avail[2..] and avail[1]. */
    var ring: seq<nat>
    var availIdx: nat
    /** The used ring. */
    var elems: seq<nat>
    var usedId: nat
    var usedIdx: nat
    /** The buffers whose `disk` flag is set. */
    var busy: set<nat>
    var data: map<nat, Block>
    /** The bytes of the disk. */
    var platter: seq<Byte>
    /** Processes asleep on disk.free[0], and on a buffer. */
    var asleepFree: set<nat>
    var asleepOn: set<(nat, nat)>
    /** How many entries of the avail ring the device has taken. */
    var taken: nat
    ghost var role: seq<int>
    ghost var chains: map<nat, Chain>
    /** All heads ever published, and ever completed; how many completions were handled. */
    ghost var submitted: seq<nat>
    ghost var completed: seq<nat>
    ghost var handled: nat

    ghost predicate Valid()
      reads this
    {
      && ChainsOk(free, role, chains)
      && RequestsOk(desc, info, busy, chains)
      && AvailOk(ring, availIdx, submitted, taken, chains)
      && UsedOk(elems, usedId, usedIdx, completed, handled, chains)
      && SleepersOk(asleepFree, asleepOn, busy, chains)
      && Stored(chains, data)
    }

    /** virtio_disk_init */
    constructor (data: map<nat, Block>, platter: seq<Byte>)
      ensures Valid() && chains == map[] && this.data == data && this.platter == platter
    {
      this.data, this.platter := data, platter;
      free, role := seq(NUM, _ => true), seq(NUM, _ => -1);
      desc, info := seq(NUM, _ => Desc(Nowhere, 0, 0, 0)), seq(NUM, _ => Info(-1, 0));
      ring, availIdx, elems, usedId, usedIdx := seq(NUM, _ => 0), 0, seq(NUM, _ => 0), 0, 0;
      busy, asleepFree, asleepOn, taken := {}, {}, {}, 0;
      chains, submitted, completed, handled := map[], [], [], 0;
    }

    /** alloc_desc: the first free descriptor, -1 if and only if there is none. */
    method AllocDesc() returns (i: int)
      requires |free| == NUM
      modifies this`free
      ensures |free| == NUM && (i < 0 <==> forall k :: 0 <= k < NUM ==> !old(free)[k])
      ensures i < 0 ==> free == old(free)
      ensures i >= 0 ==>
                i < NUM && old(free)[i] && free == old(free)[i := false] && forall k :: 0 <= k < i ==> !old(free)[k]
    {
      i := 0;
      while i < NUM
        invariant 0 <= i <= NUM && free == old(free)
        invariant forall k :: 0 <= k < i ==> !free[k]
      {
        if free[i] {
          free := free[i := false];
          return;
        }
        i := i + 1;
      }
      return -1;
    }

    /** free_desc: panics (not ok) on a bad or free descriptor. */
    method FreeDesc(i: nat) returns (ok: bool)
      requires |free| == NUM && |desc| == NUM
      modifies this`free, this`desc, this`asleepFree
      ensures ok <==> i < NUM && !old(free)[i]
      ensures ok ==>
                && free == old(free)[i := true]
                && desc == old(desc)[i := old(desc)[i].(addr := Nowhere)]
                && asleepFree == {}
      ensures !ok ==> free == old(free) && desc == old(desc) && asleepFree == old(asleepFree)
    {
      if i >= NUM { return false; }
      if free[i] { return false; }
      desc := desc[i := desc[i].(addr := Nowhere)];
      free := free[i := true];
      asleepFree := {};
      return true;
    }

    /** free_chain: gives back the three descriptors of a chain, without a panic. */
    method FreeChain(h: nat, ghost c: Chain) returns (ok: bool)
      requires |free| == NUM && Says(desc, h, c) && h != c.d1 && h != c.d2 && c.d1 != c.d2
      requires !free[h] && !free[c.d1] && !free[c.d2]
      modifies this`free, this`desc, this`asleepFree
      ensures ok && asleepFree == {} && free == Set3(old(free), h, c.d1, c.d2, true)
      ensures |desc| == NUM
      ensures forall i: nat {:trigger desc[i]} :: i < NUM && !Member(h, c, i) ==> desc[i] == old(desc)[i]
    {
      var i := h;
      ghost var step := 0;
      while true
        invariant 0 <= step <= 2 && i == (if step == 0 then h else if step == 1 then c.d1 else c.d2)
        invariant |desc| == NUM && |free| == NUM
        invariant forall k: nat {:trigger desc[k]} :: k < NUM ==>
                    desc[k].flags == old(desc)[k].flags && desc[k].next == old(desc)[k].next &&
                        (!Member(h, c, k) ==> desc[k] == old(desc)[k])
        invariant free == (if step == 0 then old(free) else if step == 1 then old(free)[h := true]
                    else old(free)[h := true][c.d1 := true])
        decreases 2 - step
      {
        ok := FreeDesc(i);
        if desc[i].flags % 2 == 1 {
          i := desc[i].next;
          step := step + 1;
        } else {
          break;
        }
      }
    }

    /** alloc3_desc, its loop unrolled: three free descriptors, or none when fewer than three are free. */
    method Alloc3() returns (ok: bool, i0: nat, i1: nat, i2: nat)
      requires |free| == NUM && |desc| == NUM
      modifies this`free, this`desc, this`asleepFree
      ensures |free| == NUM && |desc| == NUM
      ensures ok <==> |FreeSet(old(free))| >= 3
      ensures ok ==>
                && i0 < NUM
                && i1 < NUM
                && i2 < NUM
                && i0 != i1
                && i0 != i2
                && i1 != i2
                && old(free)[i0]
                && old(free)[i1]
                && old(free)[i2]
      ensures ok ==> free == Set3(old(free), i0, i1, i2, false) && desc == old(desc) && asleepFree == old(asleepFree)
      ensures !ok ==>
                free == old(free) && forall i: nat {:trigger desc[i]} :: i < NUM && !free[i] ==> desc[i] == old(desc)[i]
      ensures !ok ==> asleepFree == {} || asleepFree == old(asleepFree)
    {
      i0, i1, i2 := 0, 0, 0;
      FreeLess(free);
      var a := AllocDesc();
      if a < 0 { return false, 0, 0, 0; }
      FreeLess(free);
      var b := AllocDesc();
      if b < 0 {
        var freed := FreeDesc(a);
        return false, 0, 0, 0;
      }
      FreeLess(free);
      var c := AllocDesc();
      if c < 0 {
        var freed := FreeDesc(a);
        freed := FreeDesc(b);
        return false, 0, 0, 0;
      }
      return true, a, b, c;
    }

    /** One attempt of virtio_disk_rw to start a request, by process `p` for buffer `b`: when three descriptors
        are free the request is published, and else the process goes to sleep. */
    method Submit(p: nat, b: nat, write: bool, block: nat) returns (started: bool, ghost h: nat, ghost c: Chain)
      requires Valid() && b in data
      requires NotInUse(chains, b)  // the caller holds the buffer
      modifies this
      ensures Valid() && data == old(data) && platter == old(platter)
      ensures started <==> |old(chains)| < 2
      ensures started ==> h !in old(chains) && chains == old(chains)[h := c] && submitted == old(submitted) + [h]
      ensures started ==> c.buf == b && c.write == write && c.stage == Queued(|old(submitted)|)
      // the header names the sector where the bytes of the block asked for begin, unless its number does not fit
      ensures started ==> h < |desc| && desc[h].addr.Header? && desc[h].addr.write == write
      ensures started && block < 0x2000_0000 ==>
                c.block == block && desc[h].addr.sector * SECTOR_SIZE == block * BLOCK_SIZE
      ensures started ==> c.block == Wrapped(block) && desc[h].addr.sector * SECTOR_SIZE == Wrapped(block) * BLOCK_SIZE
      ensures !started ==> chains == old(chains) && submitted == old(submitted) && p in asleepFree
      ensures completed == old(completed) && handled == old(handled) && taken == old(taken)
    {
      hide ChainsOk, RequestsOk, AvailOk, UsedOk, FreeSet, Says, Set3, Stored, NotInUse;
      Sizes(free, role, chains, desc, info, busy, ring, availIdx, submitted, taken);
      FreeCount(free, role, chains);
      ghost var free0, desc0 := free, desc;
      var i0, i1, i2;
      started, i0, i1, i2 := Alloc3();
      h, c := i0, Chain(i1, i2, b, write, Wrapped(block), Queued(|submitted|));
      if !started {
        RequestsDesc(free, role, desc0, info, busy, chains, desc);
        asleepFree := asleepFree + {p};
        return;
      }
      Publish(i0, i1, i2, b, write, block, c, free0);
      ReachedExactly(block);
    }

    /** The three descriptors of a request. */
    method Format(i0: nat, i1: nat, i2: nat, b: nat, write: bool, block: nat, ghost c: Chain)
      requires |desc| == NUM && i0 < NUM && i1 < NUM && i2 < NUM && i0 != i1 && i0 != i2 && i1 != i2
      requires c.d1 == i1 && c.d2 == i2 && c.buf == b && c.write == write && c.block == Wrapped(block)
      modifies this`desc
      ensures |desc| == NUM && Says(desc, i0, c) && desc[i0].addr == Header(write, Sector(block))
      ensures forall i: nat {:trigger desc[i]} :: i < NUM && i != i0 && i != i1 && i != i2 ==> desc[i] == old(desc)[i]
    {
      ReachedExactly(block);
      WrittenSays(desc, i0, c, block);
      desc := desc[i0 := Desc(Header(write, Sector(block)), 16, F_NEXT, i1)];
      desc := desc[i1 := Desc(Data(b), BLOCK_SIZE, if write then F_NEXT else F_WRITE + F_NEXT, i2)];
      desc := desc[i2 := Desc(Status(i0), 1, F_WRITE, 0)];
    }

    /** virtio_disk_rw from the formatting of the descriptors to the notification. */
    method Publish(i0: nat, i1: nat, i2: nat, b: nat, write: bool, block: nat, ghost c: Chain, ghost free0: seq<bool>)
      requires ChainsOk(free0, role, chains) && RequestsOk(desc, info, busy, chains)
      requires AvailOk(ring, availIdx, submitted, taken, chains)
      requires UsedOk(elems, usedId, usedIdx, completed, handled, chains)
      requires SleepersOk(asleepFree, asleepOn, busy, chains)
      requires Stored(chains, data) && NotInUse(chains, b)
      requires asleepFree == {} && b in data && c.d1 == i1 && c.d2 == i2 && c.buf == b
      requires c.write == write && c.block == Wrapped(block) && c.stage == Queued(|submitted|)
      requires i0 < NUM && i1 < NUM && i2 < NUM && i0 != i1 && i0 != i2 && i1 != i2 && |free0| == NUM && free0[i0]
      requires free0[i1] && free0[i2]
      requires free == Set3(free0, i0, i1, i2, false)
      modifies this`desc, this`info, this`ring, this`availIdx, this`busy, this`role, this`submitted, this`chains
      ensures Valid() && i0 !in old(chains) && chains == old(chains)[i0 := c] && submitted == old(submitted) + [i0]
      ensures |desc| == NUM && desc[i0].addr == Header(write, Sector(block))
    {
      hide ChainsOk, RequestsOk, AvailOk, UsedOk, Says, FreeSet, Set3, Stored, NotInUse, SleepersOk;
      StoredAdd(chains, data, i0, c);
      SleepersAdd(asleepOn, busy, chains, i0, c);
      Sizes(free0, role, chains, desc, info, busy, ring, availIdx, submitted, taken);
      ghost var desc0 := desc;
      Format(i0, i1, i2, b, write, block, c);
      PublishOk(free0, role, chains, desc0, info, busy, ring, availIdx, submitted, taken, elems, usedId, usedIdx,
          completed, handled, desc, i0, c);
      MarkBusy(i0, b, c);
      Announce(i0, c);
    }

    /** The buffer of a request is busy, and its three descriptors belong to its head. */
    method MarkBusy(i0: nat, b: nat, ghost c: Chain)
      requires i0 < NUM && c.d1 < NUM && c.d2 < NUM && |info| == NUM && |role| == NUM
      modifies this`info, this`busy, this`role
      ensures info == old(info)[i0 := Info(b, 0)] && busy == old(busy) + {b}
      ensures role == Set3(old(role), i0, c.d1, c.d2, i0)
    {
      hide Set3;
      busy, info, role := busy + {b}, info[i0 := Info(b, 0)], Set3(role, i0, c.d1, c.d2, i0);
    }

    /** The request is entered in the avail ring and the device is notified. */
    method Announce(i0: nat, ghost c: Chain)
      requires i0 < NUM && |ring| == NUM
      requires ChainsOk(free, role, chains[i0 := c]) && RequestsOk(desc, info, busy, chains[i0 := c])
      requires AvailOk(ring[availIdx % NUM := i0], (availIdx + 1) % U16, submitted + [i0], taken, chains[i0 := c])
      requires UsedOk(elems, usedId, usedIdx, completed, handled, chains[i0 := c])
      requires SleepersOk(asleepFree, asleepOn, busy, chains[i0 := c]) && Stored(chains[i0 := c], data)
      modifies this`ring, this`availIdx, this`submitted, this`chains
      ensures Valid() && chains == old(chains)[i0 := c] && submitted == old(submitted) + [i0]
    {
      hide Valid, ChainsOk, RequestsOk, AvailOk, UsedOk, SleepersOk, Stored;
      ring, availIdx := ring[availIdx % NUM := i0], (availIdx + 1) % U16;
      submitted, chains := submitted + [i0], chains[i0 := c];
      Assembled();
    }

    lemma Assembled()
      requires ChainsOk(free, role, chains) && RequestsOk(desc, info, busy, chains)
      requires AvailOk(ring, availIdx, submitted, taken, chains)
      requires UsedOk(elems, usedId, usedIdx, completed, handled, chains)
      requires SleepersOk(asleepFree, asleepOn, busy, chains)
      requires Stored(chains, data)
      ensures Valid()
    {
      hide ChainsOk, RequestsOk, AvailOk, UsedOk, SleepersOk, Stored;
    }

    /** The device takes the next entry of the avail ring: it is the oldest request not taken yet. */
    method DeviceTake() returns (h: nat)
      requires Valid() && taken < |submitted|
      modifies this`taken, this`chains
      ensures Valid() && taken == old(taken) + 1 && h == submitted[old(taken)] && h in old(chains)
      ensures chains == old(chains)[h := old(chains)[h].(stage := Taken)]
    {
      hide ChainsOk, RequestsOk, AvailOk, UsedOk, Stored, SleepersOk;
      Sizes(free, role, chains, desc, info, busy, ring, availIdx, submitted, taken);
      AvailTake(chains, ring, availIdx, submitted, taken);
      h := ring[taken % NUM];
      StageOk(h, Taken);
      UsedStage(chains, elems, usedId, usedIdx, completed, handled, h, chains[h].(stage := Taken));
      chains := chains[h := chains[h].(stage := Taken)];
      taken := taken + 1;
    }

    /** A stage before `Handled` matters neither to the chains nor to the requests. */
    lemma StageOk(h: nat, stage: Stage)
      requires Valid() && h in chains && !chains[h].stage.Handled? && !stage.Handled?
      ensures var now := chains[h := chains[h].(stage := stage)];
              && ChainsOk(free, role, now) && RequestsOk(desc, info, busy, now)
              && SleepersOk(asleepFree, asleepOn, busy, now) && Stored(now, data)
    {
      hide AvailOk, UsedOk, SleepersOk, ChainsOk;
      ChainsStage(free, role, chains, h, stage);
      RequestsStage(desc, info, busy, chains, info, h, stage);
      SleepersSame(asleepFree, asleepOn, busy, chains, h, chains[h].(stage := stage));
    }

    /** The device carries out a request it has taken, whichever it chooses: it moves exactly the bytes of one block
        between the buffer and the disk, writes the status byte and adds the request to the used ring.  A block that
        the disk does not have moves nothing and has an error for its status. */
    method DeviceComplete(h: nat, status: nat)
      requires Valid() && h in chains && chains[h].stage == Taken
      modifies this`data, this`platter, this`info, this`elems, this`usedId, this`completed, this`chains
      ensures Valid() && completed == old(completed) + [h]
      ensures chains == old(chains)[h := old(chains)[h].(stage := Used(|old(completed)|))]
      ensures h in old(chains) && old(chains)[h].buf in old(data)
      ensures var there := OnDisk(old(platter), old(chains)[h].block);
              info == old(info)[h := old(info)[h].(status := Answer(status, there))]
      ensures |platter| == |old(platter)|
      ensures var c := old(chains)[h];
              if !OnDisk(old(platter), c.block) then data == old(data) && platter == old(platter)
              else if c.write then data == old(data) && platter == WithBytes(old(platter), c.block, old(data)[c.buf])
              else platter == old(platter) && data == old(data)[c.buf := BytesOf(platter, c.block)]
    {
      hide ChainsOk, AvailOk, UsedOk, SleepersOk, RequestsOk, Says, Stored, WithBytes, BytesOf, OnDisk;
      Bounds();
      Sizes(free, role, chains, desc, info, busy, ring, availIdx, submitted, taken);
      ghost var c := chains[h];
      InfoOf(desc, info, busy, chains, h);
      SaysBounds(desc, h, c);
      ghost var there := OnDisk(platter, c.block);
      CompleteOk(h, Answer(status, there));
      StoredMove(chains, data, h);
      var tail, moved := Transfer(h, c);
      Report(h, tail, Answer(status, moved), c.(stage := Used(|completed|)));
    }

    /** The device writes the status byte and the used ring. */
    method Report(h: nat, tail: nat, status: nat, ghost now: Chain)
      requires tail == h < |info| && |elems| == NUM
      requires ChainsOk(free, role, chains[h := now])
      requires RequestsOk(desc, info[h := info[h].(status := status)], busy, chains[h := now])
      requires AvailOk(ring, availIdx, submitted, taken, chains[h := now])
      requires SleepersOk(asleepFree, asleepOn, busy, chains[h := now])
      requires UsedOk(elems[usedId % NUM := h], (usedId + 1) % U16, usedIdx, completed + [h], handled, chains[h := now])
      requires Stored(chains[h := now], data)
      modifies this`info, this`elems, this`usedId, this`completed, this`chains
      ensures Valid() && completed == old(completed) + [h] && chains == old(chains)[h := now]
      ensures info == old(info)[h := old(info)[h].(status := status)]
    {
      hide ChainsOk, AvailOk, UsedOk, SleepersOk, RequestsOk, Stored;
      info := info[tail := info[tail].(status := status)];
      chains := chains[h := now];
      elems, usedId, completed := elems[usedId % NUM := h], (usedId + 1) % U16, completed + [h];
    }

    /** The device follows the chain of a request and moves as many bytes as its second descriptor has, from the
        sector in the header on; `tail` is where the status goes.  It only writes to memory of descriptors marked
        for writing, and only reads from that of others (section 2.6.5). */
    method Transfer(h: nat, ghost c: Chain) returns (tail: nat, moved: bool)
      requires |desc| == NUM && h < NUM && c.d1 < NUM && c.d2 < NUM && Says(desc, h, c) && c.buf in data
      modifies this`data, this`platter
      ensures tail == h && |platter| == |old(platter)| && moved == OnDisk(old(platter), c.block)
      ensures if !moved then data == old(data) && platter == old(platter)
              else if c.write then data == old(data) && platter == WithBytes(old(platter), c.block, old(data)[c.buf])
              else platter == old(platter) && data == old(data)[c.buf := BytesOf(platter, c.block)]
    {
      var head := desc[h];
      var body := desc[head.next];
      var from := head.addr.sector * SECTOR_SIZE;
      var memory := data[body.addr.buf];
      tail, moved := NUM, from + body.len <= |platter|;
      if !moved {
        // nothing to move
      } else if head.addr.write && Readable(body) {
        platter := platter[..from] + memory[..body.len] + platter[from + body.len..];
      } else if !head.addr.write && Writable(body) {
        assert platter[from..from + body.len] + memory[body.len..] == BytesOf(platter, c.block);
        data := data[body.addr.buf := platter[from..from + body.len] + memory[body.len..]];
      }
      if Writable(desc[body.next]) { tail := desc[body.next].addr.i; }
    }

    lemma CompleteOk(h: nat, status: nat)
      requires Valid() && h in chains && chains[h].stage == Taken && h < |info| && |elems| == NUM
      ensures var now := chains[h := chains[h].(stage := Used(|completed|))];
              && ChainsOk(free, role, now) && RequestsOk(desc, info[h := info[h].(status := status)], busy, now)
              && AvailOk(ring, availIdx, submitted, taken, now) && SleepersOk(asleepFree, asleepOn, busy, now)
              && UsedOk(elems[usedId % NUM := h], (usedId + 1) % U16, usedIdx, completed + [h], handled, now)
    {
      hide ChainsOk, AvailOk, UsedOk, SleepersOk, RequestsOk, Stored;
      Sizes(free, role, chains, desc, info, busy, ring, availIdx, submitted, taken);
      ghost var stage := Used(|completed|);
      UsedAdd(free, role, chains, elems, usedId, usedIdx, completed, handled, h);
      AvailStage(chains, ring, availIdx, submitted, taken, h, stage);
      ChainsStage(free, role, chains, h, stage);
      SleepersSame(asleepFree, asleepOn, busy, chains, h, chains[h].(stage := stage));
      RequestsStage(desc, info, busy, chains, info[h := info[h].(status := status)], h, stage);
    }

    /** virtio_disk_intr: handles every completion that has not been handled, in order and each once;
        panics (not ok) at the first one whose status is not 0. */
    method Intr() returns (ok: bool)
      requires Valid()
      modifies this`busy, this`asleepOn, this`usedIdx, this`handled, this`chains
      ensures Valid() && old(handled) <= handled <= |completed|
      ensures ok <==> forall k: nat :: old(handled) <= k < |completed| ==> info[completed[k]].status == 0
      ensures ok ==> handled == |completed|
      ensures HandledSince(old(chains), chains, completed[old(handled)..handled])
    {
      hide ChainsOk, RequestsOk, AvailOk, UsedOk, SleepersOk, Stored, HandledSince, Valid;
      ghost var handled0, chains0 := handled, chains;
      Bounds();
      HandledNone(chains);
      assert completed[handled0..handled0] == [];
      while usedIdx % NUM != usedId % NUM
        invariant Valid() && handled0 <= handled <= |completed| && |info| == NUM
        invariant forall k: nat :: handled0 <= k < handled ==> completed[k] < NUM && info[completed[k]].status == 0
        invariant HandledSince(chains0, chains, completed[handled0..handled])
        decreases |completed| - handled
      {
        Bounds();
        NextUsed();
        var id := elems[usedIdx];
        if info[id].status != 0 { return false; }
        assert completed[handled0..handled + 1] == completed[handled0..handled] + [id];
        HandledMore(chains0, chains, completed[handled0..handled], id);
        Handle(id);
      }
      Bounds();
      return true;
    }

    lemma NextUsed()
      requires Valid() && handled < |completed|
      ensures usedIdx < |elems| && elems[usedIdx] == completed[handled] && completed[handled] in chains
      ensures chains[completed[handled]].stage == Used(handled)
    {
      hide ChainsOk, RequestsOk, AvailOk, SleepersOk, Stored;
    }

    lemma Bounds()
      requires Valid()
      ensures handled <= |completed| && |info| == NUM && |elems| == NUM
      ensures usedIdx % NUM != usedId % NUM <==> handled < |completed|
      ensures forall k: nat :: handled <= k < |completed| ==> completed[k] < NUM && completed[k] in chains
    {
      UsedTestExact(free, role, chains, elems, usedId, usedIdx, completed, handled);
    }

    /** One round of virtio_disk_intr. */
    method Handle(id: nat)
      requires Valid() && handled < |completed| && id == completed[handled] && id in chains
      requires chains[id].stage == Used(handled)
      modifies this`busy, this`asleepOn, this`usedIdx, this`handled, this`chains
      ensures Valid() && handled == old(handled) + 1 && chains == old(chains)[id := old(chains)[id].(stage := Handled)]
      ensures busy == old(busy) - {old(chains)[id].buf}
    {
      hide ChainsOk, AvailOk, UsedOk, SleepersOk, RequestsOk, Stored;
      ghost var c := chains[id];
      HandleOk(id);
      InfoOf(desc, info, busy, chains, id);
      var b := info[id].buf as nat;
      busy := busy - {b};
      asleepOn := set p | p in asleepOn && p.1 != b;
      chains := chains[id := c.(stage := Handled)];
      CountHandled();
    }

    /** `disk.used_idx = (disk.used_idx + 1) % NUM` */
    method CountHandled()
      requires ChainsOk(free, role, chains) && RequestsOk(desc, info, busy, chains)
      requires AvailOk(ring, availIdx, submitted, taken, chains)
      requires UsedOk(elems, usedId, (usedIdx + 1) % NUM, completed, handled + 1, chains)
      requires SleepersOk(asleepFree, asleepOn, busy, chains) && Stored(chains, data)
      modifies this`usedIdx, this`handled
      ensures Valid() && handled == old(handled) + 1
    {
      hide Valid, ChainsOk, AvailOk, UsedOk, SleepersOk, RequestsOk, Stored;
      usedIdx, handled := (usedIdx + 1) % NUM, handled + 1;
      Assembled();
    }

    lemma HandleOk(id: nat)
      requires Valid() && handled < |completed| && id == completed[handled] && id in chains
      requires chains[id].stage == Used(handled)
      ensures var now := chains[id := chains[id].(stage := Handled)]; var b := chains[id].buf;
              && ChainsOk(free, role, now) && RequestsOk(desc, info, busy - {b}, now)
              && AvailOk(ring, availIdx, submitted, taken, now)
              && UsedOk(elems, usedId, (usedIdx + 1) % NUM, completed, handled + 1, now)
              && SleepersOk(asleepFree, (set p | p in asleepOn && p.1 != b), busy - {b}, now)
              && Stored(now, data)
    {
      hide ChainsOk, AvailOk, UsedOk, SleepersOk, RequestsOk, Stored;
      Bounds();
      InfoOf(desc, info, busy, chains, id);
      UsedHandle(chains, elems, usedId, usedIdx, completed, handled);
      ChainsStage(free, role, chains, id, Handled);
      AvailStage(chains, ring, availIdx, submitted, taken, id, Handled);
      RequestsStage(desc, info, busy, chains, info, id, Handled);
      SleepersWake(asleepFree, asleepOn, busy, chains, id, chains[id].(stage := Handled));
      StoredSame(chains, data, id, Handled);
    }

    /** The end of virtio_disk_rw, by process `p` with request `h`: it goes on only when its own request has been
        completed and handled, and then gives the three descriptors back; else it goes to sleep. */
    method Poll(p: nat, h: nat) returns (done: bool, ok: bool)
      requires Valid() && h in chains
      modifies this`info, this`free, this`desc, this`asleepFree, this`asleepOn, this`role, this`chains
      ensures Valid() && ok
      ensures done <==> old(chains)[h].stage.Handled?
      ensures chains == if done then old(chains) - {h} else old(chains)
      ensures done ==> asleepFree == {}
      ensures !done ==> (p, old(chains)[h].buf) in asleepOn
    {
      hide ChainsOk, AvailOk, UsedOk, SleepersOk, Says, RequestsOk, Stored, Set3;
      Sizes(free, role, chains, desc, info, busy, ring, availIdx, submitted, taken);
      InfoOf(desc, info, busy, chains, h);
      ghost var c := chains[h];
      var b := info[h].buf as nat;
      if b in busy {
        SleepersJoin(asleepFree, asleepOn, busy, chains, p, b);
        asleepOn := asleepOn + {(p, b)};
        return false, true;
      }
      ghost var free0, desc0, info0 := free, desc, info;
      ChainsDrop(free, role, chains, h);
      info := info[h := info[h].(buf := -1)];
      ok := FreeChain(h, c);
      DropOk(free0, role, chains, desc0, info0, busy, desc, info, h);
      AvailDrop(chains, ring, availIdx, submitted, taken, h);
      UsedDrop(chains, elems, usedId, usedIdx, completed, handled, h);
      SleepersDrop(asleepOn, busy, chains, h);
      StoredDrop(chains, data, h);
      role := Set3(role, h, c.d1, c.d2, -1);
      chains := chains - {h};
      return true, ok;
    }
  }

  lemma SleepersSame(asleepFree: set<nat>, asleepOn: set<(nat, nat)>, busy: set<nat>, chains: map<nat, Chain>, h: nat,
                     c: Chain)
    requires SleepersOk(asleepFree, asleepOn, busy, chains) && h in chains
    ensures SleepersOk(asleepFree, asleepOn, busy, chains[h := c])
  {
    assert chains[h := c].Keys == chains.Keys;
    assert |chains[h := c]| == |chains[h := c].Keys| && |chains| == |chains.Keys|;
  }

  lemma SleepersWake(asleepFree: set<nat>, asleepOn: set<(nat, nat)>, busy: set<nat>, chains: map<nat, Chain>, h: nat,
                     c: Chain)
    requires SleepersOk(asleepFree, asleepOn, busy, chains) && h in chains
    ensures SleepersOk(asleepFree, (set p | p in asleepOn && p.1 != c.buf), busy - {c.buf}, chains[h := c])
  {
    assert chains[h := c].Keys == chains.Keys;
    assert |chains[h := c]| == |chains[h := c].Keys| && |chains| == |chains.Keys|;
  }

  lemma SleepersJoin(asleepFree: set<nat>, asleepOn: set<(nat, nat)>, busy: set<nat>, chains: map<nat, Chain>, p: nat,
                     b: nat)
    requires SleepersOk(asleepFree, asleepOn, busy, chains) && b in busy
    ensures SleepersOk(asleepFree, asleepOn + {(p, b)}, busy, chains)
  {}

  lemma SleepersDrop(asleepOn: set<(nat, nat)>, busy: set<nat>, chains: map<nat, Chain>, h: nat)
    requires exists asleepFree :: SleepersOk(asleepFree, asleepOn, busy, chains)
    ensures SleepersOk({}, asleepOn, busy, chains - {h})
  {}

  lemma SaysBounds(desc: seq<Desc>, h: nat, c: Chain)
    requires Says(desc, h, c)
    ensures c.d1 < NUM && c.d2 < NUM
  {}

  lemma InfoOf(desc: seq<Desc>, info: seq<Info>, busy: set<nat>, chains: map<nat, Chain>, h: nat)
    requires RequestsOk(desc, info, busy, chains) && h in chains
    ensures |desc| == NUM && |info| == NUM && h < NUM && info[h].buf == chains[h].buf && Says(desc, h, chains[h])
    ensures chains[h].buf in busy <==> !chains[h].stage.Handled?
  {}

  /** The requests in `seen` have become handled, and no other request has changed. */
  ghost predicate HandledSince(chains0: map<nat, Chain>, chains: map<nat, Chain>, seen: seq<nat>) {
    && chains.Keys == chains0.Keys
    && forall h {:trigger chains[h]} :: h in chains ==>
        chains[h] == if h in seen then chains0[h].(stage := Handled) else chains0[h]
  }

  lemma HandledNone(chains: map<nat, Chain>)
    ensures HandledSince(chains, chains, [])
  {}

  lemma HandledMore(chains0: map<nat, Chain>, chains: map<nat, Chain>, seen: seq<nat>, h: nat)
    requires HandledSince(chains0, chains, seen) && h in chains
    ensures HandledSince(chains0, chains[h := chains[h].(stage := Handled)], seen + [h])
  {}

  lemma StoredMove(chains: map<nat, Chain>, data: map<nat, Block>, h: nat)
    requires Stored(chains, data) && h in chains
    ensures chains[h].buf in data
    ensures forall stage, d: map<nat, Block> {:trigger Stored(chains[h := chains[h].(stage := stage)], d)} ::
              d.Keys == data.Keys ==> Stored(chains[h := chains[h].(stage := stage)], d)
  {}

  lemma StoredSame(chains: map<nat, Chain>, data: map<nat, Block>, h: nat, stage: Stage)
    requires Stored(chains, data) && h in chains
    ensures Stored(chains[h := chains[h].(stage := stage)], data)
  {}

  lemma StoredDrop(chains: map<nat, Chain>, data: map<nat, Block>, h: nat)
    requires Stored(chains, data)
    ensures Stored(chains - {h}, data)
  {}

  lemma DropOk(free: seq<bool>, role: seq<int>, chains: map<nat, Chain>, desc: seq<Desc>, info: seq<Info>,
               busy: set<nat>, desc1: seq<Desc>, info1: seq<Info>, h: nat)
    requires ChainsOk(free, role, chains) && RequestsOk(desc, info, busy, chains) && h in chains && h < NUM
    requires |desc1| == NUM
    requires forall i: nat {:trigger desc1[i]} :: i < NUM && !Member(h, chains[h], i) ==> desc1[i] == desc[i]
    requires |info| == NUM && info1 == info[h := info[h].(buf := -1)]
    ensures RequestsOk(desc1, info1, busy, chains - {h})
  {
    hide RequestsOk, Says;
    Three(free, role, chains, h);
    assert |desc| == NUM by { Lengths(desc, info, busy, chains); }
    RequestsDrop(free, role, desc, info, busy, chains, desc1, info1, h);
  }

  lemma Lengths(desc: seq<Desc>, info: seq<Info>, busy: set<nat>, chains: map<nat, Chain>)
    requires RequestsOk(desc, info, busy, chains)
    ensures |desc| == NUM && |info| == NUM
  {}

  lemma PublishOk(free: seq<bool>, role: seq<int>, chains: map<nat, Chain>, desc0: seq<Desc>, info: seq<Info>,
                  busy: set<nat>, ring: seq<nat>, idx: nat, submitted: seq<nat>, taken: nat, elems: seq<nat>, id: nat,
                  usedIdx: nat, completed: seq<nat>, handled: nat, desc: seq<Desc>, h: nat, c: Chain)
    requires ChainsOk(free, role, chains) && RequestsOk(desc0, info, busy, chains)
    requires AvailOk(ring, idx, submitted, taken, chains)
    requires UsedOk(elems, id, usedIdx, completed, handled, chains)
    requires h < NUM && c.d1 < NUM && c.d2 < NUM && h != c.d1 && h != c.d2 && c.d1 != c.d2 && |free| == NUM && free[h]
    requires free[c.d1] && free[c.d2]
    requires |desc| == NUM && Says(desc, h, c) && c.stage == Queued(|submitted|)
    requires forall i: nat {:trigger desc[i]} :: i < NUM && i != h && i != c.d1 && i != c.d2 ==> desc[i] == desc0[i]
    requires NotInUse(chains, c.buf)
    ensures h !in chains
    ensures ChainsOk(Set3(free, h, c.d1, c.d2, false), Set3(role, h, c.d1, c.d2, h), chains[h := c])
    ensures RequestsOk(desc, info[h := Info(c.buf, 0)], busy + {c.buf}, chains[h := c])
    ensures AvailOk(ring[idx % NUM := h], (idx + 1) % U16, submitted + [h], taken, chains[h := c])
    ensures UsedOk(elems, id, usedIdx, completed, handled, chains[h := c])
  {
    hide ChainsOk, RequestsOk, AvailOk, UsedOk, Says;
    Sizes(free, role, chains, desc0, info, busy, ring, idx, submitted, taken);
    ChainsAdd(free, role, chains, Set3(free, h, c.d1, c.d2, false), h, c);
    RequestsAdd(free, role, desc0, info, busy, chains, desc, info[h := Info(c.buf, 0)], h, c);
    AvailAdd(free, role, chains, ring, idx, submitted, taken, h, c);
    UsedStage(chains, elems, id, usedIdx, completed, handled, h, c);
  }

  lemma WrittenSays(desc: seq<Desc>, h: nat, c: Chain, block: nat)
    requires |desc| == NUM && h < NUM && c.d1 < NUM && c.d2 < NUM && h != c.d1 && h != c.d2 && c.d1 != c.d2
    requires Sector(block) * SECTOR_SIZE == c.block * BLOCK_SIZE
    ensures var d := desc[h := Desc(Header(c.write, Sector(block)), 16, F_NEXT, c.d1)]
                         [c.d1 := Desc(Data(c.buf), BLOCK_SIZE, if c.write then F_NEXT else F_WRITE + F_NEXT, c.d2)]
                         [c.d2 := Desc(Status(h), 1, F_WRITE, 0)];
            Says(d, h, c) && |d| == NUM && forall i: nat {:trigger d[i]} :: i < NUM && !Member(h, c, i) ==>
                d[i] == desc[i]
  {}

  lemma Sizes(free: seq<bool>, role: seq<int>, chains: map<nat, Chain>, desc: seq<Desc>, info: seq<Info>,
              busy: set<nat>, ring: seq<nat>, idx: nat, submitted: seq<nat>, taken: nat)
    requires ChainsOk(free, role, chains) && RequestsOk(desc, info, busy, chains)
    requires AvailOk(ring, idx, submitted, taken, chains)
    ensures |free| == NUM && |role| == NUM && |info| == NUM && |ring| == NUM
    ensures |desc| == NUM
  {}

  /** Free descriptors do not matter to the requests. */
  lemma RequestsDesc(free: seq<bool>, role: seq<int>, desc: seq<Desc>, info: seq<Info>, busy: set<nat>,
                     chains: map<nat, Chain>, desc1: seq<Desc>)
    requires ChainsOk(free, role, chains) && RequestsOk(desc, info, busy, chains) && |desc| == NUM && |desc1| == NUM
    requires forall i: nat {:trigger desc1[i]} :: i < NUM && !free[i] ==> desc1[i] == desc[i]
    ensures RequestsOk(desc1, info, busy, chains)
  {
    hide Says;
    forall k | k in chains ensures Says(desc1, k, chains[k]) {
      assert OwnsThree(role, k, chains[k]);
      SaysSame(desc, desc1, k, chains[k]);
    }
  }

  /** Taking one of the free descriptors leaves one less. */
  lemma FreeLess(free: seq<bool>)
    requires |free| == NUM
    ensures (forall k :: 0 <= k < NUM ==> !free[k]) <==> |FreeSet(free)| == 0
    ensures forall i: nat {:trigger free[i := false]} :: i < NUM && free[i] ==>
              |FreeSet(free[i := false])| == |FreeSet(free)| - 1
  {
    forall i: nat | i < NUM && free[i] ensures |FreeSet(free[i := false])| == |FreeSet(free)| - 1 {
      assert FreeSet(free[i := false]) == FreeSet(free) - {i};
    }
    if k: nat :| k < NUM && free[k] { assert k in FreeSet(free); }
  }
}
