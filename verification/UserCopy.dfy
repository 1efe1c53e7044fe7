/** Copying between kernel buffers and user pages (uvm_copyin, uvm_copyout of mem/uvm.c). */
module UserCopy {
  import opened Memory
  import opened RadixForest
  import opened PageTree
  import opened PageTables
  import Pmem

  /** User code may write, or read, the byte at address `a`. */
  ghost predicate Can(m: Mem, root: nat, a: nat, write: bool) {
    a < VA_MAX && var e := Pte(m, root, a / PGSIZE); IsValid(e) && User(e) && if write then Writable(e) else Readable(e)
  }

  /** User code may write, or read, the `n` bytes from `a` on. */
  ghost predicate CanAll(m: Mem, root: nat, a: nat, n: nat, write: bool) {
    forall x: nat {:trigger Can(m, root, x, write)} :: a <= x < a + n ==> Can(m, root, x, write)
  }

  ghost predicate IsUser(m: Mem, root: nat, a: nat) {
    a < VA_MAX && var e := Pte(m, root, a / PGSIZE); IsValid(e) && User(e)
  }

  /** The byte user code finds at address `a`. */
  ghost function UserByte(m: Mem, frames: map<nat, Page>, root: nat, a: nat): Byte {
    var b := Pa(Pte(m, root, a / PGSIZE));
    if b in frames then frames[b][a % PGSIZE] else 0
  }

  /** The `n` bytes user code finds from address `a` on. */
  ghost function UserBytes(m: Mem, frames: map<nat, Page>, root: nat, a: nat, n: nat): (r: seq<Byte>)
    ensures |r| == n && forall k: nat :: k < n ==> r[k] == UserByte(m, frames, root, a + k)
  {
    if n == 0 then [] else UserBytes(m, frames, root, a, n - 1) + [UserByte(m, frames, root, a + n - 1)]
  }

  /** `n` bytes from address `a` on lie in one page. */
  predicate Fits(a: nat, n: nat) { a % PGSIZE + n <= PGSIZE }

  /** Bytes `data` in place of the bytes at `off`. */
  function Patch(page: Page, off: nat, data: seq<Byte>): (p: Page)
    requires off + |data| <= PGSIZE
    ensures forall k :: 0 <= k < PGSIZE ==> p[k] == if off <= k < off + |data| then data[k - off] else page[k]
  {
    page[..off] + data + page[off + |data|..]
  }

  /** The addresses from `a` on carry `data`; every other user byte of every table is unchanged. */
  ghost predicate Stored(m: Mem, was: map<nat, Page>, now: map<nat, Page>, root: nat, a: nat, data: seq<Byte>) {
    && was.Keys == now.Keys
    && forall q: nat, x: nat {:trigger UserByte(m, now, q, x)} :: IsUser(m, q, x) ==>
         UserByte(m, now, q, x) == if q == root && a <= x < a + |data| then data[x - a] else UserByte(m, was, q, x)
  }

  /** Part of one page. */
  function Chunk(a: nat, left: nat): (n: nat)
    requires left > 0
    ensures 0 < n <= left && Fits(a, n)
  {
    if PGSIZE - a % PGSIZE < left then PGSIZE - a % PGSIZE else left
  }

  lemma SamePage(a: nat)
    ensures forall x: nat :: a <= x < a + (PGSIZE - a % PGSIZE) ==>
              x / PGSIZE == a / PGSIZE && x % PGSIZE == a % PGSIZE + (x - a)
  {
    forall x: nat | a <= x < a + (PGSIZE - a % PGSIZE)
      ensures x / PGSIZE == a / PGSIZE && x % PGSIZE == a % PGSIZE + (x - a)
    {
      assert x == a / PGSIZE * PGSIZE + (a % PGSIZE + (x - a));
    }
  }

  /** The lookup and permission check shared by both directions. */
  method Locate(vm: Vm, root: nat, va: nat, write: bool) returns (pa: nat, ok: bool)
    requires vm.Valid() && root in vm.roots
    ensures ok <==> Can(vm.View(), root, va, write)
    ensures ok ==> pa == Pa(Pte(vm.View(), root, va / PGSIZE)) && pa in vm.frames && IsUser(vm.View(), root, va)
  {
    OwnZero();
    hide Vm.Valid, Vm.View, Pte, Vm.At, IsValid, Readable, Writable, User, Pa;
    var w := vm.GetPte(root, va, false);
    if !w.Slot? { return 0, false; }
    var pte := vm.tables[w.table][w.idx];
    if !IsValid(pte) || !User(pte) { return 0, false; }
    if write && !Writable(pte) { return 0, false; }
    if !write && !Readable(pte) { return 0, false; }
    FrameThere(vm, root, va);
    return Pa(pte), true;
  }

  /** uvm_copyin: panics (not ok) when a byte of the range may not be read. */
  method CopyIn(vm: Vm, root: nat, src: nat, len: nat) returns (data: seq<Byte>, ok: bool)
    requires vm.Valid() && root in vm.roots
    ensures ok <==> CanAll(vm.View(), root, src, len, false)
    ensures ok ==> data == UserBytes(vm.View(), vm.frames, root, src, len)
  {
    hide Vm.Valid, Vm.View, Pte, Pa, Can, CanAll, IsUser, UserBytes, Chunk, Fits;
    CanNone(vm.View(), vm.frames, root, src, false);
    data := [];
    var copied := 0;
    while copied < len
      invariant copied <= len
      invariant CanAll(vm.View(), root, src, copied, false)
      invariant data == UserBytes(vm.View(), vm.frames, root, src, copied)
    {
      var va := src + copied;
      var off := va % PGSIZE;
      var pa, readable := Locate(vm, root, va, false);
      if !readable {
        CanNot(vm.View(), root, src, copied, len, false);
        return [], false;
      }
      var n := Chunk(va, len - copied);
      CanMore(vm.View(), root, src, copied, n, false);
      BytesMore(vm.View(), vm.frames, root, src, copied, pa, n);
      FitsPage(va, n);
      data := data + vm.frames[pa][off..off + n];
      copied := copied + n;
    }
    return data, true;
  }

  lemma FitsPage(a: nat, n: nat)
    requires Fits(a, n)
    ensures a % PGSIZE + n <= PGSIZE
  {}

  lemma CanNone(m: Mem, frames: map<nat, Page>, root: nat, a: nat, write: bool)
    ensures CanAll(m, root, a, 0, write) && UserBytes(m, frames, root, a, 0) == []
  {}

  /** What holds of the next address holds of the chunk. */
  lemma CanMore(m: Mem, root: nat, a: nat, k: nat, n: nat, write: bool)
    requires CanAll(m, root, a, k, write) && Can(m, root, a + k, write) && Fits(a + k, n)
    ensures CanAll(m, root, a, k + n, write)
  {
    hide Pte, IsValid, Readable, Writable, User;
    forall x: nat | a + k <= x < a + k + n ensures x < VA_MAX && x / PGSIZE == (a + k) / PGSIZE { SamePage(a + k); }
  }

  lemma CanNot(m: Mem, root: nat, a: nat, k: nat, n: nat, write: bool)
    requires k < n && !Can(m, root, a + k, write)
    ensures !CanAll(m, root, a, n, write)
  {
    hide Can;
  }

  lemma BytesMore(m: Mem, frames: map<nat, Page>, root: nat, a: nat, k: nat, pa: nat, n: nat)
    requires Fits(a + k, n) && pa == Pa(Pte(m, root, (a + k) / PGSIZE)) && pa in frames
    ensures UserBytes(m, frames, root, a, k + n) ==
              UserBytes(m, frames, root, a, k) + frames[pa][(a + k) % PGSIZE..(a + k) % PGSIZE + n]
  {
    hide Pte, Pa;
    var before, after := UserBytes(m, frames, root, a, k), UserBytes(m, frames, root, a, k + n);
    var chunk := frames[pa][(a + k) % PGSIZE..(a + k) % PGSIZE + n];
    forall j: nat | j < k + n ensures after[j] == (before + chunk)[j] {
      if j >= k {
        SamePage(a + k);
        assert a + k <= a + j < a + k + (PGSIZE - (a + k) % PGSIZE);
      }
    }
  }

  lemma FrameThere(vm: Vm, root: nat, va: nat)
    requires vm.Valid() && IsValid(Pte(vm.View(), root, va / PGSIZE)) && User(Pte(vm.View(), root, va / PGSIZE))
    ensures Pa(Pte(vm.View(), root, va / PGSIZE)) in vm.frames
  {
    hide Consistent, Pooled, Vm.Pools, Pte, IsValid, User, Pa, Level;
    LeafFrame(vm.View(), vm.owner, vm.kpool, vm.kpool.free, vm.upool, vm.upool.free, vm.frames.Keys, root, va / PGSIZE);
  }

  /** Two user pages never share a frame. */
  lemma Unshared(vm: Vm, root: nat, v: nat, q: nat, w: nat)
    requires vm.Valid() && v < VPNS && w < VPNS
    requires IsValid(Pte(vm.View(), root, v)) && User(Pte(vm.View(), root, v))
    requires IsValid(Pte(vm.View(), q, w)) && User(Pte(vm.View(), q, w))
    requires Pa(Pte(vm.View(), root, v)) == Pa(Pte(vm.View(), q, w))
    ensures root == q && v == w
  {
    hide Consistent, Pooled, Vm.Pools, Pte, IsValid, User, Pa, Level, LeafPos;
    LeafFrame(vm.View(), vm.owner, vm.kpool, vm.kpool.free, vm.upool, vm.upool.free, vm.frames.Keys, root, v);
    LeafFrame(vm.View(), vm.owner, vm.kpool, vm.kpool.free, vm.upool, vm.upool.free, vm.frames.Keys, q, w);
    LeafPosInjective(root, v, q, w);
  }

  lemma StoredNone(m: Mem, frames: map<nat, Page>, root: nat, a: nat)
    ensures Stored(m, frames, frames, root, a, [])
  {
    hide Pte, UserByte, IsUser;
  }

  lemma StoredJoin(m: Mem, f0: map<nat, Page>, f1: map<nat, Page>, f2: map<nat, Page>, root: nat, a: nat,
                   data: seq<Byte>, k: nat, n: nat)
    requires k + n <= |data|
    requires Stored(m, f0, f1, root, a, data[..k]) && Stored(m, f1, f2, root, a + k, data[k..k + n])
    ensures Stored(m, f0, f2, root, a, data[..k + n])
  {
    hide Pte, UserByte, IsUser;
  }

  /** memmove of one chunk into the frame behind `va`. */
  method StoreChunk(vm: Vm, ghost root: nat, va: nat, pa: nat, data: seq<Byte>)
    requires vm.Valid() && Fits(va, |data|) && IsUser(vm.View(), root, va)
    requires pa == Pa(Pte(vm.View(), root, va / PGSIZE))
    modifies vm`frames
    ensures vm.Valid()
    ensures Stored(vm.View(), old(vm.frames), vm.frames, root, va, data)
  {
    hide Pte, IsValid, User, Pa, Consistent, Pooled, Vm.Pools, Vm.Valid, Stored, UserByte;
    FrameThere(vm, root, va);
    ghost var f0 := vm.frames;
    ghost var f1 := f0[pa := Patch(f0[pa], va % PGSIZE, data)];
    ChunkStored(vm, root, va, data, f1);
    KeepsValid(vm, f1);
    vm.frames := vm.frames[pa := Patch(vm.frames[pa], va % PGSIZE, data)];
    ValidFrom(vm);
  }

  /** vm.Valid() for a given map of frames. */
  ghost predicate ValidWith(vm: Vm, frames: map<nat, Page>)
    reads vm, vm.kpool, vm.upool
  {
    vm.Pools() && Consistent(vm.View(), vm.owner) &&
        Pooled(vm.owner, vm.kpool, vm.kpool.free, vm.upool, vm.upool.free, frames.Keys)
  }

  lemma KeepsValid(vm: Vm, frames: map<nat, Page>)
    requires vm.Valid() && frames.Keys == vm.frames.Keys
    ensures ValidWith(vm, frames)
  {
    hide Consistent, Pooled, Vm.Pools;
  }

  lemma ValidFrom(vm: Vm)
    requires ValidWith(vm, vm.frames)
    ensures vm.Valid()
  {
    hide Consistent, Pooled, Vm.Pools;
  }

  lemma ChunkStored(vm: Vm, root: nat, va: nat, data: seq<Byte>, f1: map<nat, Page>)
    requires vm.Valid() && Fits(va, |data|) && IsUser(vm.View(), root, va)
    requires var pa := Pa(Pte(vm.View(), root, va / PGSIZE));
    pa in vm.frames && f1 == vm.frames[pa := Patch(vm.frames[pa], va % PGSIZE, data)]
    ensures f1.Keys == vm.frames.Keys && Stored(vm.View(), vm.frames, f1, root, va, data)
  {
    hide Pte, IsValid, User, Pa, Vm.Valid, Vm.View, Patch;
    var m, f0, pa := vm.View(), vm.frames, Pa(Pte(vm.View(), root, va / PGSIZE));
    forall q: nat, x: nat | IsUser(m, q, x)
      ensures UserByte(m, f1, q, x) == if q == root && va <= x < va + |data| then data[x - va]
                else UserByte(m, f0, q, x)
    {
      FrameThere(vm, q, x);
      InPage(va, x, |data|);
      if Pa(Pte(m, q, x / PGSIZE)) == pa {
        PageBelow(va);
        PageBelow(x);
        Unshared(vm, root, va / PGSIZE, q, x / PGSIZE);
      }
    }
  }

  lemma InPage(va: nat, x: nat, n: nat)
    requires va % PGSIZE + n <= PGSIZE
    ensures va <= x < va + n <==> x / PGSIZE == va / PGSIZE && va % PGSIZE <= x % PGSIZE < va % PGSIZE + n
    ensures x / PGSIZE == va / PGSIZE ==> x - va == x % PGSIZE - va % PGSIZE
  {
    if va <= x < va + n {
      assert x == va / PGSIZE * PGSIZE + (va % PGSIZE + (x - va));
    }
  }

  /** uvm_copyout: stores exactly the bytes; panics (not ok) at the first byte that may not be written. */
  method CopyOut(vm: Vm, root: nat, dst: nat, data: seq<Byte>) returns (done: nat, ok: bool)
    requires vm.Valid() && root in vm.roots
    modifies vm`frames
    ensures vm.Valid() && done <= |data|
    ensures ok <==> CanAll(vm.View(), root, dst, |data|, true)
    ensures ok ==> done == |data|
    ensures Stored(vm.View(), old(vm.frames), vm.frames, root, dst, data[..done])
  {
    hide Vm.Valid, Vm.View, Pte, Pa, Can, CanAll, IsUser, Stored, Chunk, Fits;
    CanNone(vm.View(), vm.frames, root, dst, true);
    StoredNone(vm.View(), vm.frames, root, dst);
    assert data[..0] == [];
    ghost var m, f0 := vm.View(), vm.frames;
    done := 0;
    while done < |data|
      invariant done <= |data| && vm.Valid()
      invariant CanAll(m, root, dst, done, true) && Stored(m, f0, vm.frames, root, dst, data[..done])
    {
      var va := dst + done;
      var pa, writable := Locate(vm, root, va, true);
      if !writable {
        CanNot(m, root, dst, done, |data|, true);
        return done, false;
      }
      ghost var f1 := vm.frames;
      var n := Chunk(va, |data| - done);
      CanMore(m, root, dst, done, n, true);
      StoreChunk(vm, root, va, pa, data[done..done + n]);
      StoredJoin(m, f0, f1, vm.frames, root, dst, data, done, n);
      done := done + n;
    }
    return done, true;
  }

  /** What uvm_copyout stores, uvm_copyin reads back, across pages and scattered frames. */
  lemma ReadBack(m: Mem, was: map<nat, Page>, now: map<nat, Page>, root: nat, a: nat, data: seq<Byte>)
    requires Stored(m, was, now, root, a, data) && CanAll(m, root, a, |data|, false)
    ensures UserBytes(m, now, root, a, |data|) == data
  {
    hide Pte, UserByte;
    forall k: nat | k < |data| ensures UserByte(m, now, root, a + k) == data[k] {
      assert Can(m, root, a + k, false);
      assert IsUser(m, root, a + k);
    }
  }

  /** uvm_copyin after uvm_copyout, when every byte of the range may be read and written. */
  method RoundTrip(vm: Vm, root: nat, a: nat, data: seq<Byte>) returns (back: seq<Byte>, ok: bool)
    requires vm.Valid() && root in vm.roots
    modifies vm`frames
    ensures ok <==> CanAll(vm.View(), root, a, |data|, false) && CanAll(vm.View(), root, a, |data|, true)
    ensures ok ==> back == data
  {
    hide Vm.Valid, Vm.View, Can, CanAll, Stored, UserBytes;
    var done, stored := CopyOut(vm, root, a, data);
    back, ok := CopyIn(vm, root, a, |data|);
    if stored && ok {
      assert data[..done] == data;
      ReadBack(vm.View(), old(vm.frames), vm.frames, root, a, data);
    }
    ok := stored && ok;
  }
}
