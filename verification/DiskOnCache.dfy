/** The block device as the file system uses it (`Disk`) is what the buffer cache (`BufferCache`) provides to one caller
    that writes what it changes before it puts it back: the same calls on both keep them in agreement.  With at least
    three buffers, the file system's bound of three keeps the cache from running out of buffers. */
module DiskOnCache {
  import opened BlockDevice
  import opened BufferCaching
  import opened Ring

  /** The blocks held are those of the buffers in use, each once, and both show the same contents. */
  ghost predicate Agree(d: Disk, cache: BufferCache)
    reads d, cache, cache.pool, cache.all`blockNum, cache.all`refs, cache.all`page
    reads cache.active`next, cache.active`prev, cache.inactive`next, cache.inactive`prev
    reads cache.actives`next, cache.actives`prev, cache.inactives`next, cache.inactives`prev
    reads cache.actives`refs, cache.inactives`refs
  {
    && cache.Valid() && 3 <= |cache.all|
    && cache.Holds() == d.held
    && (forall k {:trigger cache.all[k]} :: 0 <= k < |cache.all| ==> cache.all[k].refs <= 1)
    && cache.view == cache.disk
    && (forall b: nat {:trigger b in cache.disk} :: b in cache.disk <==> b < |d.blocks|)
    && (forall b: nat {:trigger d.blocks[b]} :: b < |d.blocks| ==> cache.disk[b] == d.blocks[b])
  }

  /** A buffer in use holds a block that is held. */
  lemma HeldBy(cache: BufferCache, node: Node)
    requires node in cache.all && node.refs > 0
    ensures node.blockNum in cache.Holds()
  {
    var k: nat :| k < |cache.all| && cache.all[k] == node;
    assert cache.all[k].refs > 0;
  }

  lemma NotHeld(cache: BufferCache, b: nat)
    requires b !in cache.Holds()
    ensures forall k {:trigger cache.all[k]} :: 0 <= k < |cache.all| && cache.all[k].refs > 0 ==>
              cache.all[k].blockNum != b
  {
    forall k | 0 <= k < |cache.all| && cache.all[k].refs > 0 ensures cache.all[k].blockNum != b {
      HeldBy(cache, cache.all[k]);
    }
  }

  lemma InAll(cache: BufferCache, node: Node)
    requires cache.Valid() && node in cache.actives
    ensures node in cache.all
  {
    cache.Listed();
  }

  lemma InUseOnce(d: Disk, cache: BufferCache, node: Node)
    requires Agree(d, cache) && node in cache.actives
    ensures node in cache.all && node.refs == 1 && node.blockNum in d.held && node.blockNum < |d.blocks|
  {
    hide BufferCache.Lists, BufferCache.BackedUp, BufferCache.Sized, BufferCache.Holds;
    cache.UserAt(node);
    HeldBy(cache, node);
  }

  /** buffer_get, on both: the panic can only be for want of a page. */
  method Get(d: Disk, cache: BufferCache, b: nat) returns (data: Block, node: Node?)
    requires Agree(d, cache) && b < |d.blocks| && b !in d.held && |d.held| < 3
    modifies d`held, cache`memory, cache`actives, cache`inactives, cache.pool
    modifies cache.all`blockNum, cache.all`refs, cache.all`page, cache.all`next, cache.all`prev
    modifies cache.active`next, cache.active`prev, cache.inactive`next, cache.inactive`prev
    ensures node == null ==> old(cache.pool.free) == []
    ensures node != null ==> Agree(d, cache) && node in cache.actives && node.blockNum == b
    ensures node != null ==> node.page in cache.memory && cache.memory[node.page] == data
    ensures d.held == old(d.held) + {b} && data == d.blocks[b]
  {
    hide BufferCache.Valid, BufferCache.Holds, BufferCache.NoneFor;
    NotHeld(cache, b);
    data := d.Get(b);
    node := cache.Get(b);
    if node != null { InAll(cache, node); }
  }

  /** A buffer changed and buffer_write, on both. */
  method Write(d: Disk, cache: BufferCache, node: Node, data: Block)
    requires Agree(d, cache) && node in cache.actives
    modifies d`blocks, cache`memory, cache`view, cache`disk
    ensures Agree(d, cache) && d.held == old(d.held) && d.blocks == PutBlock(old(d.blocks), node.blockNum, data)
    ensures node in cache.actives
  {
    hide BufferCache.Valid, BufferCache.Holds;
    InUseOnce(d, cache, node);
    d.Write(node.blockNum, data);
    cache.Store(node, data);
    cache.Write(node);
  }

  /** buffer_put, on both. */
  method Put(d: Disk, cache: BufferCache, node: Node)
    requires Agree(d, cache) && node in cache.actives
    modifies d`held, cache`actives, cache`inactives, cache.all`refs, cache.all`next, cache.all`prev
    modifies cache.active`next, cache.active`prev, cache.inactive`next, cache.inactive`prev
    ensures Agree(d, cache) && d.held == old(d.held) - {node.blockNum} && d.blocks == old(d.blocks)
  {
    hide BufferCache.Valid, BufferCache.Holds;
    InUseOnce(d, cache, node);
    d.Put(node.blockNum);
    cache.Put(node);
  }
}
