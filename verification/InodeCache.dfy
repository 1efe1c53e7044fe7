/** The inode cache and the life of an inode (fs/inode.c): an inode is allocated while it has a name or
    an open reference, and is given back with its blocks when it loses the last of both. */
module InodeCache {
  import opened Memory
  import opened BlockDevice
  import opened RadixForest
  import opened FileTree
  import opened FileData
  import opened FileLayout
  import opened FileFree
  import opened FileHealth
  import opened FileSync
  import opened FileSpace
  import opened Inode
  import opened Dirent
  import opened Dentry
  import opened LinkGraph

  /** `short` */
  function Signed(h: Half): int { if h < 0x8000 then h else h - 0x1_0000 }

  function Short(v: int): Half { v % 0x1_0000 }

  predicate Used(sb: SuperBlock, s: Store, i: nat) {
    sb.Layout() && |s.blocks| == sb.totalBlocks && i < |s.inodes| && InodeUsed(sb, s.blocks, i)
  }

  function NodeOf(sb: SuperBlock, s: Store, i: nat): Node
    requires i < |s.inodes|
  {
    var used := Used(sb, s, i);
    Node(used, s.inodes[i].kind, Signed(s.inodes[i].nlink),
         if used && s.inodes[i].kind == TYPE_DIR then SlotsIn(sb, s, i) else [])
  }

  /** The directory graph of a store. */
  function NodesOf(sb: SuperBlock, s: Store): (n: seq<Node>)
    ensures |n| == |s.inodes|
  {
    seq(|s.inodes|, i requires 0 <= i < |s.inodes| => NodeOf(sb, s, i))
  }

  /** Directories are made of whole entries. */
  ghost predicate Sized(sb: SuperBlock, s: Store) {
    forall d: nat {:trigger Used(sb, s, d)} :: d < |s.inodes| && Used(sb, s, d) && s.inodes[d].kind == TYPE_DIR ==>
        s.inodes[d].size % ENTRY == 0
  }

  /** What every operation on names and references keeps; file `x` has `owed` links more than names. */
  ghost predicate World(sb: SuperBlock, s: Store, owner: map<nat, Pos>, slots: seq<CacheSlot>, x: nat, owed: int) {
    && Healthy(sb, s, owner) && Sized(sb, s)
    && Linked(NodesOf(sb, s), slots, x, owed)
  }

  lemma WorldOwner(sb: SuperBlock, s: Store, owner: map<nat, Pos>, owner': map<nat, Pos>, slots: seq<CacheSlot>, x: nat,
                   owed: int)
    requires World(sb, s, owner, slots, x, owed) && Consistent(sb, s, owner')
    ensures World(sb, s, owner', slots, x, owed)
  {
    hide Consistent, NodesOf, Linked, Sized;
    HealthyOwner(sb, s, owner, owner');
  }

  lemma SlotsChanged(sb: SuperBlock, s: Store, t: Store, dir: nat, d: seq<Slot>)
    requires OnlySlots(sb, s, t, dir, d) && Used(sb, s, dir) && s.inodes[dir].kind == TYPE_DIR && Sized(sb, s)
    requires t.inodes[dir].size % ENTRY == 0
    ensures NodesOf(sb, t) == NodesOf(sb, s)[dir := NodesOf(sb, s)[dir].(entries := d)]
    ensures Sized(sb, t)
  {
    SameBitmap(sb, s.blocks, t.blocks);
    hide InodeUsed, Contents, Slots;
    forall i: nat | i < |s.inodes|
      ensures Used(sb, t, i) == Used(sb, s, i)
      ensures NodeOf(sb, t, i) == if i == dir then NodeOf(sb, s, i).(entries := d) else NodeOf(sb, s, i)
      ensures i != dir ==> t.inodes[i].size == s.inodes[i].size
    {
      assert |Contents(sb, t, i)| == t.inodes[i].size && |Contents(sb, s, i)| == s.inodes[i].size;
    }
  }

  /** What one inode's record, bit and contents look like from outside. */
  predicate SameFile(sb: SuperBlock, s: Store, t: Store, i: nat)
    requires i < |s.inodes| && i < |t.inodes|
  {
    && Used(sb, t, i) == Used(sb, s, i) && t.inodes[i] == s.inodes[i].(index := t.inodes[i].index)
    && Contents(sb, t, i) == Contents(sb, s, i)
  }

  lemma OneChanged(sb: SuperBlock, s: Store, t: Store, r: nat)
    requires |t.inodes| == |s.inodes| && r < |s.inodes| && Sized(sb, s)
    requires forall i: nat :: i < |s.inodes| && i != r ==> SameFile(sb, s, t, i)
    requires Used(sb, t, r) && t.inodes[r].kind == TYPE_DIR ==> t.inodes[r].size % ENTRY == 0
    ensures NodesOf(sb, t) == NodesOf(sb, s)[r := NodeOf(sb, t, r)] && Sized(sb, t)
  {
    hide Used, Contents, Slots;
    forall i: nat | i < |s.inodes| && i != r ensures NodeOf(sb, t, i) == NodeOf(sb, s, i) {
      assert SameFile(sb, s, t, i);
    }
    forall d: nat | d < |t.inodes| && Used(sb, t, d) && t.inodes[d].kind == TYPE_DIR
      ensures t.inodes[d].size % ENTRY == 0
    {
      if d != r { assert SameFile(sb, s, t, d) && Used(sb, s, d); }
    }
  }

  lemma WorldSlots(sb: SuperBlock, s: Store, owner: map<nat, Pos>, slots: seq<CacheSlot>, x: nat, owed: int,
                   slots': seq<CacheSlot>)
    requires World(sb, s, owner, slots, x, owed) && Linked(NodesOf(sb, s), slots', x, owed)
    ensures World(sb, s, owner, slots', x, owed)
  {
    hide Healthy, Sized, Linked;
  }

  /** The facts of a world, one by one. */
  lemma WorldFacts(sb: SuperBlock, s: Store, owner: map<nat, Pos>, slots: seq<CacheSlot>, x: nat, owed: int)
    requires World(sb, s, owner, slots, x, owed)
    ensures Healthy(sb, s, owner) && Sized(sb, s) && Shape(sb, s)
    ensures Linked(NodesOf(sb, s), slots, x, owed) && CacheOk(NodesOf(sb, s), slots) && Rooted(NodesOf(sb, s))
  {
    hide Trees, Owned, InUse, Sized, NodesOf, CacheOk, Rooted, Counted, Covered;
  }

  /** A record that is on disk can be dropped from memory and loaded again. */
  lemma Loadable(sb: SuperBlock, s: Store, owner: map<nat, Pos>, slots: seq<CacheSlot>, x: nat, owed: int, i: nat)
    requires World(sb, s, owner, slots, x, owed) && Synced(sb, s) && Used(sb, s, i)
    ensures SavedAt(sb, s, i) && i < |NodesOf(sb, s)| && NodesOf(sb, s)[i].used && Consistent(sb, s, owner)
  {
    hide Consistent, Covered, SavedAt, Linked, Sized, InodeUsed;
    SyncedSome(sb, s, i);
  }

  /** Reference counts of all inodes, with one more or one less for `i`. */
  ghost predicate RefsMoved(was: seq<CacheSlot>, now: seq<CacheSlot>, i: nat, change: int) {
    forall j: nat {:trigger RefSum(now, j)} :: RefSum(now, j) == RefSum(was, j) + if j == i then change else 0
  }

  /** File `i` is free again and all other files are as they were; every block it had is free if and only if its nonzero
      slots were a prefix. */
  ghost predicate Deleted(sb: SuperBlock, s: Store, t: Store, owner: map<nat, Pos>, i: nat) {
    && |t.inodes| == |s.inodes| && i < |s.inodes| && Used(sb, s, i) && !Used(sb, t, i)
    && (Prefix(s.inodes[i].index) <==> forall c :: c in owner ==> Root(owner[c]) != i)
    && (forall j: nat {:trigger SameFile(sb, s, t, j)} :: j < |s.inodes| && j != i ==> SameFile(sb, s, t, j))
  }

  lemma DeletedIs(sb: SuperBlock, s: Store, owner: map<nat, Pos>, t: Store, owner': map<nat, Pos>, i: nat)
    requires Healthy(sb, s, owner) && Healthy(sb, t, owner') && Sized(sb, s) && Used(sb, s, i)
    requires |t.inodes| == |s.inodes|
    requires forall j: nat :: j < |s.inodes| ==>
               InodeUsed(sb, t.blocks, j) == if j == i then false else InodeUsed(sb, s.blocks, j)
    requires Prefix(s.inodes[i].index) <==> forall c :: c in owner' ==> Root(owner'[c]) != i
    requires OthersKept(sb, s, t, i)
    requires forall j: nat :: j < |s.inodes| && j != i ==> Contents(sb, t, j) == Contents(sb, s, j)
    ensures Deleted(sb, s, t, owner', i) && Sized(sb, t)
    ensures NodesOf(sb, t) == NodesOf(sb, s)[i := NodeOf(sb, t, i)] && !NodeOf(sb, t, i).used
    ensures NodeOf(sb, t, i).entries == []
  {
    assert Shape(sb, s) && Shape(sb, t);
    hide Prefix, InodeUsed, Contents, Healthy, OthersCovered, ByteAt;
    forall j: nat | j < |s.inodes| && j != i ensures SameFile(sb, s, t, j) {}
    OneChanged(sb, s, t, i);
  }

  /** inode_delete of a live file. */
  method DeleteFile(fs: FileSystem, i: nat)
    requires Healthy(fs.sb, fs.View(), fs.owner) && Sized(fs.sb, fs.View()) && fs.disk.held == {}
    requires i < |fs.inodes| && Used(fs.sb, fs.View(), i)
    modifies fs, fs.disk
    ensures Healthy(fs.sb, fs.View(), fs.owner) && Sized(fs.sb, fs.View()) && fs.disk.held == {}
    ensures old(Synced(fs.sb, fs.View())) ==> Synced(fs.sb, fs.View())
    ensures i < |fs.inodes| && Deleted(fs.sb, old(fs.View()), fs.View(), fs.owner, i)
    ensures NodesOf(fs.sb, fs.View()) == NodesOf(fs.sb, old(fs.View()))[i := NodeOf(fs.sb, fs.View(), i)]
    ensures !NodeOf(fs.sb, fs.View(), i).used && NodeOf(fs.sb, fs.View(), i).entries == []
  {
    hide NodesOf, NodeOf, Used, Deleted, OthersKept, Prefix, InodeUsed, Contents, Healthy, Synced, SyncedBut, Sized,
         Reached, Without;
    ghost var s, owner := fs.View(), fs.owner;
    if Synced(fs.sb, s) { SyncedSome(fs.sb, s, i); }
    HealthyParts(fs.sb, s, owner);
    fs.Delete(i);
    DeletedIs(fs.sb, s, owner, fs.View(), fs.owner, i);
  }

  /** The cache at boot: zeroed memory. */
  function NoSlots(): (c: seq<CacheSlot>)
    ensures |c| == N_INODE
  {
    seq(N_INODE, _ => CacheSlot(0, 0, false))
  }

  /** No slot has inode `inum`. */
  predicate Lacks(slots: seq<CacheSlot>, inum: nat) {
    forall j :: 0 <= j < |slots| ==> !(slots[j].valid && slots[j].inum == inum)
  }

  /** The first slot that nobody holds is `k`, or there is none and `k` is the end. */
  predicate FirstIdle(slots: seq<CacheSlot>, k: nat) {
    && k <= |slots| && (k < |slots| ==> slots[k].ref == 0)
    && forall j :: 0 <= j < k ==> slots[j].ref > 0
  }

  class Icache {
    const fs: FileSystem
    var slots: seq<CacheSlot>

    /** inode_init on a mounted image whose files are named as often as their link counts say. */
    constructor (fs: FileSystem)
      requires fs.disk.held == {} && World(fs.sb, fs.View(), fs.owner, NoSlots(), 0, 0) && Synced(fs.sb, fs.View())
      ensures this.fs == fs && slots == NoSlots() && Good(0, 0)
      ensures forall i: nat :: RefSum(slots, i) == 0
    {
      hide World, RefSum, Synced;
      this.fs := fs;
      slots := NoSlots();
      new;
      forall i: nat ensures RefSum(slots, i) == 0 { RefSumOne(slots, |slots|, i); }
    }

    /** Between operations, with `owed` links of file `x` still to be settled. */
    ghost predicate Loose(x: nat, owed: int)
      reads this, fs, fs.disk
    {
      fs.disk.held == {} && World(fs.sb, fs.View(), fs.owner, slots, x, owed)
    }

    /** The same, and every record is on disk. */
    ghost predicate Good(x: nat, owed: int)
      reads this, fs, fs.disk
    {
      Loose(x, owed) && Synced(fs.sb, fs.View())
    }

    /** inode_get and the inode_lock that follows it, as one step: `k` is the slot, N_INODE the panic
        "no inodes". */
    method Get(inum: nat, ghost x: nat, ghost owed: int) returns (k: nat)
      requires Good(x, owed) && Used(fs.sb, fs.View(), inum)
      modifies this, fs, fs.disk
      ensures Good(x, owed) && fs.View() == old(fs.View()) && fs.owner == old(fs.owner) && k <= N_INODE
      ensures |slots| == N_INODE
      ensures k == N_INODE ==>
                slots == old(slots) && forall j :: 0 <= j < N_INODE ==> slots[j].ref > 0 && slots[j].inum != inum
      ensures k < N_INODE ==>
        && slots[k].inum == inum && slots[k].valid && RefsMoved(old(slots), slots, inum, 1)
        && slots == old(slots)[k := slots[k]] && slots[k].ref == old(slots)[k].ref + 1
        && (old(slots)[k].ref > 0 ==> old(slots)[k].inum == inum)
      // the slot that still has the inode, and the first slot that nobody holds only when there is none
      ensures k < N_INODE ==>
                (old(slots)[k].valid && old(slots)[k].inum == inum) ||
                (Lacks(old(slots), inum) && FirstIdle(old(slots), k))
    {
      hide World, NodesOf, Linked, Rooted, Counted, RefSum, Used, Consistent, Synced;
      ghost var s, n := fs.View(), NodesOf(fs.sb, fs.View());
      WorldFacts(fs.sb, s, fs.owner, slots, x, owed);
      Loadable(fs.sb, s, fs.owner, slots, x, owed, inum);
      var hit, empty := FindSlot(inum);
      if hit < N_INODE {
        Referenced(n, slots, x, owed, hit, slots[hit].(ref := slots[hit].ref + 1));
        WorldSlots(fs.sb, s, fs.owner, slots, x, owed, slots[hit := slots[hit].(ref := slots[hit].ref + 1)]);
        slots := slots[hit := slots[hit].(ref := slots[hit].ref + 1)];
        return hit;
      }
      if empty == N_INODE { return N_INODE; }
      Referenced(n, slots, x, owed, empty, CacheSlot(inum, 1, true));
      WorldSlots(fs.sb, s, fs.owner, slots, x, owed, slots[empty := CacheSlot(inum, 1, true)]);
      slots := slots[empty := CacheSlot(inum, 1, false)];
      fs.InodeRead(inum);
      slots := slots[empty := slots[empty].(valid := true)];
      assert slots == old(slots)[empty := CacheSlot(inum, 1, true)];
      return empty;
    }

    /** The search of inode_get: the slot that has the inode, or else the first one that nobody holds. */
    method FindSlot(inum: nat) returns (hit: nat, empty: nat)
      requires |slots| == N_INODE
      ensures hit < N_INODE ==> slots[hit].valid && slots[hit].inum == inum
      ensures hit >= N_INODE ==> Lacks(slots, inum) && FirstIdle(slots, empty)
    {
      var i := 0;
      empty := N_INODE;
      while i < N_INODE
        invariant 0 <= i <= N_INODE
        invariant forall j :: 0 <= j < i ==> !(slots[j].valid && slots[j].inum == inum)
        invariant (empty < i && slots[empty].ref == 0) || empty == N_INODE
        invariant forall j :: 0 <= j < i && j < empty ==> slots[j].ref > 0
      {
        if slots[i].inum == inum && slots[i].valid { return i, empty; }
        if empty == N_INODE && slots[i].ref == 0 { empty := i; }
        i := i + 1;
      }
      return N_INODE, empty;
    }

    /** inode_dup */
    method Dup(k: nat, ghost x: nat, ghost owed: int)
      requires Loose(x, owed) && k < |slots| && slots[k].ref > 0
      modifies this`slots
      ensures Loose(x, owed) && slots == old(slots)[k := old(slots)[k].(ref := old(slots)[k].ref + 1)]
      ensures RefsMoved(old(slots), slots, slots[k].inum, 1)
    {
      hide World, NodesOf, Linked, Rooted, Counted, RefSum, Used;
      ghost var s := fs.View();
      WorldFacts(fs.sb, s, fs.owner, slots, x, owed);
      Referenced(NodesOf(fs.sb, s), slots, x, owed, k, slots[k].(ref := slots[k].ref + 1));
      WorldSlots(fs.sb, s, fs.owner, slots, x, owed, slots[k := slots[k].(ref := slots[k].ref + 1)]);
      slots := slots[k := slots[k].(ref := slots[k].ref + 1)];
    }

    /** dentry_search in directory `d`. */
    method SearchIn(d: nat, name: seq<Byte>, ghost x: nat, ghost owed: int) returns (r: Word)
      requires Loose(x, owed) && Used(fs.sb, fs.View(), d) && IsName(name)
      modifies fs, fs.disk
      ensures Loose(x, owed) && fs.View() == old(fs.View())
      ensures d < |fs.inodes| && r == Step(NodesOf(fs.sb, fs.View()), d, CStr(name))
    {
      hide World, NodesOf, NodeOf, Linked, Used, InodeUsed, Contents, Healthy, Sized, Consistent, Ready, Names, CStr;
      ghost var s, owner := fs.View(), fs.owner;
      ReadyNow(fs, slots, d, x, owed);
      LiveNode(fs.sb, s, d);
      r := Search(fs, d, name);
      ReadyParts(fs, d);
      WorldOwner(fs.sb, s, owner, fs.owner, slots, x, owed);
    }

    /** dentry_create in directory `d`: when the entry is made, one link of `inum` is settled. */
    method EnterIn(d: nat, inum: Word, name: seq<Byte>, ghost owed: int) returns (r: Word)
      requires Loose(inum, owed) && Used(fs.sb, fs.View(), d) && Used(fs.sb, fs.View(), inum) && IsName(name)
      requires CStr(name) != []
      modifies fs, fs.disk
      ensures Loose(inum, if r == NONE then owed else owed - 1)
      ensures d < |old(fs.inodes)| && |fs.inodes| == |old(fs.inodes)|
      ensures var n := NodesOf(fs.sb, old(fs.View()));
              NodesOf(fs.sb, fs.View()) == if r == NONE then n
                  else n[d := n[d].(entries := Added(n[d].entries, CStr(name), inum))]
      ensures OthersSame(old(fs.inodes), fs.inodes, d)
      ensures Shape(fs.sb, old(fs.View())) && (r != NONE <==>
                old(fs.inodes)[d].kind == TYPE_DIR && CStr(name) !in Names(NodesOf(fs.sb, old(fs.View()))[d].entries) &&
                    Room(fs.sb, old(fs.View()), d))
      ensures old(Synced(fs.sb, fs.View())) && (r != NONE || old(fs.inodes)[d].kind != TYPE_DIR) ==>
                Synced(fs.sb, fs.View())
      ensures old(Synced(fs.sb, fs.View())) ==> Synced(fs.sb, fs.View()) || Late(fs.sb, fs.View(), d)
    {
      hide World, NodesOf, NodeOf, Linked, Used, InodeUsed, Contents, Healthy, Sized, Consistent, Ready, Names, CStr,
           Full, OnlySlots, Synced, FirstFree, Slots, Room, Late;
      ghost var s, owner := fs.View(), fs.owner;
      ghost var n := NodesOf(fs.sb, s);
      ReadyNow(fs, slots, d, inum, owed);
      WorldFacts(fs.sb, s, owner, slots, inum, owed);
      LiveNode(fs.sb, s, d);
      LiveNode(fs.sb, s, inum);
      r := Enter(fs, d, inum, name);
      ReadyParts(fs, d);
      if s.inodes[d].kind != TYPE_DIR || CStr(name) in Names(n[d].entries) {
        WorldOwner(fs.sb, s, owner, fs.owner, slots, inum, owed);
      } else {
        OnlyRecord(fs.sb, s, fs.View(), d, if r == NONE then n[d].entries else Added(n[d].entries, CStr(name), inum));
        SlotsAre(fs.sb, s, fs.View(), d, if r == NONE then n[d].entries else Added(n[d].entries, CStr(name), inum));
        SlotsWorld(fs.sb, s, owner, fs.View(), fs.owner, slots, inum, owed, d, FirstFree(n[d].entries),
            Slot(CStr(name), inum), r != NONE);
      }
    }

    /** dentry_delete in directory `d`: the inode that lost the name is owed one link less. */
    method RemoveIn(d: nat, name: seq<Byte>, ghost x: nat) returns (r: Word)
      requires Loose(x, 0) && Used(fs.sb, fs.View(), d) && IsName(name)
      modifies fs, fs.disk
      ensures d < |old(fs.inodes)| && r == Step(NodesOf(fs.sb, old(fs.View())), d, CStr(name))
      ensures r == NONE ==> Loose(x, 0) && fs.View() == old(fs.View())
      ensures r != NONE ==> Loose(r, 1) && r < |fs.inodes| && Used(fs.sb, fs.View(), r)
      ensures r != NONE ==> OthersSame(old(fs.inodes), fs.inodes, d)
      ensures r != NONE ==> Unnaming(NodesOf(fs.sb, old(fs.View())), NodesOf(fs.sb, fs.View()), d, CStr(name), r)
      ensures old(Synced(fs.sb, fs.View())) ==> Synced(fs.sb, fs.View())
    {
      hide World, NodesOf, NodeOf, Linked, Used, InodeUsed, Contents, Healthy, Sized, Consistent, Ready, Names, CStr,
           Full, OnlySlots, Synced, FirstFree, Slots, PutSlot, Rooted, Step;
      ghost var s, owner := fs.View(), fs.owner;
      ghost var n := NodesOf(fs.sb, s);
      ReadyNow(fs, slots, d, x, 0);
      LiveNode(fs.sb, s, d);
      StepIs(n, d, CStr(name));
      StepLive(n, d, CStr(name));
      r := Remove(fs, d, name);
      ReadyParts(fs, d);
      if r == NONE {
        WorldOwner(fs.sb, s, owner, fs.owner, slots, x, 0);
      } else {
        ghost var e := n[d].entries;
        ghost var k :| 0 <= k < |e| && e[k] == Slot(CStr(name), r)
          && OnlySlots(fs.sb, s, fs.View(), d, e[k := Slot([], 0)])
          && Names(e[k := Slot([], 0)]) == Names(e) - {CStr(name)};
        PutIs(e, k, Slot([], 0));
        OnlyRecord(fs.sb, s, fs.View(), d, e[k := Slot([], 0)]);
        SlotsAre(fs.sb, s, fs.View(), d, e[k := Slot([], 0)]);
        WorldOther(fs.sb, s, owner, slots, x, r);
        LiveNode(fs.sb, s, r);
        SlotsWorld(fs.sb, s, owner, fs.View(), fs.owner, slots, r, 0, d, k, Slot([], 0), true);
        LiveNode(fs.sb, fs.View(), r);
      }
    }

    /** Set the link count of a file and write its inode back. */
    method Recount(i: nat, nlink: int, ghost owed: int)
      requires Loose(i, owed) && Used(fs.sb, fs.View(), i) && fs.inodes[i].kind != TYPE_DIR && -0x8000 <= nlink < 0x8000
      requires nlink > 0 || RefSum(slots, i) > 0
      modifies fs, fs.disk
      ensures i < |old(fs.inodes)| == |fs.inodes| && Loose(i, owed + nlink - Signed(old(fs.inodes)[i].nlink))
      ensures NodesOf(fs.sb, fs.View()) == NodesOf(fs.sb, old(fs.View()))[i :=
                NodesOf(fs.sb, old(fs.View()))[i].(nlink := nlink)]
      ensures SameCells(fs.sb, old(fs.View()), fs.View(), i)
      ensures fs.inodes == old(fs.inodes)[i := old(fs.inodes)[i].(nlink := Short(nlink))]
      ensures old(Synced(fs.sb, fs.View())) ==> Synced(fs.sb, fs.View())
      ensures forall d: nat {:trigger Late(fs.sb, fs.View(), d)} :: d != i && old(Late(fs.sb, fs.View(), d)) ==>
                Late(fs.sb, fs.View(), d)
    {
      hide World, NodesOf, NodeOf, Linked, InodeUsed, Contents, Healthy, Sized, Consistent, Synced, SyncedBut,
           SameBytes, Trees, Signed, Short, RefSum, SavedInode, FreeBlocks, Late;
      ghost var s, owner := fs.View(), fs.owner;
      ghost var n := NodesOf(fs.sb, s);
      WorldFacts(fs.sb, s, owner, slots, i, owed);
      HealthyParts(fs.sb, s, owner);
      LiveNode(fs.sb, s, i);
      if Synced(fs.sb, s) { SyncedSome(fs.sb, s, i); }
      fs.Update(i, fs.inodes[i].(nlink := Short(nlink)));
      RelinkHealthy(fs.sb, s, fs.View(), owner, i, Short(nlink));
      Relinked(fs.sb, s, fs.View(), i, nlink);
      HealthyParts(fs.sb, fs.View(), owner);
      CellsSame(fs.sb, s, fs.View(), owner, i);
      Recounted(n, slots, owed, i, nlink);
      WorldIs(fs.sb, fs.View(), owner, slots, i, owed + nlink - Signed(s.inodes[i].nlink));
    }

    /** inode_create: a new file, not yet named and without references, whose one link is owed. */
    method NewFile(kind: Half, major: Half, minor: Half, ghost x: nat) returns (r: nat)
      requires Good(x, 0) && kind != TYPE_DIR
      modifies fs, fs.disk
      ensures |fs.inodes| == |old(fs.inodes)|
      ensures r == NONE ==> Good(x, 0) && fs.View() == old(fs.View()) && AllUsed(NodesOf(fs.sb, fs.View()))
      ensures r != NONE ==>
        && Good(r, 1) && r < |fs.inodes| && !Used(fs.sb, old(fs.View()), r) && Used(fs.sb, fs.View(), r)
        && NodesOf(fs.sb, fs.View()) == NodesOf(fs.sb, old(fs.View()))[r := Node(true, kind, 1, [])]
        && LinkSum(NodesOf(fs.sb, fs.View()), r) == 0
        && RefSum(slots, r) == 0
        && fs.inodes[r] == DiskInode(kind, major, minor, 1, 0, NO_BLOCKS)
        && SameCells(fs.sb, old(fs.View()), fs.View(), r)
    {
      hide World, NodesOf, NodeOf, Linked, InodeUsed, Contents, Healthy, Sized, Consistent, Synced, SyncedBut,
           SameBytes, Trees, Signed, RefSum, LinkSum, OthersKept, SavedInode, FreeBlocks;
      ghost var s, owner := fs.View(), fs.owner;
      ghost var n := NodesOf(fs.sb, s);
      WorldFacts(fs.sb, s, owner, slots, x, 0);
      HealthyParts(fs.sb, s, owner);
      r := fs.Create(kind, major, minor);
      if r == NONE {
        HealthyParts(fs.sb, s, fs.owner);
        NoneFree(fs.sb, s);
        WorldOwner(fs.sb, s, owner, fs.owner, slots, x, 0);
      } else {
        ShapeOf(fs.sb, fs.View(), fs.owner);
        NewNode(fs.sb, s, fs.View(), r, kind, major, minor);
        LiveNode(fs.sb, s, r);
        Born(n, slots, x, r, Node(true, kind, 1, []));
        WorldIs(fs.sb, fs.View(), fs.owner, slots, r, 1);
      }
    }

    /** inode_write_data on an open file that is not a directory, at any offset. */
    method WriteFile(k: nat, offset: Word, len: Word, src: seq<Byte>, ghost x: nat, ghost owed: int)
        returns (written: nat)
      requires Loose(x, owed) && k < |slots| && slots[k].ref > 0 && |src| == len
      requires slots[k].inum < |fs.inodes| && fs.inodes[slots[k].inum].kind != TYPE_DIR
      modifies fs, fs.disk
      ensures Loose(x, owed) && NodesOf(fs.sb, fs.View()) == NodesOf(fs.sb, old(fs.View())) && written <= len
      ensures |fs.inodes| == |old(fs.inodes)|
      ensures var i := slots[k].inum;
              Contents(fs.sb, fs.View(), i) == Splice(Contents(fs.sb, old(fs.View()), i), offset, src[..written]) <==>
              written == 0 || GapZero(fs.sb, old(fs.View()), i, offset)
    {
      hide World, NodesOf, NodeOf, Linked, InodeUsed, Contents, Healthy, Sized, Consistent, Synced, SyncedBut, Splice,
           GapZero, Covered, ZeroTail, Enough, OthersCovered, SelfCovered, Full;
      ghost var s := fs.View();
      var i := slots[k].inum;
      WorldFacts(fs.sb, s, fs.owner, slots, x, owed);
      HealthyParts(fs.sb, s, fs.owner);
      written := fs.WriteData(i, offset, len, src);
      FileChanged(fs.sb, s, fs.View(), i);
      WorldIs(fs.sb, fs.View(), fs.owner, slots, x, owed);
    }

    /** inode_read_data on an open file: reading may fill holes of the file, which nobody sees. */
    method ReadFile(k: nat, offset: Word, len: Word, dst: array<Byte>, ghost x: nat, ghost owed: int) returns (r: nat)
      requires Loose(x, owed) && k < |slots| && slots[k].ref > 0 && slots[k].inum < |fs.inodes| && dst.Length >= len
      modifies fs, fs.disk, dst
      ensures Loose(x, owed) && NodesOf(fs.sb, fs.View()) == NodesOf(fs.sb, old(fs.View()))
      ensures |fs.inodes| == |old(fs.inodes)|
      ensures forall i :: 0 <= i < |fs.inodes| ==> Contents(fs.sb, fs.View(), i) == old(Contents(fs.sb, fs.View(), i))
    {
      hide World, NodesOf, NodeOf, Linked, InodeUsed, Contents, Healthy, Sized, Consistent, Synced, SyncedBut,
           Covered, OthersCovered, Full, SameBytes, Readable;
      ghost var s := fs.View();
      var i := slots[k].inum;
      WorldFacts(fs.sb, s, fs.owner, slots, x, owed);
      HealthyParts(fs.sb, s, fs.owner);
      r := fs.ReadData(i, offset, len, dst);
      BelowBitmap(fs.sb, s, fs.View());
      FileRead(fs.sb, s, fs.View(), i);
      WorldIs(fs.sb, fs.View(), fs.owner, slots, x, owed);
    }

    /** inode_put: the inode is deleted if and only if this was the last reference and no link is left. */
    method Put(k: nat, ghost x: nat, ghost owed: nat)
      requires Loose(x, owed) && k < |slots| && slots[k].ref > 0
      modifies this, fs, fs.disk
      ensures Loose(x, owed) && |slots| == |old(slots)|
      ensures old(Synced(fs.sb, fs.View())) ==> Synced(fs.sb, fs.View())
      ensures slots == old(slots)[k := slots[k]] && slots[k].inum == old(slots)[k].inum
      ensures slots[k].ref == old(slots)[k].ref - 1
      ensures RefsMoved(old(slots), slots, slots[k].inum, -1)
      ensures slots[k].inum < |old(fs.inodes)|
      ensures if RefSum(slots, slots[k].inum) == 0 && old(fs.inodes)[slots[k].inum].nlink == 0
              then Deleted(fs.sb, old(fs.View()), fs.View(), fs.owner, slots[k].inum)
              else fs.View() == old(fs.View()) && fs.owner == old(fs.owner) && slots[k].valid
    {
      hide World, NodesOf, NodeOf, Linked, Rooted, Counted, RefSum, Used, Deleted, OthersKept, Prefix, InodeUsed,
           Contents, Healthy, Synced, SyncedBut, Sized;
      ghost var s, owner, was := fs.View(), fs.owner, slots;
      ghost var n := NodesOf(fs.sb, s);
      WorldFacts(fs.sb, s, owner, slots, x, owed);
      var i := slots[k].inum;
      RefsOfSlot(n, slots, k);
      LiveNode(fs.sb, s, i);
      if slots[k].ref == 1 && slots[k].valid && fs.inodes[i].nlink == 0 {
        DeleteFile(fs, i);
        Dropped(n, slots, x, owed, k, NodeOf(fs.sb, fs.View(), i));
        slots := slots[k := slots[k].(valid := false)];
        slots := slots[k := slots[k].(ref := slots[k].ref - 1)];
        assert slots == was[k := CacheSlot(i, 0, false)];
        WorldIs(fs.sb, fs.View(), fs.owner, slots, x, owed);
      } else {
        Released(n, slots, x, owed, k);
        WorldSlots(fs.sb, s, owner, slots, x, owed, slots[k := slots[k].(ref := slots[k].ref - 1)]);
        slots := slots[k := slots[k].(ref := slots[k].ref - 1)];
      }
    }
  }

  /** Directory `d` has lost the name `name`, which led to `i`, and nothing else has changed. */
  ghost predicate Unnaming(n: seq<Node>, m: seq<Node>, d: nat, name: seq<Byte>, i: Word) {
    && d < |n|
    && exists k ::
         && 0 <= k < |n[d].entries| && n[d].entries[k] == Slot(name, i)
         && m == n[d := n[d].(entries := n[d].entries[k := Slot([], 0)])]
         && Names(n[d].entries[k := Slot([], 0)]) == Names(n[d].entries) - {name}
  }

  lemma StepIs(n: seq<Node>, d: nat, name: seq<Byte>)
    requires d < |n|
    ensures Step(n, d, name) == Lookup(n[d].kind, n[d].entries, name)
  {}

  lemma PutIs(e: seq<Slot>, k: nat, f: Slot)
    requires k < |e|
    ensures PutSlot(e, k, f) == e[k := f]
  {}

  lemma WorldOther(sb: SuperBlock, s: Store, owner: map<nat, Pos>, slots: seq<CacheSlot>, x: nat, y: nat)
    requires World(sb, s, owner, slots, x, 0)
    ensures World(sb, s, owner, slots, y, 0)
  {
    hide Healthy, Sized, NodesOf, Linked;
    Settled(NodesOf(sb, s), slots, x, y);
  }

  lemma Relinked(sb: SuperBlock, s: Store, t: Store, i: nat, nlink: int)
    requires Shape(sb, s) && |t.blocks| == |s.blocks| && i < |s.inodes| && Sized(sb, s) && -0x8000 <= nlink < 0x8000
    requires t.inodes == s.inodes[i := s.inodes[i].(nlink := Short(nlink))]
    requires forall j: nat :: j < |s.inodes| ==>
               Contents(sb, t, j) == Contents(sb, s, j) && InodeUsed(sb, t.blocks, j) == InodeUsed(sb, s.blocks, j)
    ensures NodesOf(sb, t) == NodesOf(sb, s)[i := NodesOf(sb, s)[i].(nlink := nlink)] && Sized(sb, t)
  {
    hide Contents, InodeUsed, Slots;
    forall j: nat | j < |s.inodes| && j != i ensures SameFile(sb, s, t, j) {}
    assert Used(sb, t, i) == Used(sb, s, i);
    OneChanged(sb, s, t, i);
    assert NodeOf(sb, t, i) == NodeOf(sb, s, i).(nlink := nlink);
  }

  /** The graph does not show the contents of a file that is not a directory. */
  lemma FileChanged(sb: SuperBlock, s: Store, t: Store, i: nat)
    requires Shape(sb, s) && SameBelow(s.blocks, t.blocks, sb.inodeFirst) && i < |s.inodes| && Sized(sb, s)
    requires OthersSame(s.inodes, t.inodes, i) && s.inodes[i].kind != TYPE_DIR
    requires t.inodes[i] == s.inodes[i].(index := t.inodes[i].index, size := t.inodes[i].size)
    requires forall j :: 0 <= j < |t.inodes| && j != i ==> Contents(sb, t, j) == Contents(sb, s, j)
    ensures NodesOf(sb, t) == NodesOf(sb, s) && Sized(sb, t)
  {
    SameBitmap(sb, s.blocks, t.blocks);
    hide Contents, InodeUsed, Slots;
    forall j: nat | j < |s.inodes| && j != i ensures SameFile(sb, s, t, j) {}
    OneChanged(sb, s, t, i);
    assert NodeOf(sb, t, i) == NodeOf(sb, s, i);
  }

  lemma FileRead(sb: SuperBlock, s: Store, t: Store, i: nat)
    requires Shape(sb, s) && SameBelow(s.blocks, t.blocks, sb.inodeFirst) && i < |s.inodes| && Sized(sb, s)
    requires SameButIndex(s.inodes, t.inodes)
    requires forall j :: 0 <= j < |t.inodes| ==> Contents(sb, t, j) == Contents(sb, s, j)
    ensures NodesOf(sb, t) == NodesOf(sb, s) && Sized(sb, t)
  {
    SameBitmap(sb, s.blocks, t.blocks);
    hide Contents, InodeUsed, Slots;
    forall j: nat | j < |s.inodes| ensures SameFile(sb, s, t, j) {}
    assert SameFile(sb, s, t, i);
    OneChanged(sb, s, t, i);
    assert NodeOf(sb, t, i) == NodeOf(sb, s, i);
  }

  ghost predicate AllUsed(n: seq<Node>) { forall i {:trigger n[i]} :: 0 <= i < |n| ==> n[i].used }

  lemma NoneFree(sb: SuperBlock, s: Store)
    requires Shape(sb, s) && forall i: nat :: i < |s.inodes| ==> InodeUsed(sb, s.blocks, i)
    ensures AllUsed(NodesOf(sb, s))
  {
    hide InodeUsed;
    forall i | 0 <= i < |NodesOf(sb, s)| ensures NodesOf(sb, s)[i].used { LiveNode(sb, s, i); }
  }

  lemma DeletedNodes(sb: SuperBlock, s: Store, t: Store, owner: map<nat, Pos>, i: nat)
    requires Deleted(sb, s, t, owner, i)
    ensures var n, m := NodesOf(sb, s), NodesOf(sb, t);
            |m| == |n| && i < |n| && !m[i].used && forall j :: 0 <= j < |n| && j != i ==> m[j] == n[j]
  {
    hide Used, Contents, Slots;
    forall j: nat | j < |s.inodes| && j != i
      ensures NodeOf(sb, t, j) == NodeOf(sb, s, j)
    {
      assert SameFile(sb, s, t, j);
    }
  }

  lemma NewNode(sb: SuperBlock, s: Store, t: Store, r: nat, kind: Half, major: Half, minor: Half)
    requires Shape(sb, s) && |t.blocks| == |s.blocks| && r < |s.inodes| && Sized(sb, s) && kind != TYPE_DIR
    requires OthersKept(sb, s, t, r) && t.inodes[r] == DiskInode(kind, major, minor, 1, 0, NO_BLOCKS)
    requires forall j: nat :: j < |s.inodes| && j != r ==> Contents(sb, t, j) == Contents(sb, s, j)
    requires forall j: nat :: j < |s.inodes| ==>
               InodeUsed(sb, t.blocks, j) == if j == r then true else InodeUsed(sb, s.blocks, j)
    ensures NodesOf(sb, t) == NodesOf(sb, s)[r := Node(true, kind, 1, [])] && Sized(sb, t) && Used(sb, t, r)
  {
    hide Contents, InodeUsed, Slots, OthersCovered, ByteAt;
    forall j: nat | j < |s.inodes| && j != r ensures SameFile(sb, s, t, j) {}
    OneChanged(sb, s, t, r);
  }

  /** The free blocks, and all walks but those of inode `r`, are as before. */
  ghost predicate SameCells(sb: SuperBlock, s: Store, t: Store, r: nat) {
    && Shape(sb, s)
    && Shape(sb, t)
    && (forall q {:trigger Ptr(Trees(sb, t), q)} :: Root(q) != r ==> Ptr(Trees(sb, t), q) == Ptr(Trees(sb, s), q))
    && FreeBlocks(sb, t.blocks) == FreeBlocks(sb, s.blocks)
  }

  lemma CellsSame(sb: SuperBlock, s: Store, t: Store, owner: map<nat, Pos>, r: nat)
    requires Consistent(sb, s, owner) && Consistent(sb, t, owner) && t.lost == s.lost && Trees(sb, t) == Trees(sb, s)
    ensures SameCells(sb, s, t, r)
  {
    FreeSame(sb, s, t, owner);
    hide Trees, Owned, InUse;
  }

  lemma {:induction false} MissingSame(f: Forest, g: Forest, r: nat, p: Pos)
    requires forall q {:trigger Ptr(g, q)} :: Root(q) != r ==> Ptr(g, q) == Ptr(f, q)
    requires Root(p) != r
    ensures Missing(g, p) == Missing(f, p)
  {
    assert Ptr(g, p) == Ptr(f, p);
    if p.Sub? { MissingSame(f, g, r, p.up); }
  }

  lemma RoomSame(sb: SuperBlock, s: Store, t: Store, d: nat, r: nat)
    requires SameCells(sb, s, t, r) && d < |s.inodes| && d < |t.inodes| && t.inodes[d].size == s.inodes[d].size
    requires SlotsIn(sb, t, d) == SlotsIn(sb, s, d) && d != r
    ensures Room(sb, t, d) == Room(sb, s, d)
  {
    hide Trees, SlotsIn, FreeBlocks, FirstFree, LogicalPos, Missing, Ptr, Root;
    var n := s.inodes[d].size / BLOCK_SIZE;
    if s.inodes[d].size + ENTRY <= NONE {
      assert n < MAX_BLOCKS;
      SlotOf(d, n);
      MissingSame(Trees(sb, s), Trees(sb, t), r, LogicalPos(d, n));
    }
  }

  lemma NodesSame(n: seq<Node>, d: nat)
    requires d < |n|
    ensures n[d := n[d].(entries := n[d].entries)] == n
  {}

  lemma ReadyNow(fs: FileSystem, slots: seq<CacheSlot>, d: nat, x: nat, owed: int)
    requires fs.disk.held == {} && World(fs.sb, fs.View(), fs.owner, slots, x, owed) && Used(fs.sb, fs.View(), d)
    ensures Ready(fs, d) && d < |fs.inodes| && Rooted(NodesOf(fs.sb, fs.View())) && |fs.inodes| < NONE
  {
    WorldFacts(fs.sb, fs.View(), fs.owner, slots, x, owed);
    hide Healthy, Slots, Contents, UniqueNames, InodeUsed, CacheOk, Counted, NodesOf, World, Linked;
    LiveNode(fs.sb, fs.View(), d);
    assert DirNode(NodesOf(fs.sb, fs.View())[d]);
    HealthyParts(fs.sb, fs.View(), fs.owner);
    hide Consistent;
  }

  lemma ReadyParts(fs: FileSystem, d: nat)
    requires Ready(fs, d)
    ensures fs.disk.held == {} && Healthy(fs.sb, fs.View(), fs.owner) && Consistent(fs.sb, fs.View(), fs.owner)
    ensures d < |fs.inodes|
    ensures (fs.inodes[d].kind == TYPE_DIR ==>
              fs.inodes[d].size % ENTRY == 0 && UniqueNames(SlotsIn(fs.sb, fs.View(), d)))
  {
    hide Healthy, Consistent, Contents, UniqueNames, InodeUsed;
  }

  /** The world after one slot of directory `d` was written, or after the write came to nothing. */
  lemma SlotsWorld(sb: SuperBlock, s: Store, owner: map<nat, Pos>, t: Store, owner': map<nat, Pos>,
                   slots: seq<CacheSlot>, x: nat, owed: int, d: nat, k: nat, e: Slot, ok: bool)
    requires World(sb, s, owner, slots, x, owed) && Healthy(sb, t, owner') && Used(sb, s, d)
    requires s.inodes[d].kind == TYPE_DIR
    requires var n := NodesOf(sb, s)[d].entries;
             && k <= |n| && OnlySlots(sb, s, t, d, if ok then PutSlot(n, k, e) else n)
             && (e.name != [] ==> e.inum == x && Used(sb, s, x) && (k < |n| ==> n[k].name == []))
             && (e.name == [] ==> k < |n| && n[k].name != [] && n[k].inum == x)
    requires t.inodes[d].kind == TYPE_DIR && t.inodes[d].size % ENTRY == 0 && UniqueNames(SlotsIn(sb, t, d))
    ensures World(sb, t, owner', slots, x, if !ok then owed else if e.name == [] then owed + 1 else owed - 1)
    ensures var n := NodesOf(sb, s);
            NodesOf(sb, t) == if ok then n[d := n[d].(entries := PutSlot(n[d].entries, k, e))] else n
  {
    hide World, NodesOf, NodeOf, Linked, CacheOk, Rooted, Counted, InodeUsed, Contents, Healthy, Sized, Slots,
         UniqueNames, PutSlot, OnlySlots;
    WorldFacts(sb, s, owner, slots, x, owed);
    var n := NodesOf(sb, s);
    var now := if ok then PutSlot(n[d].entries, k, e) else n[d].entries;
    SlotsAre(sb, s, t, d, now);
    SlotsChanged(sb, s, t, d, now);
    LiveNode(sb, s, d);
    LiveNode(sb, s, x);
    NodesSame(n, d);
    if ok { Renamed(n, slots, x, owed, d, k, e); }
    WorldIs(sb, t, owner', slots, x, if !ok then owed else if e.name == [] then owed + 1 else owed - 1);
  }

  lemma OnlyRecord(sb: SuperBlock, s: Store, t: Store, d: nat, e: seq<Slot>)
    requires OnlySlots(sb, s, t, d, e)
    ensures OthersSame(s.inodes, t.inodes, d)
  {
    hide Contents, Slots;
  }

  lemma SlotsAre(sb: SuperBlock, s: Store, t: Store, d: nat, e: seq<Slot>)
    requires OnlySlots(sb, s, t, d, e)
    ensures d < |t.inodes| && SlotsIn(sb, t, d) == e && |t.inodes| == |s.inodes| && t.inodes[d].kind == s.inodes[d].kind
  {}

  lemma LiveNode(sb: SuperBlock, s: Store, i: nat)
    ensures |NodesOf(sb, s)| == |s.inodes| && (i < |s.inodes| ==> NodesOf(sb, s)[i] == NodeOf(sb, s, i))
    ensures i < |s.inodes| ==> NodeOf(sb, s, i).used == Used(sb, s, i) && NodeOf(sb, s, i).kind == s.inodes[i].kind
    ensures i < |s.inodes| ==> NodeOf(sb, s, i).nlink == Signed(s.inodes[i].nlink)
    ensures i < |s.inodes| && NodeOf(sb, s, i).used && s.inodes[i].kind == TYPE_DIR ==>
              NodeOf(sb, s, i).entries == SlotsIn(sb, s, i)
  {}

  lemma HealthyParts(sb: SuperBlock, s: Store, owner: map<nat, Pos>)
    requires Healthy(sb, s, owner)
    ensures Consistent(sb, s, owner)
  {}

  lemma WorldIs(sb: SuperBlock, s: Store, owner: map<nat, Pos>, slots: seq<CacheSlot>, x: nat, owed: int)
    requires Healthy(sb, s, owner) && Sized(sb, s) && Linked(NodesOf(sb, s), slots, x, owed)
    ensures World(sb, s, owner, slots, x, owed)
  {}
}
