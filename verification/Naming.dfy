/** Creating, linking and unlinking files by path (fs/dentry.c): link counts follow the names. */
module Naming {
  import opened Memory
  import opened BlockDevice
  import opened RadixForest
  import opened FileTree
  import opened FileLayout
  import opened FileHealth
  import opened FileSync
  import opened FileSpace
  import opened Dirent
  import opened Dentry
  import opened Inode
  import opened LinkGraph
  import opened InodeCache
  import opened PathName
  import opened Path

  /** How a call ends: 0; -1; the panic "inode_get: no inodes"; waiting for a sleep lock it holds
      itself; a link count past 32767; or a directory found where this model stops. */
  datatype Outcome = Done | Failed | Panicked | Stuck | Wrapped | IsDirectory

  /** Directory `d` has the new name `name` for `i`. */
  function Naming(n: seq<Node>, d: nat, name: seq<Byte>, i: Word): seq<Node>
    requires d < |n|
  {
    n[d := n[d].(entries := Added(n[d].entries, name, i))]
  }

  lemma GoodOther(ic: Icache, x: nat, y: nat)
    requires ic.Loose(x, 0)
    ensures ic.Loose(y, 0)
  {
    hide World;
    WorldOther(ic.fs.sb, ic.fs.View(), ic.fs.owner, ic.slots, x, y);
  }

  /** What a walk to the parent of a new name finds. */
  ghost predicate Parent(n: seq<Node>, start: nat, path: seq<Byte>, d: nat, name: seq<Byte>) {
    && start < |n| && d < |n| && n[d].used
    && d == Resolve(n, start, Butlast(Components(path))) && IsName(name)
    && Components(path) != [] && CStr(name) == Components(path)[|Components(path)| - 1] != []
  }

  /** The last component of a path. */
  function Last(path: seq<Byte>): seq<Byte>
    requires Components(path) != []
  {
    Components(path)[|Components(path)| - 1]
  }

  /** The inode of the directory that would hold the last name of `path`, at least |n| if there is none. */
  function ParentOf(n: seq<Node>, start: nat, path: seq<Byte>): nat
    requires start < |n|
  {
    Resolve(n, start, Butlast(Components(path)))
  }

  /** No new name can be made for `path`: its parent does not exist, or the name is there. */
  predicate NoPlace(n: seq<Node>, start: nat, path: seq<Byte>)
    requires start < |n| && Components(path) != []
  {
    var d := ParentOf(n, start, path); d >= |n| || Step(n, d, Last(path)) != NONE
  }

  /** `path` does not lead to a file. */
  predicate NoFile(n: seq<Node>, start: nat, path: seq<Byte>)
    requires start < |n|
  {
    var i := Resolve(n, start, Components(path)); i >= |n| || n[i].kind == TYPE_DIR
  }

  /** path_create_inode finds no cache slot: for an inode on the way, or for the new inode. */
  ghost predicate CreateStarved(n: seq<Node>, u: Usage, cwd: nat, path: seq<Byte>)
    requires Start(path, cwd) < |n| && Components(path) != []
  {
    || WalkStarved(n, u, cwd, path, Butlast(Components(path)))
    || (!NoPlace(n, Start(path, cwd), path) && !AllUsed(n) && Taking(u, ParentOf(n, Start(path, cwd), path)).idle <= 0)
  }

  /** path_link finds no cache slot: on the way to the file, or on the way to the new name while it holds the file. */
  predicate LinkStarved(n: seq<Node>, u: Usage, cwd: nat, oldPath: seq<Byte>, newPath: seq<Byte>)
    requires Start(oldPath, cwd) < |n| && Start(newPath, cwd) < |n|
  {
    || WalkStarved(n, u, cwd, oldPath, Components(oldPath))
    || (!NoFile(n, Start(oldPath, cwd), oldPath) &&
        WalkStarved(n, Taking(u, Resolve(n, Start(oldPath, cwd), Components(oldPath))), cwd, newPath,
            Butlast(Components(newPath))))
  }

  /** path_unlink finds no cache slot: for an inode on the way, or for the file. */
  predicate UnlinkStarved(n: seq<Node>, u: Usage, cwd: nat, path: seq<Byte>)
    requires Start(path, cwd) < |n| && Components(path) != []
  {
    var d := ParentOf(n, Start(path, cwd), path);
    || WalkStarved(n, u, cwd, path, Butlast(Components(path)))
    || (d < |n| && Last(path) != [46] && Last(path) != [46, 46] && Step(n, d, Last(path)) < |n| &&
        !Fits(Taking(u, d), Step(n, d, Last(path))))
  }

  /** How path_link ends when the cache has room for its references. */
  function LinkResult(n: seq<Node>, a: nat, oldPath: seq<Byte>, b: nat, newPath: seq<Byte>): Outcome
    requires a < |n| && b < |n| && Components(newPath) != []
  {
    if NoFile(n, a, oldPath) || NoPlace(n, b, newPath) then Failed
    else if Resolve(n, a, Components(oldPath)) == ParentOf(n, b, newPath) then Stuck
    else if n[Resolve(n, a, Components(oldPath))].nlink == 0x7FFF then Wrapped
    else Done
  }

  /** How path_unlink ends when the cache has room for its references. */
  function UnlinkResult(n: seq<Node>, start: nat, path: seq<Byte>): Outcome
    requires start < |n| && Components(path) != []
  {
    var d := ParentOf(n, start, path);
    if d >= |n| || Last(path) == [46] || Last(path) == [46, 46] || Step(n, d, Last(path)) >= |n| then Failed
    else if Step(n, d, Last(path)) == d then Stuck
    else if n[Step(n, d, Last(path))].kind == TYPE_DIR then IsDirectory
    else Done
  }

  /** A walk leads to directory `d` for the last name of `path`, and no entry has that name. */
  ghost predicate Vacant(n: seq<Node>, start: nat, path: seq<Byte>, d: nat)
    requires Components(path) != []
  {
    && d < |n| && Leads(n, start, Butlast(Components(path)), d)
    && forall k: Word :: k < |n| ==> !Enters(n, d, Last(path), k)
  }

  lemma PlaceIs(n: seq<Node>, start: nat, path: seq<Byte>, d: nat)
    requires Rooted(n) && |n| < NONE && start < |n| && n[start].used && Components(path) != []
    ensures !NoPlace(n, start, path) && d == ParentOf(n, start, path) <==> Vacant(n, start, path, d)
  {
    hide Components, Resolve, Rooted, Butlast, Step, Leads, Enters;
    ParentFacts(n, start, path);
    if d < |n| {
      ResolveFollows(n, start, Butlast(Components(path)), d);
      if d == ParentOf(n, start, path) {
        StepLive(n, d, Last(path));
        forall k: Word | k < |n| ensures Step(n, d, Last(path)) == k <==> Enters(n, d, Last(path), k) {
          StepTo(n, d, Last(path), k);
        }
        var k := Step(n, d, Last(path));
        if k != NONE { assert Enters(n, d, Last(path), k); }
      }
    }
  }

  /** path_create_inode finds a place exactly when a walk leads to a directory that lacks the name. */
  lemma CreatePlace(n: seq<Node>, start: nat, path: seq<Byte>)
    requires Rooted(n) && |n| < NONE && start < |n| && n[start].used && Components(path) != []
    ensures NoPlace(n, start, path) <==> !exists d :: Vacant(n, start, path, d)
  {
    hide Components, Resolve, Rooted, Vacant, NoPlace;
    PlaceIs(n, start, path, ParentOf(n, start, path));
    forall d | Vacant(n, start, path, d) ensures !NoPlace(n, start, path) { PlaceIs(n, start, path, d); }
  }

  /** A walk along `oldPath` leads to file `i`, and one along `newPath` to directory `d` for a new name. */
  ghost predicate LinksTo(n: seq<Node>, a: nat, oldPath: seq<Byte>, b: nat, newPath: seq<Byte>, i: nat, d: nat)
    requires Components(newPath) != []
  {
    && i < |n| && Leads(n, a, Components(oldPath), i) && n[i].kind != TYPE_DIR
    && Vacant(n, b, newPath, d)
  }

  lemma LinkResultIs(n: seq<Node>, a: nat, oldPath: seq<Byte>, b: nat, newPath: seq<Byte>, i: nat, d: nat)
    requires Rooted(n) && |n| < NONE && a < |n| && n[a].used && b < |n| && n[b].used && Components(newPath) != []
    requires i < |n|
    ensures LinksTo(n, a, oldPath, b, newPath, i, d) <==>
              && !NoFile(n, a, oldPath) && i == Resolve(n, a, Components(oldPath))
              && !NoPlace(n, b, newPath) && d == ParentOf(n, b, newPath)
  {
    hide Components, Resolve, Rooted, Vacant, NoPlace, Leads, ParentOf;
    PlaceIs(n, b, newPath, d);
    ResolveFollows(n, a, Components(oldPath), i);
  }

  /** path_link fails exactly when there are no such file and directory; with them, it waits for itself when they are
      the same inode, and wraps the link count of a file with 32767 links. */
  lemma LinkEnds(n: seq<Node>, a: nat, oldPath: seq<Byte>, b: nat, newPath: seq<Byte>)
    requires Rooted(n) && |n| < NONE && a < |n| && n[a].used && b < |n| && n[b].used && Components(newPath) != []
    ensures LinkResult(n, a, oldPath, b, newPath) == Failed <==>
              !exists i: nat, d: nat :: i < |n| && LinksTo(n, a, oldPath, b, newPath, i, d)
    ensures forall i: nat, d: nat :: i < |n| && LinksTo(n, a, oldPath, b, newPath, i, d) ==>
              LinkResult(n, a, oldPath, b, newPath) ==
                if i == d then Stuck else if n[i].nlink == 32767 then Wrapped else Done
  {
    hide Components, Resolve, Rooted, NoPlace, LinksTo, ParentOf;
    forall i: nat, d: nat | i < |n|
      ensures LinksTo(n, a, oldPath, b, newPath, i, d) <==>
                && !NoFile(n, a, oldPath) && i == Resolve(n, a, Components(oldPath))
                && !NoPlace(n, b, newPath) && d == ParentOf(n, b, newPath)
    {
      LinkResultIs(n, a, oldPath, b, newPath, i, d);
    }
    var i := Resolve(n, a, Components(oldPath));
    if i < |n| { LinkResultIs(n, a, oldPath, b, newPath, i, ParentOf(n, b, newPath)); }
  }

  /** A walk leads to directory `d` for the last name of `path`, which is neither "." nor "..", and names inode `i`. */
  ghost predicate Unlinks(n: seq<Node>, start: nat, path: seq<Byte>, d: nat, i: Word)
    requires Components(path) != []
  {
    && d < |n| && i < |n| && Leads(n, start, Butlast(Components(path)), d)
    && Last(path) != ['.' as int] && Last(path) != ['.' as int, '.' as int] && Enters(n, d, Last(path), i)
  }

  /** path_unlink fails exactly when there is no such name; else it takes the name away, unless it names the directory
      itself, or another directory. */
  lemma UnlinkEnds(n: seq<Node>, start: nat, path: seq<Byte>)
    requires Rooted(n) && |n| < NONE && start < |n| && n[start].used && Components(path) != []
    ensures UnlinkResult(n, start, path) == Failed <==>
              !exists d: nat, i: Word :: i < |n| && Unlinks(n, start, path, d, i)
    ensures forall d: nat, i: Word :: i < |n| && Unlinks(n, start, path, d, i) ==>
              UnlinkResult(n, start, path) ==
                if i == d then Stuck else if n[i].kind == TYPE_DIR then IsDirectory else Done
  {
    hide Components, Resolve, Rooted, Butlast, Step, Leads, Enters;
    var d := ParentOf(n, start, path);
    ParentFacts(n, start, path);
    if d < |n| {
      ResolveFollows(n, start, Butlast(Components(path)), d);
      StepLive(n, d, Last(path));
      var i := Step(n, d, Last(path));
      if i < |n| { StepTo(n, d, Last(path), i); }
      if UnlinkResult(n, start, path) != Failed { assert Unlinks(n, start, path, d, i); }
    }
    forall e: nat, j: Word | j < |n| && Unlinks(n, start, path, e, j)
      ensures e == d && j == Step(n, d, Last(path))
    {
      ResolveFollows(n, start, Butlast(Components(path)), e);
      StepTo(n, e, Last(path), j);
    }
  }

  /** A directory that takes a new entry. */
  ghost predicate Takes(sb: SuperBlock, s: Store, d: nat) {
    Shape(sb, s) && d < |s.inodes| && s.inodes[d].kind == TYPE_DIR && Room(sb, s, d)
  }

  lemma ParentFacts(n: seq<Node>, start: nat, path: seq<Byte>)
    requires start < |n| < NONE && n[start].used && Rooted(n)
    ensures var d := ParentOf(n, start, path); d == NONE || (d < |n| && n[d].used)
    ensures var i := Resolve(n, start, Components(path)); i == NONE || (i < |n| && n[i].used)
  {
    hide Components, Resolve, Rooted, Butlast;
    ResolveUsed(n, start, Butlast(Components(path)));
    ResolveUsed(n, start, Components(path));
  }

  /** The middle of path_create_inode: a new inode with one link, in a cache slot. */
  method TakeNew(ic: Icache, dp: nat, kind: Half, major: Half, minor: Half, ghost was: seq<CacheSlot>)
    returns (r: Walked)
    requires ic.Good(0, 0) && Standing(NodesOf(ic.fs.sb, ic.fs.View()), was, ic.slots, dp) && kind != TYPE_DIR
    modifies ic, ic.fs, ic.fs.disk
    ensures r.Null? ==> ic.Good(0, 0) && ic.fs.View() == old(ic.fs.View()) && ic.slots == old(ic.slots)
    ensures r.Null? <==> AllUsed(NodesOf(ic.fs.sb, old(ic.fs.View())))
    ensures r == NoInodes <==>
              !AllUsed(NodesOf(ic.fs.sb, old(ic.fs.View()))) && Taking(UsageOf(was), old(ic.slots[dp].inum)).idle <= 0
    ensures r == NoInodes ==> Exhausted(was, ic.slots, 1)
    ensures r.At? ==>
      && HeldBoth(was, ic.slots, dp, r.slot) && r.slot < |ic.slots| && dp < |ic.slots|
      && ic.slots[dp].inum == old(ic.slots[dp].inum) && ic.slots[dp].ref >= old(ic.slots[dp].ref) > 0
      && ic.Good(ic.slots[r.slot].inum, 1)
      && NewlyMade(NodesOf(ic.fs.sb, old(ic.fs.View())), NodesOf(ic.fs.sb, ic.fs.View()), ic.slots[r.slot].inum, kind)
      && SameCells(ic.fs.sb, old(ic.fs.View()), ic.fs.View(), ic.slots[r.slot].inum)
      && ic.slots[r.slot].inum < |ic.fs.inodes|
      && ic.fs.inodes[ic.slots[r.slot].inum] == DiskInode(kind, major, minor, 1, 0, NO_BLOCKS)
  {
    hide World, NodesOf, NodeOf, Linked, CacheOk, Counted, RefSum, LinkSum, Rooted, Synced, Held, HeldBoth, Exhausted,
         SameCells, Taking, UsageOf;
    ghost var s1, s, n := ic.slots, ic.fs.View(), NodesOf(ic.fs.sb, ic.fs.View());
    GoodFacts(ic, 0, 0);
    HeldUsage(n, was, s1, dp);
    LiveNode(ic.fs.sb, ic.fs.View(), ic.slots[dp].inum);
    var i := ic.NewFile(kind, major, minor, 0);
    if i == NONE { return Null; }
    ghost var m := NodesOf(ic.fs.sb, ic.fs.View());
    LiveNode(ic.fs.sb, ic.fs.View(), i);
    LiveNode(ic.fs.sb, s, i);
    FreshFits(n, s1, i);
    var k := ic.Get(i, i, 1);
    if k == N_INODE {
      HeldExhausts(was, ic.slots, dp);
      return NoInodes;
    }
    TakenToo(was, s1, dp, ic.slots, k);
    SameNode(m, i);
    LiveNode(ic.fs.sb, s, i);
    RefsNow(ic, k, i, 1);
    ghost var s2 := ic.fs.View();
    ic.Recount(i, 1, 1);
    CellsThen(ic.fs.sb, s, s2, ic.fs.View(), i);
    return At(k);
  }

  /** A free inode has no slot yet. */
  lemma FreshFits(n: seq<Node>, slots: seq<CacheSlot>, i: nat)
    requires CacheOk(n, slots) && i < |n| && !n[i].used
    ensures (exists j :: 0 <= j < |slots| && (slots[j].ref == 0 || slots[j].inum == i)) <==> UsageOf(slots).idle > 0
    ensures !AllUsed(n)
  {
    FitsMeans(slots, i);
    forall j | 0 <= j < |slots| && slots[j].ref > 0 ensures slots[j].inum != i { assert slots[j].valid; }
  }

  /** Inode `i`, free in `n`, is a file with one link and no name in `m`. */
  ghost predicate NewlyMade(n: seq<Node>, m: seq<Node>, i: nat, kind: Half) {
    i < |n| && !n[i].used && m == n[i := Node(true, kind, 1, [])] && LinkSum(m, i) == 0 && i < NONE
  }

  lemma RefsNow(ic: Icache, k: nat, x: nat, owed: int)
    requires ic.Loose(x, owed) && k < |ic.slots| && ic.slots[k].ref > 0
    ensures RefSum(ic.slots, ic.slots[k].inum) == ic.slots[k].ref
  {
    hide World, NodesOf, Linked, Rooted, RefSum;
    GoodFacts(ic, x, owed);
    RefsOfSlot(NodesOf(ic.fs.sb, ic.fs.View()), ic.slots, k);
  }

  lemma CellsThen(sb: SuperBlock, s: Store, t: Store, u: Store, r: nat)
    requires SameCells(sb, s, t, r) && SameCells(sb, t, u, r)
    ensures SameCells(sb, s, u, r)
  {
    hide Trees, Root, FreeBlocks;
  }

  lemma SameNode(n: seq<Node>, i: nat)
    requires i < |n|
    ensures n[i := n[i].(nlink := n[i].nlink)] == n
  {}

  /** path_create_inode for files that are not directories.  `d` is the directory and `entered` tells
      whether the name was entered there: dentry_create's answer, which the code ignores. */
  method CreateFile(ic: Icache, cwd: nat, path: seq<Byte>, kind: Half, major: Half, minor: Half)
    returns (r: Walked, ghost entered: bool, ghost d: nat, ghost name: seq<Byte>)
    requires ic.Good(0, 0) && cwd < |ic.slots| && ic.slots[cwd].ref > 0 && 0 !in path && Components(path) != []
    requires kind != TYPE_DIR
    modifies ic, ic.fs, ic.fs.disk
    ensures Start(path, old(ic.slots[cwd].inum)) < |NodesOf(ic.fs.sb, old(ic.fs.View()))|
    ensures r == NoInodes <==>
              CreateStarved(NodesOf(ic.fs.sb, old(ic.fs.View())), UsageOf(old(ic.slots)), old(ic.slots[cwd].inum), path)
    ensures r == NoInodes ==> Exhausted(old(ic.slots), ic.slots, 1)
    ensures r != NoInodes ==>
      var n := NodesOf(ic.fs.sb, old(ic.fs.View()));
      r == Null <==> NoPlace(n, Start(path, old(ic.slots[cwd].inum)), path) || AllUsed(n)
    ensures r.Null? ==> ic.Good(0, 0) && ic.fs.View() == old(ic.fs.View()) && Held(old(ic.slots), ic.slots, N_INODE)
    ensures r.At? ==>
      && Parent(NodesOf(ic.fs.sb, old(ic.fs.View())), Start(path, old(ic.slots[cwd].inum)), path, d, name)
      && Held(old(ic.slots), ic.slots, r.slot) && r.slot < |ic.slots|
      && Created(NodesOf(ic.fs.sb, old(ic.fs.View())), NodesOf(ic.fs.sb, ic.fs.View()), ic.slots[r.slot].inum, kind, d,
          CStr(name), entered)
      && ic.Loose(ic.slots[r.slot].inum, if entered then 0 else 1)
      && (entered ==> ic.Good(0, 0))
      // an empty file of the kind and with the device numbers asked for
      && ic.slots[r.slot].inum < |ic.fs.inodes|
      && ic.fs.inodes[ic.slots[r.slot].inum] == DiskInode(kind, major, minor, 1, 0, NO_BLOCKS)
    // link counts are right again if and only if the directory could take the entry
    ensures r.At? ==> (entered <==> Takes(ic.fs.sb, old(ic.fs.View()), d))
    ensures r.At? ==>
              (Linked(NodesOf(ic.fs.sb, ic.fs.View()), ic.slots, 0, 0) <==> Takes(ic.fs.sb, old(ic.fs.View()), d))
    // at most the record of the directory is not on disk
    ensures r.At? ==> Synced(ic.fs.sb, ic.fs.View()) || Late(ic.fs.sb, ic.fs.View(), d)
  {
    hide World, NodesOf, NodeOf, Linked, CacheOk, Counted, RefSum, LinkSum, Rooted, Step, IsName, CStr, Synced, Held,
         HeldBoth, Used, Components, Resolve, Butlast, Added, FirstFree, Names, NewlyMade, Created, Exhausted, Room,
         Late, SameCells, WalkStarved, UsageOf, Taking, Absolute, AllUsed;
    ghost var s0, n, v0 := ic.slots, NodesOf(ic.fs.sb, ic.fs.View()), ic.fs.View();
    GoodFacts(ic, 0, 0);
    SizedNow(ic, 0, 0);
    StartLives(ic, cwd, path);
    ParentFacts(n, Start(path, s0[cwd].inum), path);
    entered, d, name := false, 0, [];
    var buf := new Byte[NAME_LEN];
    var dp := PathToParent(ic, cwd, path, buf);
    if !dp.At? { return dp, entered, d, name; }
    var dir := ic.slots[dp.slot].inum;
    d, name := dir, buf[..];
    LiveNode(ic.fs.sb, ic.fs.View(), dir);
    GivenBack(s0, ic.slots, dp.slot);
    var there := ic.SearchIn(dir, buf[..], 0, 0);
    if there != NONE {
      Leave(ic, dp.slot, 0, 0);
      return Null, entered, d, name;
    }
    r := TakeNew(ic, dp.slot, kind, major, minor, s0);
    if r.Null? { Leave(ic, dp.slot, 0, 0); }
    if !r.At? { return r, entered, d, name; }
    ghost var m, i := NodesOf(ic.fs.sb, ic.fs.View()), ic.slots[r.slot].inum;
    MadeFacts(n, m, i, kind, dir);
    LiveNode(ic.fs.sb, ic.fs.View(), i);
    LiveNode(ic.fs.sb, ic.fs.View(), dir);
    SizedNow(ic, i, 1);
    TakesSame(ic.fs.sb, v0, ic.fs.View(), dir, i);
    StepLive(n, dir, CStr(name));
    var w := ic.EnterIn(dir, ic.slots[r.slot].inum, buf[..], 1);
    entered := w != NONE;
    CreatedIs(n, m, NodesOf(ic.fs.sb, ic.fs.View()), i, kind, dir, CStr(name), entered);
    if entered { GoodOther(ic, i, 0); }
    ghost var s2 := ic.slots;
    Leave(ic, dp.slot, i, if entered then 0 else 1);
    if entered { GoodOther(ic, i, 0); }
    LeftOne(s0, s2, dp.slot, r.slot, true, ic.slots);
    CountsNow(ic, i, entered, kind);
  }

  lemma SizedNow(ic: Icache, x: nat, owed: int)
    requires ic.Loose(x, owed)
    ensures Sized(ic.fs.sb, ic.fs.View())
  {
    hide NodesOf, Linked, Sized, Healthy;
  }

  lemma TakesSame(sb: SuperBlock, s: Store, t: Store, d: nat, i: nat)
    requires SameCells(sb, s, t, i) && d != i && Sized(sb, s) && Sized(sb, t) && d < |s.inodes| && d < |t.inodes|
    requires NodesOf(sb, s)[d] == NodesOf(sb, t)[d] && NodesOf(sb, s)[d].used
    ensures Takes(sb, s, d) == Takes(sb, t, d)
  {
    hide SameCells, SlotsIn, Room;
    LiveNode(sb, s, d);
    LiveNode(sb, t, d);
    CellsShape(sb, s, t, i);
    if s.inodes[d].kind == TYPE_DIR {
      assert |SlotsIn(sb, s, d)| == s.inodes[d].size / ENTRY && |SlotsIn(sb, t, d)| == t.inodes[d].size / ENTRY;
      assert Used(sb, s, d) && Used(sb, t, d);
      RoomSame(sb, s, t, d, i);
    }
  }

  lemma CellsShape(sb: SuperBlock, s: Store, t: Store, i: nat)
    requires SameCells(sb, s, t, i)
    ensures Shape(sb, s) && Shape(sb, t)
  {
    hide Trees, FreeBlocks;
  }

  /** The debt of an unentered link shows in the counts. */
  lemma CountsNow(ic: Icache, i: nat, entered: bool, kind: Half)
    requires ic.Loose(i, if entered then 0 else 1) && i < |NodesOf(ic.fs.sb, ic.fs.View())|
    requires NodesOf(ic.fs.sb, ic.fs.View())[i].used && NodesOf(ic.fs.sb, ic.fs.View())[i].kind == kind != TYPE_DIR
    ensures Linked(NodesOf(ic.fs.sb, ic.fs.View()), ic.slots, 0, 0) <==> entered
  {
    hide World, NodesOf, Linked;
    GoodFacts(ic, i, if entered then 0 else 1);
    DebtShows(NodesOf(ic.fs.sb, ic.fs.View()), ic.slots, i, 0, entered);
  }

  /** File `i` was free and now has one link: its name in `d` if that was entered, and none if not. */
  ghost predicate Created(n: seq<Node>, m: seq<Node>, i: Word, kind: Half, d: nat, name: seq<Byte>, entered: bool) {
    && i < |n| && !n[i].used && d < |n| && d != i && Step(n, d, name) == NONE
    && m == (if entered then Naming(n[i := Node(true, kind, 1, [])], d, name, i) else n[i := Node(true, kind, 1, [])])
    && LinkSum(m, i) == (if entered then 1 else 0)
  }

  lemma MadeFacts(n: seq<Node>, m: seq<Node>, i: nat, kind: Half, d: nat)
    requires NewlyMade(n, m, i, kind) && d < |n| && n[d].used
    ensures i < |n| && d != i && |m| == |n| && m[d] == n[d] && m[i] == Node(true, kind, 1, []) && !AllUsed(n)
  {
    hide LinkSum;
  }

  /** A name more for `i`. */
  lemma NamedOnce(n: seq<Node>, d: nat, name: seq<Byte>, i: Word)
    requires d < |n| && name != []
    ensures LinkSum(Naming(n, d, name, i), i) == LinkSum(n, i) + 1
  {
    var s := n[d].entries;
    LinkSumPut(n, d, n[d].(entries := Added(s, name, i)), i);
    LinksPut(s, FirstFree(s), Slot(name, i), i);
    hide LinkSum, Links, FirstFree;
  }

  lemma CreatedIs(n: seq<Node>, m: seq<Node>, t: seq<Node>, i: Word, kind: Half, d: nat, name: seq<Byte>, entered: bool)
    requires NewlyMade(n, m, i, kind) && Rooted(n) && |n| < NONE && d < |n| && n[d].used && Step(n, d, name) == NONE
    requires name != []
    requires d < |m| && t == if entered then Naming(m, d, name, i) else m
    ensures Created(n, t, i, kind, d, name, entered)
  {
    hide LinkSum, Rooted, FirstFree, Names, Naming, Step;
    if entered { NamedOnce(m, d, name, i); }
  }

  /** File `i` has a link more and, if it was entered, the name `name` in `d`. */
  ghost predicate LinkMade(n: seq<Node>, m: seq<Node>, i: Word, d: nat, name: seq<Byte>, entered: bool) {
    && i < |n| && n[i].used && n[i].kind != TYPE_DIR && d < |n| && d != i && Step(n, d, name) == NONE
    && m == Renumbered(if entered then Naming(n, d, name, i) else n, i, n[i].nlink + 1)
  }

  function Renumbered(n: seq<Node>, i: nat, nlink: int): seq<Node>
    requires i < |n|
  {
    n[i := n[i].(nlink := nlink)]
  }

  /** path_link.  `entered` is dentry_create's answer, which the code ignores: without an entry the
      link count still goes up, and file `i` keeps a link that no name stands for. */
  method Link(ic: Icache, cwd: nat, oldPath: seq<Byte>, newPath: seq<Byte>)
    returns (r: Outcome, ghost entered: bool, ghost i: Word, ghost d: nat, ghost name: seq<Byte>)
    requires ic.Good(0, 0) && cwd < |ic.slots| && ic.slots[cwd].ref > 0
    requires 0 !in oldPath && 0 !in newPath && Components(newPath) != []
    modifies ic, ic.fs, ic.fs.disk
    ensures Start(oldPath, old(ic.slots[cwd].inum)) < |NodesOf(ic.fs.sb, old(ic.fs.View()))|
    ensures Start(newPath, old(ic.slots[cwd].inum)) < |NodesOf(ic.fs.sb, old(ic.fs.View()))|
    ensures r == Panicked <==>
              LinkStarved(NodesOf(ic.fs.sb, old(ic.fs.View())), UsageOf(old(ic.slots)), old(ic.slots[cwd].inum),
                  oldPath, newPath)
    ensures r == Panicked ==> Exhausted(old(ic.slots), ic.slots, 2)
    ensures r != Panicked ==>
      r == LinkResult(NodesOf(ic.fs.sb, old(ic.fs.View())), Start(oldPath, old(ic.slots[cwd].inum)), oldPath,
                      Start(newPath, old(ic.slots[cwd].inum)), newPath)
    ensures r == Failed ==> ic.Good(0, 0) && ic.fs.View() == old(ic.fs.View()) && Held(old(ic.slots), ic.slots, N_INODE)
    ensures r == Done ==>
      && i == Resolve(NodesOf(ic.fs.sb, old(ic.fs.View())), Start(oldPath, old(ic.slots[cwd].inum)),
          Components(oldPath))
      && Parent(NodesOf(ic.fs.sb, old(ic.fs.View())), Start(newPath, old(ic.slots[cwd].inum)), newPath, d, name)
      && LinkMade(NodesOf(ic.fs.sb, old(ic.fs.View())), NodesOf(ic.fs.sb, ic.fs.View()), i, d, CStr(name), entered)
      && Held(old(ic.slots), ic.slots, N_INODE)
      && ic.Loose(i, if entered then 0 else 1)
      && (entered ==> ic.Good(0, 0))
    // link counts are right again if and only if the directory could take the entry
    ensures r == Done ==> (entered <==> Takes(ic.fs.sb, old(ic.fs.View()), d))
    ensures r == Done ==>
              (Linked(NodesOf(ic.fs.sb, ic.fs.View()), ic.slots, 0, 0) <==> Takes(ic.fs.sb, old(ic.fs.View()), d))
    // at most the record of the directory is not on disk
    ensures r == Done ==> Synced(ic.fs.sb, ic.fs.View()) || Late(ic.fs.sb, ic.fs.View(), d)
  {
    hide World, NodesOf, NodeOf, Linked, CacheOk, Counted, RefSum, LinkSum, Rooted, Step, IsName, CStr, Synced, Held,
         HeldBoth, Used, Components, Resolve, Butlast, Added, FirstFree, Names, LinkMade, Exhausted, Takes, Late,
         WalkStarved, UsageOf, Taking, Absolute;
    ghost var s0, n := ic.slots, NodesOf(ic.fs.sb, ic.fs.View());
    GoodFacts(ic, 0, 0);
    StartLives(ic, cwd, oldPath);
    StartLives(ic, cwd, newPath);
    ParentFacts(n, Start(oldPath, s0[cwd].inum), oldPath);
    ParentFacts(n, Start(newPath, s0[cwd].inum), newPath);
    entered, i, d, name := false, 0, 0, [];
    var ip := PathToInode(ic, cwd, oldPath);
    if ip == NoInodes {
      Crowded(s0, ic.slots);
      return Panicked, entered, i, d, name;
    }
    if ip == Null { return Failed, entered, i, d, name; }
    ghost var s1 := ic.slots;
    var inum := ic.slots[ip.slot].inum;
    LiveNode(ic.fs.sb, ic.fs.View(), inum);
    GivenBack(s0, s1, ip.slot);
    if ic.fs.inodes[inum].kind == TYPE_DIR {
      Leave(ic, ip.slot, 0, 0);
      return Failed, entered, i, d, name;
    }
    CwdStays(s0, s1, ip.slot, cwd);
    GoodFacts(ic, 0, 0);
    HeldUsage(n, s0, s1, ip.slot);
    var buf := new Byte[NAME_LEN];
    var dp := PathToParent(ic, cwd, newPath, buf);
    if dp == NoInodes {
      HeldExhausts2(s0, s1, ic.slots, ip.slot);
      return Panicked, entered, i, d, name;
    }
    if dp == Null {
      HeldThrough(s0, s1, ic.slots, ip.slot);
      GivenBack(s0, ic.slots, ip.slot);
      Leave(ic, ip.slot, 0, 0);
      return Failed, entered, i, d, name;
    }
    GoodFacts(ic, 0, 0);
    GivenBack(s1, ic.slots, dp.slot);
    TwoHeld(s0, s1, ic.slots, ip.slot, dp.slot);
    i, d, name := inum, ic.slots[dp.slot].inum, buf[..];
    r, entered := LinkAt(ic, ip.slot, dp.slot, buf[..], s0);
  }

  lemma Crowded(was: seq<CacheSlot>, now: seq<CacheSlot>)
    requires Exhausted(was, now, 1)
    ensures Exhausted(was, now, 2)
  {}

  lemma HeldThrough(s0: seq<CacheSlot>, s1: seq<CacheSlot>, s2: seq<CacheSlot>, k: nat)
    requires Held(s0, s1, k) && Held(s1, s2, |s1|) && k < |s0|
    ensures Held(s0, s2, k) && s2[k].inum == s1[k].inum && s2[k].ref == s1[k].ref > 0
  {
    assert s1[k].ref == s0[k].ref + 1;
    forall j | 0 <= j < |s0|
      ensures s2[j].ref == s0[j].ref + (if j == k then 1 else 0) && (s0[j].ref > 0 ==> s2[j].inum == s0[j].inum)
    {
      assert s2[j].ref == s1[j].ref && (s1[j].ref > 0 ==> s2[j].inum == s1[j].inum);
    }
  }

  lemma TwoHeld(s0: seq<CacheSlot>, s1: seq<CacheSlot>, s2: seq<CacheSlot>, a: nat, b: nat)
    requires Held(s0, s1, a) && Held(s1, s2, b) && a < |s0| && b < |s0|
    ensures HeldBoth(s0, s2, a, b) && s2[a].inum == s1[a].inum && s2[a].ref == s1[a].ref + (if a == b then 1 else 0)
    ensures s1[a].ref > 0
  {
    assert s1[a].ref == s0[a].ref + 1;
    forall j | 0 <= j < |s0|
      ensures s2[j].ref == s0[j].ref + (if j == a then 1 else 0) + (if j == b then 1 else 0)
      ensures (s0[j].ref > 0 ==> s2[j].inum == s0[j].inum)
    {
      assert s1[j].ref == s0[j].ref + if j == a then 1 else 0;
      assert s2[j].ref == s1[j].ref + if j == b then 1 else 0;
    }
  }

  /** Slot `k` can be put back `more` times and once again without deleting its inode. */
  predicate Safe(n: seq<Node>, slots: seq<CacheSlot>, k: nat, more: nat) {
    k < |slots| && slots[k].inum < |n| && n[slots[k].inum].used && slots[k].ref > more
    && (n[slots[k].inum].nlink > 0 || slots[k].ref > 1 + more)
  }

  /** The part of path_link that works on the two inodes it has found. */
  method LinkAt(ic: Icache, ip: nat, dp: nat, name: seq<Byte>, ghost s0: seq<CacheSlot>)
    returns (r: Outcome, ghost entered: bool)
    requires ic.Good(0, 0) && HeldBoth(s0, ic.slots, ip, dp) && IsName(name) && CStr(name) != []
    requires Safe(NodesOf(ic.fs.sb, ic.fs.View()), ic.slots, ip, if ip == dp then 1 else 0)
    requires Safe(NodesOf(ic.fs.sb, ic.fs.View()), ic.slots, dp, 0)
    requires NodesOf(ic.fs.sb, ic.fs.View())[ic.slots[ip].inum].kind != TYPE_DIR
    modifies ic, ic.fs, ic.fs.disk
    ensures r == Failed ==> ic.Good(0, 0) && ic.fs.View() == old(ic.fs.View()) && Held(s0, ic.slots, N_INODE)
    ensures var n, i, d := NodesOf(ic.fs.sb, old(ic.fs.View())), old(ic.slots[ip].inum), old(ic.slots[dp].inum);
            r == if Step(n, d, CStr(name)) != NONE then Failed
                 else if i == d then Stuck
                 else if n[i].nlink == 0x7FFF then Wrapped
                 else Done
    ensures r == Done ==> (entered <==> Takes(ic.fs.sb, old(ic.fs.View()), old(ic.slots[dp].inum)))
    ensures r == Done ==>
      (Linked(NodesOf(ic.fs.sb, ic.fs.View()), ic.slots, 0, 0) <==>
          Takes(ic.fs.sb, old(ic.fs.View()), old(ic.slots[dp].inum)))
    ensures r == Done ==>
      && LinkMade(NodesOf(ic.fs.sb, old(ic.fs.View())), NodesOf(ic.fs.sb, ic.fs.View()), old(ic.slots[ip].inum),
          old(ic.slots[dp].inum), CStr(name), entered)
      && Held(s0, ic.slots, N_INODE)
      && ic.Loose(old(ic.slots[ip].inum), if entered then 0 else 1)
      && (entered ==> ic.Good(0, 0))
      && (Synced(ic.fs.sb, ic.fs.View()) || Late(ic.fs.sb, ic.fs.View(), old(ic.slots[dp].inum)))
  {
    hide World, NodesOf, NodeOf, Linked, CacheOk, Counted, RefSum, LinkSum, Rooted, Step, IsName, CStr, Synced, Held,
         HeldBoth, Used, Added, FirstFree, Names, LinkMade, Room, Late;
    entered := false;
    ghost var n, s1 := NodesOf(ic.fs.sb, ic.fs.View()), ic.slots;
    GoodFacts(ic, 0, 0);
    var i, d := ic.slots[ip].inum, ic.slots[dp].inum;
    LiveNode(ic.fs.sb, ic.fs.View(), i);
    LiveNode(ic.fs.sb, ic.fs.View(), d);
    var there := ic.SearchIn(d, name, 0, 0);
    if there != NONE {
      PutTwo(ic, ip, dp, s0, 0, 0);
      return Failed, false;
    }
    GoodOther(ic, 0, i);
    StepLive(n, d, CStr(name));
    var w := ic.EnterIn(d, i, name, 0);
    entered := w != NONE;
    if ip == dp { return Stuck, entered; }
    SlotsApart(ic, ip, dp, i, if entered then -1 else 0);
    ghost var m := NodesOf(ic.fs.sb, ic.fs.View());
    LiveNode(ic.fs.sb, ic.fs.View(), i);
    NamingFacts(n, d, CStr(name), i);
    CountOf(n, s1, 0, i);
    RefsNow(ic, ip, i, if entered then -1 else 0);
    var nlink := Signed(ic.fs.inodes[i].nlink) + 1;
    if nlink == 0x8000 {
      ic.Recount(i, -0x8000, if entered then -1 else 0);
      return Wrapped, entered;
    }
    ic.Recount(i, nlink, if entered then -1 else 0);
    LinkMadeIs(n, m, NodesOf(ic.fs.sb, ic.fs.View()), i, d, CStr(name), entered);
    PutTwo(ic, ip, dp, s0, i, if entered then 0 else 1);
    if entered { GoodOther(ic, i, 0); }
    CountsNow(ic, i, entered, n[i].kind);
    return Done, entered;
  }

  /** Two slots in use are of two inodes. */
  lemma SlotsApart(ic: Icache, a: nat, b: nat, x: nat, owed: int)
    requires ic.Loose(x, owed) && a < |ic.slots| && b < |ic.slots| && a != b && ic.slots[a].ref > 0
    requires ic.slots[b].ref > 0
    ensures ic.slots[a].inum != ic.slots[b].inum
  {
    hide World, NodesOf, Linked, Rooted;
    GoodFacts(ic, x, owed);
    assert ic.slots[a].valid && ic.slots[b].valid;
    if a < b {} else {}
  }

  lemma NamingFacts(n: seq<Node>, d: nat, name: seq<Byte>, i: Word)
    requires d < |n|
    ensures var m := Naming(n, d, name, i);
            |m| == |n| && forall j :: 0 <= j < |n| ==>
                m[j] == n[j].(entries := m[j].entries) && (j != d ==> m[j] == n[j])
  {
    hide Added;
  }

  /** A settled link count is not negative. */
  lemma CountOf(n: seq<Node>, slots: seq<CacheSlot>, x: nat, i: nat)
    requires Linked(n, slots, x, 0) && i < |n| && n[i].used && n[i].kind != TYPE_DIR
    ensures n[i].nlink == LinkSum(n, i) >= 0
  {}

  lemma LinkMadeIs(n: seq<Node>, m: seq<Node>, t: seq<Node>, i: Word, d: nat, name: seq<Byte>, entered: bool)
    requires Rooted(n) && |n| < NONE && i < |n| && n[i].used && n[i].kind != TYPE_DIR && d < |n| && n[d].used
    requires Step(n, d, name) == NONE && d != i
    requires m == (if entered then Naming(n, d, name, i) else n) && t == Renumbered(m, i, n[i].nlink + 1)
    ensures LinkMade(n, t, i, d, name, entered)
  {
    hide Rooted, FirstFree, Names, Naming, Step;
  }

  /** `inode_put(dp); inode_put(ip)` */
  method PutTwo(ic: Icache, ip: nat, dp: nat, ghost s0: seq<CacheSlot>, ghost x: nat, ghost owed: nat)
    requires ic.Loose(x, owed) && HeldBoth(s0, ic.slots, ip, dp)
    requires Safe(NodesOf(ic.fs.sb, ic.fs.View()), ic.slots, ip, if ip == dp then 1 else 0)
    requires Safe(NodesOf(ic.fs.sb, ic.fs.View()), ic.slots, dp, 0)
    modifies ic, ic.fs, ic.fs.disk
    ensures ic.Loose(x, owed) && ic.fs.View() == old(ic.fs.View()) && Held(s0, ic.slots, N_INODE)
    ensures old(ic.Good(x, owed)) ==> ic.Good(x, owed)
  {
    hide World, NodesOf, Held, HeldBoth;
    GoodFacts(ic, x, owed);
    ghost var s2 := ic.slots;
    Leave(ic, dp, x, owed);
    LeftOne(s0, s2, ip, dp, false, ic.slots);
    GivenBack(s0, ic.slots, ip);
    Leave(ic, ip, x, owed);
  }

  lemma CwdStays(was: seq<CacheSlot>, now: seq<CacheSlot>, k: nat, cwd: nat)
    requires Held(was, now, k) && cwd < |was| && was[cwd].ref > 0
    ensures cwd < |now| && now[cwd].ref > 0 && now[cwd].inum == was[cwd].inum
  {
    assert now[cwd].ref == was[cwd].ref + if cwd == k then 1 else 0;
  }

  const DOT: seq<Byte> := [46] + Zeros(NAME_LEN - 1)
  const DOT_DOT: seq<Byte> := [46, 46] + Zeros(NAME_LEN - 2)

  /** `d` has lost `name`, which led to file `i`; `i` has a link less, and is free if `gone`. */
  ghost predicate Unlinked(n: seq<Node>, m: seq<Node>, d: nat, name: seq<Byte>, i: Word, gone: bool) {
    && d < |n| && i < |n| && d != i && Step(n, d, name) == i && n[i].kind != TYPE_DIR && |m| == |n|
    && m[d] == n[d].(entries := m[d].entries) && Names(m[d].entries) == Names(n[d].entries) - {name}
    && (if gone then !m[i].used else m[i] == n[i].(nlink := n[i].nlink - 1))
    && forall j :: 0 <= j < |n| && j != d && j != i ==> m[j] == n[j]
  }

  lemma UnlinkedIs(n: seq<Node>, m1: seq<Node>, m2: seq<Node>, m3: seq<Node>, d: nat, name: seq<Byte>, i: Word,
                   gone: bool)
    requires Unnaming(n, m1, d, name, i) && i < |n| && d != i && Step(n, d, name) == i && n[i].kind != TYPE_DIR
    requires m2 == Renumbered(m1, i, n[i].nlink - 1) && |m3| == |n|
    requires forall j :: 0 <= j < |n| && j != i ==> m3[j] == m2[j]
    requires if gone then !m3[i].used else m3[i] == m2[i]
    ensures Unlinked(n, m3, d, name, i, gone)
  {
    hide Step, Names;
  }

  lemma UnnamingFacts(n: seq<Node>, m: seq<Node>, d: nat, name: seq<Byte>, i: Word)
    requires Unnaming(n, m, d, name, i)
    ensures d < |n| == |m| && forall j :: 0 <= j < |n| ==> m[j] == n[j].(entries := m[j].entries)
  {
    hide Names;
  }

  /** An indebted link count is positive. */
  lemma OwedOne(n: seq<Node>, slots: seq<CacheSlot>, i: nat)
    requires Linked(n, slots, i, 1) && i < |n| && n[i].used && n[i].kind != TYPE_DIR
    ensures n[i].nlink == LinkSum(n, i) + 1 > 0
  {}

  /** All blocks of file `i` have been given back if and only if its nonzero slots were a prefix. */
  ghost predicate Vacated(index: Index, owner: map<nat, Pos>, i: nat) {
    Prefix(index) <==> forall c :: c in owner ==> Root(owner[c]) != i
  }

  /** path_unlink of a file.  The file goes if and only if this was its last name and nobody has it open. */
  method Unlink(ic: Icache, cwd: nat, path: seq<Byte>)
    returns (r: Outcome, ghost i: Word, ghost d: nat, ghost name: seq<Byte>, ghost gone: bool)
    requires ic.Good(0, 0) && cwd < |ic.slots| && ic.slots[cwd].ref > 0 && 0 !in path && Components(path) != []
    modifies ic, ic.fs, ic.fs.disk
    ensures Start(path, old(ic.slots[cwd].inum)) < |NodesOf(ic.fs.sb, old(ic.fs.View()))|
    ensures r == Panicked <==>
              UnlinkStarved(NodesOf(ic.fs.sb, old(ic.fs.View())), UsageOf(old(ic.slots)), old(ic.slots[cwd].inum), path)
    ensures r == Panicked ==> Exhausted(old(ic.slots), ic.slots, 1)
    ensures r != Panicked ==>
              r == UnlinkResult(NodesOf(ic.fs.sb, old(ic.fs.View())), Start(path, old(ic.slots[cwd].inum)), path)
    ensures r == Failed ==> ic.Good(0, 0) && ic.fs.View() == old(ic.fs.View()) && Held(old(ic.slots), ic.slots, N_INODE)
    ensures r == Done ==>
      && ic.Good(0, 0) && Held(old(ic.slots), ic.slots, N_INODE)
      && Parent(NodesOf(ic.fs.sb, old(ic.fs.View())), Start(path, old(ic.slots[cwd].inum)), path, d, name)
      && Unlinked(NodesOf(ic.fs.sb, old(ic.fs.View())), NodesOf(ic.fs.sb, ic.fs.View()), d, CStr(name), i, gone)
      && (gone <==> NodesOf(ic.fs.sb, old(ic.fs.View()))[i].nlink == 1 && RefSum(old(ic.slots), i) == 0)
      && i < |old(ic.fs.inodes)| && (gone ==> Vacated(old(ic.fs.inodes)[i].index, ic.fs.owner, i))
  {
    hide World, NodesOf, NodeOf, Linked, CacheOk, Counted, RefSum, LinkSum, Rooted, Step, IsName, CStr, Synced, Held,
         HeldBoth, Used, Components, Resolve, Butlast, Names, Unnaming, Unlinked, Deleted, Zeros, Exhausted,
         WalkStarved, UsageOf, Taking, Fits, Absolute;
    ghost var s0, n := ic.slots, NodesOf(ic.fs.sb, ic.fs.View());
    GoodFacts(ic, 0, 0);
    StartLives(ic, cwd, path);
    ParentFacts(n, Start(path, s0[cwd].inum), path);
    DotNames();
    i, d, name, gone := 0, 0, [], false;
    var buf := new Byte[NAME_LEN];
    var dp := PathToParent(ic, cwd, path, buf);
    if dp == NoInodes { return Panicked, i, d, name, gone; }
    if dp == Null { return Failed, i, d, name, gone; }
    GivenBack(s0, ic.slots, dp.slot);
    var dot := SameName(buf[..], DOT);
    var dotDot := SameName(buf[..], DOT_DOT);
    if dot || dotDot {
      Leave(ic, dp.slot, 0, 0);
      return Failed, i, d, name, gone;
    }
    d, name := ic.slots[dp.slot].inum, buf[..];
    r, i, gone := UnlinkAt(ic, dp.slot, buf[..], s0);
  }

  lemma DotNames()
    ensures |DOT| == NAME_LEN && |DOT_DOT| == NAME_LEN && CStr(DOT) == [46] && CStr(DOT_DOT) == [46, 46]
  {
    assert StrLen(DOT) == 1;
    assert DOT_DOT[1..][0] == 46 && DOT_DOT[1..][1..][0] == 0;
    assert StrLen(DOT_DOT[1..]) == 1;
    assert StrLen(DOT_DOT) == 2;
  }

  /** The part of path_unlink that works on the directory it has found. */
  method UnlinkAt(ic: Icache, dp: nat, name: seq<Byte>, ghost s0: seq<CacheSlot>)
    returns (r: Outcome, ghost i: Word, ghost gone: bool)
    requires ic.Good(0, 0) && Standing(NodesOf(ic.fs.sb, ic.fs.View()), s0, ic.slots, dp) && IsName(name)
    modifies ic, ic.fs, ic.fs.disk
    ensures r == Failed ==> ic.Good(0, 0) && ic.fs.View() == old(ic.fs.View()) && Held(s0, ic.slots, N_INODE)
    ensures r == Panicked ==> Exhausted(s0, ic.slots, 1)
    ensures var n, d := NodesOf(ic.fs.sb, old(ic.fs.View())), old(ic.slots[dp].inum);
            r == Panicked <==>
              Step(n, d, CStr(name)) < |n| && !Fits(Taking(UsageOf(s0), d), Step(n, d, CStr(name)))
    ensures r != Panicked ==>
      var n, d := NodesOf(ic.fs.sb, old(ic.fs.View())), old(ic.slots[dp].inum);
      r == if Step(n, d, CStr(name)) >= |n| then Failed
           else if Step(n, d, CStr(name)) == d then Stuck
           else if n[Step(n, d, CStr(name))].kind == TYPE_DIR then IsDirectory
           else Done
    ensures r == Done ==>
      && ic.Good(0, 0) && Held(s0, ic.slots, N_INODE)
      && Unlinked(NodesOf(ic.fs.sb, old(ic.fs.View())), NodesOf(ic.fs.sb, ic.fs.View()), old(ic.slots[dp].inum),
          CStr(name), i, gone)
      && i < |NodesOf(ic.fs.sb, old(ic.fs.View()))|
      && (gone <==> NodesOf(ic.fs.sb, old(ic.fs.View()))[i].nlink == 1 && RefSum(s0, i) == 0)
      && i < |old(ic.fs.inodes)| && (gone ==> Vacated(old(ic.fs.inodes)[i].index, ic.fs.owner, i))
  {
    hide World, NodesOf, NodeOf, Linked, CacheOk, Counted, RefSum, LinkSum, Rooted, Step, IsName, CStr, Synced, Held,
         HeldBoth, Used, Names, Unnaming, Unlinked, Deleted, Exhausted, UsageOf, Taking, Fits;
    i, gone := 0, false;
    ghost var n, s1 := NodesOf(ic.fs.sb, ic.fs.View()), ic.slots;
    GoodFacts(ic, 0, 0);
    HeldUsage(n, s0, s1, dp);
    var d := ic.slots[dp].inum;
    LiveNode(ic.fs.sb, ic.fs.View(), d);
    GivenBack(s0, s1, dp);
    var inum := ic.RemoveIn(d, name, 0);
    if inum == NONE {
      Leave(ic, dp, 0, 0);
      return Failed, i, gone;
    }
    i := inum;
    ghost var m1 := NodesOf(ic.fs.sb, ic.fs.View());
    UnnamingFacts(n, m1, d, CStr(name), inum);
    LiveNode(ic.fs.sb, ic.fs.View(), inum);
    FitsMeans(s1, inum);
    var ip := ic.Get(inum, inum, 1);
    if ip == N_INODE {
      HeldExhausts(s0, ic.slots, dp);
      return Panicked, i, gone;
    }
    TakenToo(s0, s1, dp, ic.slots, ip);
    if ip == dp { return Stuck, i, gone; }
    SlotsApart(ic, ip, dp, inum, 1);
    if ic.fs.inodes[inum].kind == TYPE_DIR { return IsDirectory, i, gone; }
    GoodFacts(ic, inum, 1);
    OwedOne(m1, ic.slots, inum);
    gone := DropLink(ic, dp, ip, s0);
    UnlinkedIs(n, m1, Renumbered(m1, inum, m1[inum].nlink - 1), NodesOf(ic.fs.sb, ic.fs.View()), d, CStr(name), inum,
        gone);
    return Done, i, gone;
  }

  /** The end of path_unlink: one link less for the inode of `ip`, then both references go back. */
  method DropLink(ic: Icache, dp: nat, ip: nat, ghost s0: seq<CacheSlot>) returns (ghost gone: bool)
    requires HeldBoth(s0, ic.slots, dp, ip) && dp != ip && dp < |ic.slots| && ip < |ic.slots|
    requires ic.Good(ic.slots[ip].inum, 1)
    requires ic.slots[ip].inum != ic.slots[dp].inum
    requires Safe(NodesOf(ic.fs.sb, ic.fs.View()), ic.slots, dp, 0)
    requires Safe(NodesOf(ic.fs.sb, ic.fs.View()), ic.slots, ip, 0)
    requires NodesOf(ic.fs.sb, ic.fs.View())[ic.slots[ip].inum].kind != TYPE_DIR
    modifies ic, ic.fs, ic.fs.disk
    ensures ic.Good(0, 0) && Held(s0, ic.slots, N_INODE)
    ensures var n, m, i := NodesOf(ic.fs.sb, old(ic.fs.View())), NodesOf(ic.fs.sb, ic.fs.View()),
              old(ic.slots[ip].inum);
            && |m| == |n| && i < |n|
            && (forall j :: 0 <= j < |n| && j != i ==> m[j] == n[j])
            && (if gone then !m[i].used else m[i] == n[i].(nlink := n[i].nlink - 1))
            && (gone <==> n[i].nlink == 1 && RefSum(s0, i) == 0)
            && i < |old(ic.fs.inodes)|
            && (gone ==> Vacated(old(ic.fs.inodes)[i].index, ic.fs.owner, i))
  {
    hide World, NodesOf, NodeOf, Linked, CacheOk, Counted, RefSum, LinkSum, Rooted, Synced, Held, HeldBoth, Used,
         Deleted;
    var i := ic.slots[ip].inum;
    ghost var n := NodesOf(ic.fs.sb, ic.fs.View());
    GoodFacts(ic, i, 1);
    LiveNode(ic.fs.sb, ic.fs.View(), i);
    OwedOne(n, ic.slots, i);
    RefsNow(ic, ip, i, 1);
    if Signed(ic.fs.inodes[i].nlink) > 0 {
      ic.Recount(i, Signed(ic.fs.inodes[i].nlink) - 1, 1);
    }
    ghost var s2, v := ic.slots, ic.fs.View();
    LiveNode(ic.fs.sb, v, i);
    GoodFacts(ic, i, 0);
    ic.Put(ip, i, 0);
    LeftOne(s0, s2, dp, ip, false, ic.slots);
    HeldRefs(s0, ic.slots, dp, i);
    gone := RefSum(ic.slots, i) == 0 && v.inodes[i].nlink == 0;
    if gone {
      DeletedNodes(ic.fs.sb, v, ic.fs.View(), ic.fs.owner, i);
      DeletedBlocks(ic.fs.sb, v, ic.fs.View(), ic.fs.owner, i);
    }
    GivenBack(s0, ic.slots, dp);
    Leave(ic, dp, i, 0);
    GoodOther(ic, i, 0);
  }

  lemma DeletedBlocks(sb: SuperBlock, s: Store, t: Store, owner: map<nat, Pos>, i: nat)
    requires Deleted(sb, s, t, owner, i)
    ensures i < |s.inodes| && Vacated(s.inodes[i].index, owner, i)
  {
    hide SameFile, Used;
  }
}
