/** Directory operations (fs/dentry.c): each is one operation on the finite map a directory stands for. */
module Dentry {
  import opened Memory
  import opened BlockDevice
  import opened RadixForest
  import opened FileTree
  import opened FileData
  import opened FileLayout
  import opened FileFree
  import opened FileHealth
  import opened FileSync
  import opened FileSpace
  import opened Dirent
  import opened Inode

  /** Between operations: a healthy file system, no buffer held, and `dir` a live inode whose contents
      are a directory's if its type says so. */
  ghost predicate Ready(fs: FileSystem, dir: nat)
    reads fs, fs.disk
  {
    && fs.Valid() && Healthy(fs.sb, fs.View(), fs.owner) && fs.disk.held == {}
    && dir < |fs.inodes| && InodeUsed(fs.sb, fs.disk.blocks, dir)
    && (fs.inodes[dir].kind == TYPE_DIR ==> IsDirectory(Contents(fs.sb, fs.View(), dir)))
  }

  /** The slots of a directory. */
  function SlotsIn(sb: SuperBlock, s: Store, dir: nat): (d: seq<Slot>)
    requires dir < |s.inodes|
    ensures |d| == s.inodes[dir].size / ENTRY
  {
    Slots(Contents(sb, s, dir))
  }

  /** Directory `dir` is `s` now, and nothing else about any file has changed. */
  ghost predicate OnlySlots(sb: SuperBlock, was: Store, now: Store, dir: nat, s: seq<Slot>) {
    && Shape(sb, was) && SameBelow(was.blocks, now.blocks, sb.inodeFirst) && |now.inodes| == |was.inodes|
    && (forall i :: 0 <= i < |was.inodes| ==>
        now.inodes[i] == was.inodes[i].(index := now.inodes[i].index, size := now.inodes[i].size))
    && (forall i :: 0 <= i < |was.inodes| && i != dir ==>
        now.inodes[i] == was.inodes[i] && Contents(sb, now, i) == Contents(sb, was, i))
    && dir < |now.inodes| && Slots(Contents(sb, now, dir)) == s
  }

  lemma FileFacts(sb: SuperBlock, s: Store, owner: map<nat, Pos>, ino: nat)
    requires Healthy(sb, s, owner) && LiveDir(sb, s, ino)
    ensures Covered(sb, s, ino, s.inodes[ino].size)
  {
    hide Consistent, Covered, InodeUsed;
  }

  lemma HealthyOwner(sb: SuperBlock, s: Store, owner: map<nat, Pos>, owner': map<nat, Pos>)
    requires Healthy(sb, s, owner) && Consistent(sb, s, owner')
    ensures Healthy(sb, s, owner')
  {
    hide Consistent, Covered;
  }

  /** Read the 64 bytes at `off`. */
  method ReadEntry(fs: FileSystem, dir: nat, off: nat, de: array<Byte>) returns (ok: bool)
    requires Ready(fs, dir) && fs.inodes[dir].kind == TYPE_DIR && de.Length == ENTRY
    requires off % ENTRY == 0 && off < fs.inodes[dir].size
    modifies fs, fs.disk, de
    ensures Ready(fs, dir) && fs.View() == old(fs.View())
    ensures ok && off / ENTRY < |SlotsIn(fs.sb, fs.View(), dir)|
    ensures SlotsIn(fs.sb, fs.View(), dir)[off / ENTRY] == Decode64(de[..])
  {
    hide Consistent, Covered, InodeUsed, Contents, UniqueNames, Decode64;
    ghost var s0, owner0 := fs.View(), fs.owner;
    FileFacts(fs.sb, s0, owner0, dir);
    ghost var c := Contents(fs.sb, s0, dir);
    assert |c| == fs.inodes[dir].size && |c| % ENTRY == 0;
    var r := fs.ReadData(dir, off, ENTRY, de);
    ok := r == ENTRY;
    HealthyOwner(fs.sb, s0, owner0, fs.owner);
    assert SlotBytes(c, off / ENTRY) == de[..];
  }

  /** Write the 64 bytes of an entry at slot `k`, or at the end: all of them or none. */
  method WriteEntry(fs: FileSystem, dir: nat, ghost k: nat, off: Word, e: seq<Byte>) returns (ok: bool)
    requires Ready(fs, dir) && fs.inodes[dir].kind == TYPE_DIR && |e| == ENTRY && off == k * ENTRY
    requires k <= |SlotsIn(fs.sb, fs.View(), dir)|
    requires UniqueNames(PutSlot(SlotsIn(fs.sb, fs.View(), dir), k, Decode64(e)))
    modifies fs, fs.disk
    ensures Ready(fs, dir)
    ensures OnlySlots(fs.sb, old(fs.View()), fs.View(), dir,
                      if ok then PutSlot(old(SlotsIn(fs.sb, fs.View(), dir)), k, Decode64(e))
                          else old(SlotsIn(fs.sb, fs.View(), dir)))
    ensures k < |old(SlotsIn(fs.sb, fs.View(), dir))| ==> ok
    ensures ok <==> off + ENTRY <= NONE && Enough(fs.sb, old(fs.View()), LogicalPos(dir, off / BLOCK_SIZE))
    ensures ok && old(Synced(fs.sb, fs.View())) ==> Synced(fs.sb, fs.View())
    // an entry for which there is no room may leave a new table in the record in memory only
    ensures !ok && old(Synced(fs.sb, fs.View())) ==> Late(fs.sb, fs.View(), dir)
  {
    hide Consistent, Healthy, Covered, GapZero, InodeUsed, Contents, UniqueNames, Decode64, Slots, Synced, Splice,
         OthersCovered, SelfCovered, Full, Enough, FreeBlocks, Missing, LogicalPos, Late, SameRecords, KeptSlots;
    ghost var s0, c := fs.View(), Contents(fs.sb, fs.View(), dir);
    FileFacts(fs.sb, s0, fs.owner, dir);
    ShapeOf(fs.sb, s0, fs.owner);
    var w := fs.WriteData(dir, off, ENTRY, e);
    if 0 < w < ENTRY { NoStraddle(off, w); }
    EntryWritten(fs.sb, s0, fs.View(), dir, k, e, w);
    UsedSame(fs.sb, s0, fs.View(), dir);
    if w == 0 && Synced(fs.sb, s0) { LateAfter(fs.sb, s0, fs.View(), dir); }
    return w == ENTRY;
  }

  lemma EntryWritten(sb: SuperBlock, s: Store, t: Store, dir: nat, k: nat, e: seq<Byte>, w: nat)
    requires Shape(sb, s) && SameBelow(s.blocks, t.blocks, sb.inodeFirst) && dir < |s.inodes| && (w == 0 || w == ENTRY)
    requires |e| == ENTRY
    requires SizesAfter(s.inodes, t.inodes, dir, k * ENTRY, w)
    requires forall i :: 0 <= i < |s.inodes| && i != dir ==> Contents(sb, t, i) == Contents(sb, s, i)
    requires Contents(sb, t, dir) == Splice(Contents(sb, s, dir), k * ENTRY, e[..w])
    requires |Contents(sb, s, dir)| % ENTRY == 0 && k <= |Contents(sb, s, dir)| / ENTRY
    ensures |Contents(sb, t, dir)| % ENTRY == 0
    ensures OnlySlots(sb, s, t, dir, if w == 0 then Slots(Contents(sb, s, dir))
              else PutSlot(Slots(Contents(sb, s, dir)), k, Decode64(e)))
  {
    hide Contents, Splice, Slots, Decode64;
    var c := Contents(sb, s, dir);
    if w == 0 {
      SpliceNothing(c, k * ENTRY);
      assert e[..w] == [];
    } else {
      assert e[..w] == e;
      SplicedSlots(c, k, e);
    }
  }

  lemma UsedSame(sb: SuperBlock, s: Store, t: Store, dir: nat)
    requires Shape(sb, s) && SameBelow(s.blocks, t.blocks, sb.inodeFirst)
    ensures |t.blocks| == |s.blocks| && InodeUsed(sb, t.blocks, dir) == InodeUsed(sb, s.blocks, dir)
  {
    SameBitmap(sb, s.blocks, t.blocks);
  }

  /** What a search finds: the inode number under `n`, or INVALID_INODE_NUM. */
  function Lookup(kind: Half, s: seq<Slot>, n: seq<Byte>): Word {
    if kind == TYPE_DIR && n in Names(s) then Names(s)[n] else NONE
  }

  /** `r` is the inode number in the slot of a directory that carries the name `n`; NONE when no slot does, or in
      anything but a directory. */
  ghost predicate Finds(kind: Half, s: seq<Slot>, n: seq<Byte>, r: Word) {
    && (kind == TYPE_DIR && n != [] ==> forall k {:trigger s[k]} :: 0 <= k < |s| && s[k].name == n ==> r == s[k].inum)
    && (kind != TYPE_DIR || !Carries(s, n) ==> r == NONE)
  }

  lemma LookupFinds(kind: Half, s: seq<Slot>, n: seq<Byte>)
    requires kind == TYPE_DIR ==> UniqueNames(s)
    ensures Finds(kind, s, n, Lookup(kind, s, n))
  {
    hide Names, UniqueNames;
    if kind == TYPE_DIR { NamesOf(s); }
  }

  /** `de.name[0] != 0 && strncmp(de.name, name, 60) == 0` */
  method Matches(de: seq<Byte>, name: seq<Byte>) returns (found: bool)
    requires |de| == ENTRY && IsName(name)
    ensures found <==> Decode64(de).name != [] && Decode64(de).name == CStr(name)
  {
    found := false;
    if de[0] != 0 { found := SameName(de[..NAME_LEN], name); }
  }

  lemma ReadySlots(fs: FileSystem, dir: nat)
    requires Ready(fs, dir)
    ensures dir < |fs.inodes| && Shape(fs.sb, fs.View())
    ensures fs.inodes[dir].kind == TYPE_DIR ==>
              fs.inodes[dir].size % ENTRY == 0 && UniqueNames(SlotsIn(fs.sb, fs.View(), dir))
  {
    hide Healthy, UniqueNames, Slots, InodeUsed;
  }

  /** dentry_search: look a name up. */
  method Search(fs: FileSystem, dir: nat, name: seq<Byte>) returns (r: Word)
    requires Ready(fs, dir) && IsName(name)
    modifies fs, fs.disk
    ensures Ready(fs, dir) && fs.View() == old(fs.View())
    ensures r == Lookup(fs.inodes[dir].kind, SlotsIn(fs.sb, fs.View(), dir), CStr(name))
    ensures Finds(fs.inodes[dir].kind, SlotsIn(fs.sb, fs.View(), dir), CStr(name), r)
  {
    hide Ready, SlotsIn, Slots, Contents, StrLen, CStr, Missed, Names, UniqueNames, Carries;
    ReadySlots(fs, dir);
    LookupFinds(fs.inodes[dir].kind, SlotsIn(fs.sb, fs.View(), dir), CStr(name));
    if fs.inodes[dir].kind != TYPE_DIR { return NONE; }
    ghost var s0, s, n := fs.View(), SlotsIn(fs.sb, fs.View(), dir), CStr(name);
    var de := new Byte[ENTRY];
    var off := 0;
    MissedNone(s, n);
    while off < fs.inodes[dir].size
      invariant Ready(fs, dir) && fs.View() == s0 && fs.inodes == s0.inodes
      invariant off % ENTRY == 0 && off / ENTRY <= |s| && off <= fs.inodes[dir].size
      invariant Missed(s, off / ENTRY, n)
    {
      var ok := ReadEntry(fs, dir, off, de);
      if !ok { break; }
      var found := Matches(de[..], name);
      if found {
        Found(s, off / ENTRY);
        return LittleEndian(de[60], de[61], de[62], de[63]);
      }
      MissedNext(s, off / ENTRY, n);
      off := off + ENTRY;
    }
    NotFound(s, n);
    return NONE;
  }

  /** The slot list after dentry_create: the entry goes to the first free slot, or to the end. */
  function Added(s: seq<Slot>, n: seq<Byte>, inum: Word): seq<Slot> { PutSlot(s, FirstFree(s), Slot(n, inum)) }

  /** A new entry can be stored: there is a free slot, or the directory can grow by an entry and the free
      blocks are enough for the empty cells on the walk to its last block. */
  predicate Room(sb: SuperBlock, s: Store, d: nat)
    requires Shape(sb, s) && d < |s.inodes|
  {
    FirstFree(SlotsIn(sb, s, d)) < |SlotsIn(sb, s, d)| ||
    (s.inodes[d].size + ENTRY <= NONE && Enough(sb, s, LogicalPos(d, s.inodes[d].size / BLOCK_SIZE)))
  }

  /** dentry_create: enter a name that is not there yet.  `r` is the offset of the entry, or -1. */
  method Enter(fs: FileSystem, dir: nat, inum: Word, name: seq<Byte>) returns (r: Word)
    requires Ready(fs, dir) && IsName(name)
    modifies fs, fs.disk
    ensures Ready(fs, dir)
    ensures var s, n := old(SlotsIn(fs.sb, fs.View(), dir)), CStr(name);
            && (old(fs.inodes)[dir].kind != TYPE_DIR || n in Names(s) ==> r == NONE && fs.View() == old(fs.View()))
            && (old(fs.inodes)[dir].kind == TYPE_DIR && n !in Names(s) ==>
                 && OnlySlots(fs.sb, old(fs.View()), fs.View(), dir, if r == NONE then s else Added(s, n, inum))
                 && (r != NONE <==> Room(fs.sb, old(fs.View()), dir))
                 && (r != NONE ==> r == FirstFree(s) * ENTRY)
                 && (r != NONE ==> Names(Added(s, n, inum)) == Insert(Names(s), n, inum)))
    ensures r != NONE && old(Synced(fs.sb, fs.View())) ==> Synced(fs.sb, fs.View())
    ensures r == NONE && old(Synced(fs.sb, fs.View())) ==> Synced(fs.sb, fs.View()) || Late(fs.sb, fs.View(), dir)
  {
    hide Ready, SlotsIn, Slots, Contents, StrLen, CStr, Missed, Names, UniqueNames, FirstFree, FirstFreeIn, OnlySlots,
         Full, Encode, Decode64, Synced, Enough, LogicalPos, Late;
    ReadySlots(fs, dir);
    if fs.inodes[dir].kind != TYPE_DIR { return NONE; }
    ghost var s0, s, n := fs.View(), SlotsIn(fs.sb, fs.View(), dir), CStr(name);
    var de := new Byte[ENTRY];
    var off := 0;
    var emptyOff: Word := NONE;
    MissedNone(s, n);
    FreeNone(s);
    while off < fs.inodes[dir].size
      invariant Ready(fs, dir) && fs.View() == s0 && fs.inodes == s0.inodes
      invariant off % ENTRY == 0 && off / ENTRY <= |s| && off <= fs.inodes[dir].size
      invariant Missed(s, off / ENTRY, n)
      invariant emptyOff == NONE || (emptyOff % ENTRY == 0 && emptyOff < off)
      invariant FirstFreeIn(s, off / ENTRY, (if emptyOff == NONE then off else emptyOff) / ENTRY)
    {
      var ok := ReadEntry(fs, dir, off, de);
      if !ok { break; }
      FirstByte(de[..]);
      if de[0] == 0 {
        if emptyOff == NONE { emptyOff := off; }
      } else {
        var same := SameName(de[..NAME_LEN], name);
        DecodedName(de[..]);
        if same {
          Found(s, off / ENTRY);
          return NONE;
        }
      }
      MissedNext(s, off / ENTRY, n);
      FreeNext(s, off / ENTRY, (if emptyOff == NONE then off else emptyOff) / ENTRY);
      off := off + ENTRY;
    }
    NotFound(s, n);
    var writeOff := if emptyOff != NONE then emptyOff else fs.inodes[dir].size;
    ghost var k := writeOff / ENTRY;
    FirstFreeIs(s, k);
    EncodeDecode(name, inum);
    NameAdded(s, k, Slot(n, inum));
    var wrote := WriteEntry(fs, dir, k, writeOff, Encode(name, inum));
    if !wrote { return NONE; }
    return writeOff;
  }

  lemma FirstByte(de: seq<Byte>)
    requires |de| == ENTRY
    ensures Decode64(de).name == [] <==> de[0] == 0
  {}

  lemma DecodedName(de: seq<Byte>)
    requires |de| == ENTRY
    ensures Decode64(de).name == CStr(de[..NAME_LEN])
  {}

  /** dentry_delete: remove one name, and return its inode number. */
  method Remove(fs: FileSystem, dir: nat, name: seq<Byte>) returns (r: Word)
    requires Ready(fs, dir) && IsName(name)
    modifies fs, fs.disk
    ensures Ready(fs, dir)
    ensures r == Lookup(old(fs.inodes)[dir].kind, old(SlotsIn(fs.sb, fs.View(), dir)), CStr(name))
    ensures var s, n := old(SlotsIn(fs.sb, fs.View(), dir)), CStr(name);
            if old(fs.inodes)[dir].kind == TYPE_DIR && n in Names(s) then
              exists k :: 0 <= k < |s| && s[k] == Slot(n, r) &&
                  OnlySlots(fs.sb, old(fs.View()), fs.View(), dir, s[k := Slot([], 0)])
                && Names(s[k := Slot([], 0)]) == Names(s) - {n}
            else fs.View() == old(fs.View())
    ensures old(Synced(fs.sb, fs.View())) ==> Synced(fs.sb, fs.View())
  {
    hide Ready, SlotsIn, Slots, Contents, StrLen, CStr, Missed, Names, UniqueNames, FirstFree, OnlySlots, Full,
         Decode64, Synced, Zeros, Enough, LogicalPos;
    ReadySlots(fs, dir);
    if fs.inodes[dir].kind != TYPE_DIR { return NONE; }
    ghost var s0, s, n := fs.View(), SlotsIn(fs.sb, fs.View(), dir), CStr(name);
    var de := new Byte[ENTRY];
    var off := 0;
    MissedNone(s, n);
    while off < fs.inodes[dir].size
      invariant Ready(fs, dir) && fs.View() == s0 && fs.inodes == s0.inodes
      invariant off % ENTRY == 0 && off / ENTRY <= |s| && off <= fs.inodes[dir].size
      invariant Missed(s, off / ENTRY, n)
    {
      var ok := ReadEntry(fs, dir, off, de);
      if !ok { break; }
      var found := Matches(de[..], name);
      ghost var k := off / ENTRY;
      if found {
        Found(s, k);
        var inum := LittleEndian(de[60], de[61], de[62], de[63]);
        DecodedSlot(de[..]);
        DecodeZeros();
        NameRemoved(s, k, Slot([], 0));
        r := NONE;
        var wrote := WriteEntry(fs, dir, k, off, Zeros(ENTRY));
        if wrote { r := inum; }
        return;
      }
      MissedNext(s, k, n);
      off := off + ENTRY;
    }
    NotFound(s, n);
    return NONE;
  }

  lemma DecodedSlot(de: seq<Byte>)
    requires |de| == ENTRY
    ensures Decode64(de).inum == LittleEndian(de[60], de[61], de[62], de[63])
  {}
}
