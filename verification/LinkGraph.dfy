/** What names and references keep alive: the directory graph with its link counts, and the slots of
    the inode cache, as plain values. */
module LinkGraph {
  import opened Memory
  import opened BlockDevice
  import opened FileTree
  import opened Dirent
  import opened Dentry

  const ROOT_INODE := 0
  const N_INODE := 64

  /** An inode as names see it; `entries` is empty unless it is a live directory. */
  datatype Node = Node(used: bool, kind: Half, nlink: int, entries: seq<Slot>)

  /** A slot of the inode cache: inode_num, ref, valid_info. */
  datatype CacheSlot = CacheSlot(inum: Word, ref: nat, valid: bool)

  function One(e: Slot, i: nat): nat { if e.name != [] && e.inum == i then 1 else 0 }

  /** Entries of one directory that name `i`. */
  function Links(s: seq<Slot>, i: nat): nat {
    if |s| == 0 then 0 else Links(s[..|s| - 1], i) + One(s[|s| - 1], i)
  }

  lemma {:induction false} LinksPut(s: seq<Slot>, k: nat, e: Slot, i: nat)
    requires k <= |s|
    ensures Links(PutSlot(s, k, e), i) == Links(s, i) + One(e, i) - if k < |s| then One(s[k], i) else 0
  {
    var t := PutSlot(s, k, e);
    if k == |s| {
      assert t[..|t| - 1] == s;
    } else if k == |s| - 1 {
      assert t[..k] == s[..k];
    } else {
      assert t[..|t| - 1] == PutSlot(s[..|s| - 1], k, e);
      LinksPut(s[..|s| - 1], k, e, i);
    }
  }

  lemma {:induction false} LinksZero(s: seq<Slot>, i: nat)
    ensures Links(s, i) == 0 <==> forall k :: 0 <= k < |s| ==> One(s[k], i) == 0
  {
    if |s| > 0 {
      var t := s[..|s| - 1];
      LinksZero(t, i);
      assert forall k :: 0 <= k < |t| ==> t[k] == s[k];
    }
  }

  /** Entries of all directories that name `i`. */
  function LinkSum(n: seq<Node>, i: nat): nat {
    if |n| == 0 then 0 else LinkSum(n[..|n| - 1], i) + Links(n[|n| - 1].entries, i)
  }

  lemma {:induction false} LinkSumPut(n: seq<Node>, d: nat, e: Node, i: nat)
    requires d < |n|
    ensures LinkSum(n[d := e], i) == LinkSum(n, i) - Links(n[d].entries, i) + Links(e.entries, i)
  {
    var m := n[d := e];
    if d == |n| - 1 {
      assert m[..d] == n[..d];
    } else {
      assert m[..|m| - 1] == n[..|n| - 1][d := e];
      LinkSumPut(n[..|n| - 1], d, e, i);
    }
  }

  lemma {:induction false} LinkSumZero(n: seq<Node>, i: nat)
    ensures LinkSum(n, i) == 0 <==> forall d :: 0 <= d < |n| ==> Links(n[d].entries, i) == 0
  {
    if |n| > 0 {
      var m := n[..|n| - 1];
      LinkSumZero(m, i);
      assert forall d :: 0 <= d < |m| ==> m[d] == n[d];
    }
  }

  /** References to inode `i` in the whole cache. */
  function RefSum(slots: seq<CacheSlot>, i: nat): nat {
    if |slots| == 0 then 0
    else RefSum(slots[..|slots| - 1], i) + if slots[|slots| - 1].inum == i then slots[|slots| - 1].ref else 0
  }

  function RefsTo(c: CacheSlot, i: nat): nat { if c.inum == i then c.ref else 0 }

  lemma {:induction false} RefSumPut(slots: seq<CacheSlot>, k: nat, c: CacheSlot, i: nat)
    requires k < |slots|
    ensures RefSum(slots[k := c], i) == RefSum(slots, i) - RefsTo(slots[k], i) + RefsTo(c, i)
  {
    var t := slots[k := c];
    if k == |slots| - 1 {
      assert t[..k] == slots[..k];
    } else {
      assert t[..|t| - 1] == slots[..|slots| - 1][k := c];
      RefSumPut(slots[..|slots| - 1], k, c, i);
    }
  }

  lemma {:induction false} RefSumOne(slots: seq<CacheSlot>, k: nat, i: nat)
    requires k <= |slots| && forall j :: 0 <= j < |slots| && j != k ==> RefsTo(slots[j], i) == 0
    ensures RefSum(slots, i) == if k < |slots| then RefsTo(slots[k], i) else 0
  {
    if |slots| > 0 {
      var t := slots[..|slots| - 1];
      assert forall j :: 0 <= j < |t| ==> t[j] == slots[j];
      RefSumOne(t, if k < |t| then k else |t|, i);
    }
  }

  /** One slot per inode, only for live inodes, and every slot in use holds a loaded record. */
  ghost predicate CacheOk(n: seq<Node>, slots: seq<CacheSlot>) {
    && |slots| == N_INODE
    && (forall k {:trigger slots[k]} :: 0 <= k < |slots| && slots[k].ref > 0 ==> slots[k].valid)
    && (forall k {:trigger slots[k]} :: 0 <= k < |slots| && slots[k].valid ==>
        slots[k].inum < |n| && n[slots[k].inum].used)
    && (forall j, k {:trigger slots[j], slots[k]} :: 0 <= j < k < |slots| && slots[j].valid && slots[k].valid ==>
        slots[j].inum != slots[k].inum)
  }

  /** The references to an inode are those of its one slot. */
  lemma RefsOfSlot(n: seq<Node>, slots: seq<CacheSlot>, k: nat)
    requires CacheOk(n, slots) && k < |slots| && slots[k].valid
    ensures RefSum(slots, slots[k].inum) == slots[k].ref
  {
    var i := slots[k].inum;
    forall j | 0 <= j < |slots| && j != k ensures RefsTo(slots[j], i) == 0 {
      if j < k { assert slots[j].valid ==> slots[j].inum != slots[k].inum; }
      else { assert slots[j].valid ==> slots[k].inum != slots[j].inum; }
    }
    RefSumOne(slots, k, i);
  }

  /** A root directory, and every name in a live directory unique and leading to a live inode. */
  ghost predicate Rooted(n: seq<Node>) {
    && ROOT_INODE < |n| && n[ROOT_INODE].used && n[ROOT_INODE].kind == TYPE_DIR
    && (forall d {:trigger n[d]} :: 0 <= d < |n| ==> DirNode(n[d]))
    && (forall d, k {:trigger n[d].entries[k]} ::
        0 <= d < |n| && 0 <= k < |n[d].entries| && n[d].entries[k].name != [] ==>
          n[d].entries[k].inum < |n| && n[n[d].entries[k].inum].used)
  }

  predicate DirNode(d: Node) {
    if d.used && d.kind == TYPE_DIR then d.nlink > 0 && UniqueNames(d.entries) else d.entries == []
  }

  /** The link count of every live file is the number of its names, `owed` more for file `x`; and a
      live file has a link or an open reference. */
  ghost predicate Counted(n: seq<Node>, slots: seq<CacheSlot>, x: nat, owed: int) {
    forall i: nat {:trigger n[i]} :: i < |n| && n[i].used && n[i].kind != TYPE_DIR ==>
      && n[i].nlink == LinkSum(n, i) + (if i == x then owed else 0)
      && (n[i].nlink > 0 || RefSum(slots, i) > 0)
  }

  ghost predicate Linked(n: seq<Node>, slots: seq<CacheSlot>, x: nat, owed: int) {
    Rooted(n) && CacheOk(n, slots) && Counted(n, slots, x, owed)
  }

  /** A file is allocated if and only if it has a name or an open reference. */
  lemma AliveExactly(n: seq<Node>, slots: seq<CacheSlot>, x: nat, i: nat)
    requires Linked(n, slots, x, 0) && i < |n| && (n[i].used ==> n[i].kind != TYPE_DIR)
    ensures n[i].used <==> LinkSum(n, i) > 0 || RefSum(slots, i) > 0
  {
    if !n[i].used {
      Unnamed(n, i);
      forall k | 0 <= k < |slots| ensures RefsTo(slots[k], i) == 0 {}
      RefSumOne(slots, |slots|, i);
    }
  }

  /** A debt shows: with one link too many for file `i` the counts are wrong, whoever is asked. */
  lemma DebtShows(n: seq<Node>, slots: seq<CacheSlot>, i: nat, y: nat, settled: bool)
    requires Linked(n, slots, i, if settled then 0 else 1) && i < |n| && n[i].used && n[i].kind != TYPE_DIR
    ensures Linked(n, slots, y, 0) <==> settled
  {
    hide Rooted, CacheOk;
    if settled { Settled(n, slots, i, y); }
    assert n[i].nlink == LinkSum(n, i) + if settled then 0 else 1;
  }

  lemma Unnamed(n: seq<Node>, i: nat)
    requires Rooted(n) && (i < |n| ==> !n[i].used)
    ensures LinkSum(n, i) == 0
  {
    forall d | 0 <= d < |n| ensures Links(n[d].entries, i) == 0 {
      forall k | 0 <= k < |n[d].entries| ensures One(n[d].entries[k], i) == 0 {}
      LinksZero(n[d].entries, i);
    }
    LinkSumZero(n, i);
  }

  /** Whatever a name leads to can be put back without being deleted. */
  lemma NamedStays(n: seq<Node>, slots: seq<CacheSlot>, x: nat, owed: nat, d: nat, k: nat)
    requires Linked(n, slots, x, owed) && d < |n| && k < |n[d].entries| && n[d].entries[k].name != []
    ensures n[d].entries[k].inum < |n| && n[n[d].entries[k].inum].used && n[n[d].entries[k].inum].nlink > 0
  {
    var i := n[d].entries[k].inum;
    LinksZero(n[d].entries, i);
    LinkSumZero(n, i);
    assert One(n[d].entries[k], i) == 1;
    assert DirNode(n[i]);
  }

  /** Where one path component leads from `d`: an inode number, or INVALID_INODE_NUM. */
  function Step(n: seq<Node>, d: nat, name: seq<Byte>): Word
    requires d < |n|
  {
    Lookup(n[d].kind, n[d].entries, name)
  }

  lemma StepLive(n: seq<Node>, d: nat, name: seq<Byte>)
    requires Rooted(n) && |n| < NONE && d < |n| && n[d].used
    ensures Step(n, d, name) == NONE <==> n[d].kind != TYPE_DIR || name !in Names(n[d].entries)
    ensures Step(n, d, name) != NONE ==> Step(n, d, name) < |n| && n[Step(n, d, name)].used && name != []
    ensures Step(n, d, name) != NONE ==>
              exists k :: 0 <= k < |n[d].entries| && n[d].entries[k] == Slot(name, Step(n, d, name))
  {
    var s := n[d].entries;
    assert DirNode(n[d]);
    if n[d].kind == TYPE_DIR && name in Names(s) {
      NamesOf(s);
      assert Carries(s, name);
      var k :| 0 <= k < |s| && s[k].name == name;
      assert n[d].entries[k] == Slot(name, Names(s)[name]);
    }
  }

  /** Putting back an inode found by name deletes nothing. */
  lemma StepStays(n: seq<Node>, slots: seq<CacheSlot>, x: nat, owed: nat, d: nat, name: seq<Byte>)
    requires Linked(n, slots, x, owed) && |n| < NONE && d < |n| && n[d].used && Step(n, d, name) != NONE
    ensures Step(n, d, name) < |n| && n[Step(n, d, name)].used && n[Step(n, d, name)].nlink > 0
  {
    hide Counted, CacheOk, Linked, Step;
    LinkedParts(n, slots, x, owed);
    StepLive(n, d, name);
    var k :| 0 <= k < |n[d].entries| && n[d].entries[k] == Slot(name, Step(n, d, name));
    NamedStays(n, slots, x, owed, d, k);
  }

  lemma LinkedParts(n: seq<Node>, slots: seq<CacheSlot>, x: nat, owed: int)
    requires Linked(n, slots, x, owed)
    ensures Rooted(n) && CacheOk(n, slots)
  {}

  /** With no debt it does not matter whose. */
  lemma Settled(n: seq<Node>, slots: seq<CacheSlot>, x: nat, y: nat)
    requires Linked(n, slots, x, 0)
    ensures Linked(n, slots, y, 0)
  {
    hide Rooted, CacheOk;
  }

  // The steps of the inode life cycle

  /** One more reference through a slot that is in the cache, or through a slot taken over. */
  lemma Referenced(n: seq<Node>, slots: seq<CacheSlot>, x: nat, owed: int, k: nat, c: CacheSlot)
    requires Linked(n, slots, x, owed) && k < |slots| && c.valid && c.inum < |n| && n[c.inum].used
    requires c == slots[k].(ref := slots[k].ref + 1) ||
             (slots[k].ref == 0 && c.ref == 1 && forall j :: 0 <= j < |slots| && slots[j].valid ==>
                 slots[j].inum != c.inum)
    ensures Linked(n, slots[k := c], x, owed)
    ensures forall i: nat :: RefSum(slots[k := c], i) == RefSum(slots, i) + if i == c.inum then 1 else 0
  {
    hide Rooted;
    forall i: nat ensures RefSum(slots[k := c], i) == RefSum(slots, i) + if i == c.inum then 1 else 0 {
      RefSumPut(slots, k, c, i);
    }
    hide RefSum, LinkSum;
  }

  /** One reference less, when the inode is not to be deleted. */
  lemma Released(n: seq<Node>, slots: seq<CacheSlot>, x: nat, owed: nat, k: nat)
    requires Linked(n, slots, x, owed) && k < |slots| && slots[k].ref > 0
    requires slots[k].inum < |n| && (slots[k].ref > 1 || n[slots[k].inum].nlink != 0)
    ensures Linked(n, slots[k := slots[k].(ref := slots[k].ref - 1)], x, owed)
    ensures forall i: nat :: RefSum(slots[k := slots[k].(ref := slots[k].ref - 1)], i) ==
              RefSum(slots, i) - if i == slots[k].inum then 1 else 0
  {
    var c := slots[k].(ref := slots[k].ref - 1);
    RefsOfSlot(n, slots, k);
    forall i: nat ensures RefSum(slots[k := c], i) == RefSum(slots, i) - if i == slots[k].inum then 1 else 0 {
      RefSumPut(slots, k, c, i);
    }
    hide RefSum, LinkSum, Rooted;
  }

  /** The last reference to a file without links goes, and the inode with it. */
  lemma Dropped(n: seq<Node>, slots: seq<CacheSlot>, x: nat, owed: nat, k: nat, dead: Node)
    requires Linked(n, slots, x, owed) && k < |slots| && slots[k].ref == 1 && slots[k].inum < |n|
    requires n[slots[k].inum].nlink == 0
    requires !dead.used && dead.entries == []
    ensures Linked(n[slots[k].inum := dead], slots[k := CacheSlot(slots[k].inum, 0, false)], x, owed)
    ensures forall i: nat :: RefSum(slots[k := CacheSlot(slots[k].inum, 0, false)], i) ==
              RefSum(slots, i) - if i == slots[k].inum then 1 else 0
    ensures n[slots[k].inum].used && n[slots[k].inum].kind != TYPE_DIR && LinkSum(n, slots[k].inum) == 0
  {
    var w := slots[k].inum;
    var c := CacheSlot(w, 0, false);
    var m := n[w := dead];
    assert DirNode(n[w]);
    forall i: nat
      ensures RefSum(slots[k := c], i) == RefSum(slots, i) - if i == w then 1 else 0
    {
      RefSumPut(slots, k, c, i);
    }
    forall i: nat ensures LinkSum(m, i) == LinkSum(n, i) { LinkSumPut(n, w, dead, i); }
    forall d, j | 0 <= d < |m| && 0 <= j < |m[d].entries| && m[d].entries[j].name != []
      ensures m[d].entries[j].inum < |m| && m[m[d].entries[j].inum].used
    {
      assert m[d] == n[d];
      NotNamed(n, w, d, j);
    }
    hide RefSum, LinkSum, Links;
    assert forall j :: 0 <= j < |slots| && j != k && slots[j].valid ==> slots[j].inum != w;
  }

  lemma NotNamed(n: seq<Node>, w: nat, d: nat, j: nat)
    requires LinkSum(n, w) == 0 && d < |n| && j < |n[d].entries|
    ensures n[d].entries[j].name != [] ==> n[d].entries[j].inum != w
  {
    LinkSumZero(n, w);
    LinksZero(n[d].entries, w);
    assert One(n[d].entries[j], w) == 0;
  }

  /** A directory changes one slot, which used to name `was` and now names `now`. */
  lemma Renamed(n: seq<Node>, slots: seq<CacheSlot>, x: nat, owed: int, d: nat, k: nat, e: Slot)
    requires Linked(n, slots, x, owed) && d < |n| && n[d].used && n[d].kind == TYPE_DIR && k <= |n[d].entries|
    requires UniqueNames(PutSlot(n[d].entries, k, e)) && (e.name != [] ==> e.inum < |n| && n[e.inum].used)
    requires var was := if k < |n[d].entries| then n[d].entries[k] else Slot([], 0);
             (was.name != [] ==> was.inum == x && e.name == []) && (e.name != [] ==> e.inum == x && was.name == [])
    ensures var was := if k < |n[d].entries| then n[d].entries[k] else Slot([], 0);
            Linked(n[d := n[d].(entries := PutSlot(n[d].entries, k, e))], slots, x, owed + One(was, x) - One(e, x))
  {
    var s := n[d].entries;
    var t := PutSlot(s, k, e);
    var m := n[d := n[d].(entries := t)];
    assert DirNode(n[d]);
    forall i: nat ensures LinkSum(m, i) == LinkSum(n, i) + One(e, i) - if k < |s| then One(s[k], i) else 0 {
      LinkSumPut(n, d, m[d], i);
      LinksPut(s, k, e, i);
    }
    forall b, j | 0 <= b < |m| && 0 <= j < |m[b].entries| && m[b].entries[j].name != []
      ensures m[b].entries[j].inum < |m| && m[m[b].entries[j].inum].used
    {
      if b == d && j != k { assert t[j] == s[j] && n[d].entries[j] == s[j]; }
      if b != d { assert m[b] == n[b]; }
    }
    hide LinkSum, RefSum, Links, UniqueNames, PutSlot;
  }

  /** A link count is set. */
  lemma Recounted(n: seq<Node>, slots: seq<CacheSlot>, owed: int, i: nat, nlink: int)
    requires Linked(n, slots, i, owed) && i < |n| && n[i].used && n[i].kind != TYPE_DIR
    requires (nlink > 0 || RefSum(slots, i) > 0)
    ensures Linked(n[i := n[i].(nlink := nlink)], slots, i, owed + nlink - n[i].nlink)
  {
    var m := n[i := n[i].(nlink := nlink)];
    forall j: nat ensures LinkSum(m, j) == LinkSum(n, j) { LinkSumPut(n, i, m[i], j); }
    hide LinkSum, RefSum, Links, UniqueNames;
    assert DirNode(n[i]);
  }

  /** A free inode becomes a file with one link and no name. */
  lemma Born(n: seq<Node>, slots: seq<CacheSlot>, x: nat, r: nat, e: Node)
    requires Linked(n, slots, x, 0) && r < |n| && !n[r].used
    requires e.used && e.kind != TYPE_DIR && e.nlink == 1 && e.entries == []
    ensures Linked(n[r := e], slots, r, 1) && LinkSum(n[r := e], r) == 0 && RefSum(slots, r) == 0
  {
    var m := n[r := e];
    AliveExactly(n, slots, x, r);
    assert DirNode(n[r]);
    forall j: nat ensures LinkSum(m, j) == LinkSum(n, j) { LinkSumPut(n, r, e, j); }
    hide LinkSum, RefSum, Links, UniqueNames;
  }
}
