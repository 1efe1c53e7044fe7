/** Path lookup (fs/dentry.c): walking a path is following its components through the directory graph,
    and it leaves no reference behind but the one it returns. */
module Path {
  import opened Memory
  import opened BlockDevice
  import opened FileTree
  import opened Dirent
  import opened FileSync
  import opened Inode
  import opened LinkGraph
  import opened InodeCache
  import opened PathName

  /** The outcome of a lookup: a referenced cache slot, NULL, or the panic "inode_get: no inodes". */
  datatype Walked = At(slot: nat) | Null | NoInodes

  /** The inode a list of components leads to from `d`, or INVALID_INODE_NUM. */
  function Resolve(n: seq<Node>, d: nat, comps: seq<seq<Byte>>): nat
    requires d < |n|
    decreases |comps|
  {
    if comps == [] then d
    else
      var i := Step(n, d, comps[0]);
      if i == NONE || i >= |n| then NONE else Resolve(n, i, comps[1..])
  }

  lemma {:induction false} ResolveJoin(n: seq<Node>, d: nat, a: seq<seq<Byte>>, b: seq<seq<Byte>>)
    requires d < |n| < NONE
    ensures var i := Resolve(n, d, a);
            && (i == NONE || i < |n|)
            && Resolve(n, d, a + b) == if i == NONE then NONE else Resolve(n, i, b)
    decreases |a|
  {
    if a == [] {
      assert a + b == b;
    } else {
      var i := Step(n, d, a[0]);
      assert (a + b)[1..] == a[1..] + b;
      if i != NONE && i < |n| { ResolveJoin(n, i, a[1..], b); }
    }
  }

  /** A path leads where its last name leads in the directory the rest of the path leads to. */
  lemma ResolveLast(n: seq<Node>, d: nat, comps: seq<seq<Byte>>)
    requires d < |n| < NONE && comps != [] && Rooted(n) && n[d].used
    ensures var p := Resolve(n, d, comps[..|comps| - 1]);
            && (p == NONE || p < |n|)
            && Resolve(n, d, comps) == if p == NONE then NONE else Step(n, p, comps[|comps| - 1])
  {
    var init, last := comps[..|comps| - 1], comps[|comps| - 1];
    ResolveJoin(n, d, init, [last]);
    assert init + [last] == comps;
    ResolveUsed(n, d, init);
    var p := Resolve(n, d, init);
    if p != NONE { StepLive(n, p, last); }
  }

  lemma {:induction false} ResolveUsed(n: seq<Node>, d: nat, comps: seq<seq<Byte>>)
    requires d < |n| < NONE && Rooted(n) && n[d].used
    ensures var i := Resolve(n, d, comps);
            i == NONE || (i < |n| && n[i].used)
    decreases |comps|
  {
    if comps != [] {
      StepLive(n, d, comps[0]);
      var i := Step(n, d, comps[0]);
      if i != NONE && i < |n| { ResolveUsed(n, i, comps[1..]); }
    }
  }

  /** The cache after a walk: every reference as before, and one more through slot `k` if there is one. */
  ghost predicate Held(was: seq<CacheSlot>, now: seq<CacheSlot>, k: nat) {
    && |now| == |was|
    && forall j {:trigger now[j]} {:trigger was[j]} :: 0 <= j < |was| ==>
         now[j].ref == was[j].ref + (if j == k then 1 else 0) && (was[j].ref > 0 ==> now[j].inum == was[j].inum)
  }

  /** Slots that nobody holds. */
  function Idle(slots: seq<CacheSlot>): set<nat> { set j: nat | j < |slots| && slots[j].ref == 0 }

  /** What inode_get looks at: the inodes somebody holds, and how many slots nobody holds. */
  datatype Usage = Usage(open: set<nat>, idle: int)

  function UsageOf(slots: seq<CacheSlot>): Usage {
    Usage(set j: nat | j < |slots| && slots[j].ref > 0 :: slots[j].inum, |Idle(slots)|)
  }

  /** inode_get finds a slot for inode `i`. */
  predicate Fits(u: Usage, i: nat) { i in u.open || u.idle > 0 }

  /** The same with a reference to `i` more. */
  function Taking(u: Usage, i: nat): Usage { if i in u.open then u else Usage(u.open + {i}, u.idle - 1) }

  /** Walking the components from inode `d`, which the walk holds, inode_get finds no slot for one of the inodes on the
      way; the walk holds the inode before it then, and nothing else. */
  predicate Starved(n: seq<Node>, u: Usage, d: nat, comps: seq<seq<Byte>>)
    requires d < |n|
    decreases |comps|
  {
    comps != [] &&
    var i := Step(n, d, comps[0]);
    i != NONE && i < |n| && (!Fits(Taking(u, d), i) || Starved(n, u, i, comps[1..]))
  }

  /** The same for a walk that starts with a reference to the root, or with one more to the current directory. */
  predicate WalkStarved(n: seq<Node>, u: Usage, cwd: nat, path: seq<Byte>, comps: seq<seq<Byte>>)
    requires Start(path, cwd) < |n|
  {
    (Absolute(path) && !Fits(u, ROOT_INODE)) || Starved(n, u, Start(path, cwd), comps)
  }

  /** Two slots that nobody holds are enough for every walk. */
  lemma TwoSuffice(n: seq<Node>, u: Usage, cwd: nat, path: seq<Byte>, comps: seq<seq<Byte>>)
    requires Start(path, cwd) < |n| && u.idle >= 2
    ensures !WalkStarved(n, u, cwd, path, comps)
  {
    NeverStarved(n, u, Start(path, cwd), comps);
  }

  lemma {:induction false} NeverStarved(n: seq<Node>, u: Usage, d: nat, comps: seq<seq<Byte>>)
    requires d < |n| && u.idle >= 2
    ensures !Starved(n, u, d, comps)
    decreases |comps|
  {
    if comps != [] {
      var i := Step(n, d, comps[0]);
      if i != NONE && i < |n| { NeverStarved(n, u, i, comps[1..]); }
    }
  }

  lemma FitsMeans(slots: seq<CacheSlot>, i: nat)
    ensures Fits(UsageOf(slots), i) <==> exists j :: 0 <= j < |slots| && (slots[j].ref == 0 || slots[j].inum == i)
  {
    if Fits(UsageOf(slots), i) {
      if i !in UsageOf(slots).open {
        var j :| j in Idle(slots);
        assert slots[j].ref == 0;
      }
    } else {
      forall j | 0 <= j < |slots| ensures slots[j].ref > 0 && slots[j].inum != i {
        assert j !in Idle(slots);
      }
    }
  }

  /** Holding one inode more, through the slot that inode_get or inode_dup chose. */
  lemma HeldUsage(n: seq<Node>, was: seq<CacheSlot>, now: seq<CacheSlot>, k: nat)
    requires Held(was, now, k) && k < |now| && CacheOk(n, now)
    ensures UsageOf(now) == Taking(UsageOf(was), now[k].inum)
  {
    var i := now[k].inum;
    assert now[k].ref > 0 && now[k].valid;
    forall j | 0 <= j < |was| && was[j].ref > 0 && was[j].inum == i ensures j == k {
      assert now[j].ref > 0 && now[j].valid;
    }
    hide CacheOk;
    OpenMore(was, now, k);
    if was[k].ref == 0 {
      assert Idle(now) == Idle(was) - {k};
    } else {
      assert Idle(now) == Idle(was);
    }
  }

  lemma OpenMore(was: seq<CacheSlot>, now: seq<CacheSlot>, k: nat)
    requires Held(was, now, k) && k < |now|
    ensures UsageOf(now).open == UsageOf(was).open + {now[k].inum}
    ensures was[k].ref > 0 ==> now[k].inum in UsageOf(was).open
  {
    forall i ensures i in UsageOf(now).open <==> i in UsageOf(was).open + {now[k].inum} {
      if i in UsageOf(was).open {
        var j :| 0 <= j < |was| && was[j].ref > 0 && was[j].inum == i;
        assert now[j].ref > 0 && now[j].inum == i;
      }
      if i in UsageOf(now).open {
        var j :| 0 <= j < |now| && now[j].ref > 0 && now[j].inum == i;
        assert j != k ==> was[j].ref > 0 && was[j].inum == i;
      }
    }
  }

  /** inode_get found every slot referenced, so at most `most` were not when the call began. */
  ghost predicate Exhausted(was: seq<CacheSlot>, now: seq<CacheSlot>, most: nat) {
    (forall j {:trigger now[j]} :: 0 <= j < |now| ==> now[j].ref > 0) && |Idle(was)| <= most
  }

  lemma HeldExhausts(was: seq<CacheSlot>, now: seq<CacheSlot>, k: nat)
    requires Held(was, now, k) && forall j :: 0 <= j < |now| ==> now[j].ref > 0
    ensures Exhausted(was, now, 1)
  {
    forall j | j in Idle(was) ensures j == k { assert now[j].ref > 0; }
    SmallSet(Idle(was), {k});
  }

  lemma HeldExhausts2(was: seq<CacheSlot>, mid: seq<CacheSlot>, now: seq<CacheSlot>, k: nat)
    requires Held(was, mid, k) && Exhausted(mid, now, 1)
    ensures Exhausted(was, now, 2)
  {
    forall j | j in Idle(was) ensures j in Idle(mid) + {k} {
      assert mid[j].ref == was[j].ref + if j == k then 1 else 0;
    }
    SmallSet(Idle(was), Idle(mid) + {k});
  }

  lemma {:induction false} SmallSet(a: set<nat>, b: set<nat>)
    requires a <= b
    ensures |a| <= |b|
  {
    if a != {} {
      var x :| x in a;
      SmallSet(a - {x}, b - {x});
    }
  }

  /** Net reference counts change only by the slot returned. */
  lemma {:induction false} HeldRefs(was: seq<CacheSlot>, now: seq<CacheSlot>, k: nat, i: nat)
    requires Held(was, now, k)
    ensures RefSum(now, i) == RefSum(was, i) + if k < |now| && now[k].inum == i then 1 else 0
  {
    if |was| > 0 {
      var w, v := was[..|was| - 1], now[..|was| - 1];
      assert forall j :: 0 <= j < |w| ==> w[j] == was[j] && v[j] == now[j];
      HeldRefs(w, v, k, i);
      assert now[|was| - 1].ref == was[|was| - 1].ref + if |was| - 1 == k then 1 else 0;
    }
  }

  /** Where a path starts: the root, or the current directory. */
  function Start(path: seq<Byte>, cwd: nat): nat { if Absolute(path) then ROOT_INODE else cwd }

  predicate Absolute(path: seq<Byte>) { path != [] && path[0] == SLASH }

  /** A leading slash means the root whatever the current directory is; every other path, the empty one too, starts at
      the current directory. */
  lemma StartIs(p: seq<Byte>, cwd: nat)
    ensures Start([SLASH] + p, cwd) == ROOT_INODE && Components([SLASH] + p) == Components(p)
    ensures p == [] || p[0] != '/' as int ==> Start(p, cwd) == cwd
  {
    SlashFirst([SLASH] + p);
  }

  /** `walk` follows the names `comps` from inode `d`, each an entry of the directory before it. */
  ghost predicate Follows(n: seq<Node>, d: nat, comps: seq<seq<Byte>>, walk: seq<Word>) {
    && |walk| == |comps| + 1 && walk[0] == d && (forall j :: 0 <= j < |walk| ==> walk[j] < |n|)
    && forall j {:trigger comps[j]} :: 0 <= j < |comps| ==> Enters(n, walk[j], comps[j], walk[j + 1])
  }

  /** There is a walk along the names `comps` from inode `d` to inode `i`. */
  ghost predicate Leads(n: seq<Node>, d: nat, comps: seq<seq<Byte>>, i: nat) {
    exists walk :: Follows(n, d, comps, walk) && walk[|comps|] == i
  }

  predicate Enters(n: seq<Node>, d: nat, name: seq<Byte>, i: Word)
    requires d < |n|
  {
    name != [] && n[d].kind == TYPE_DIR && Slot(name, i) in n[d].entries
  }

  lemma StepTo(n: seq<Node>, d: nat, name: seq<Byte>, i: Word)
    requires Rooted(n) && |n| < NONE && d < |n| && n[d].used && i < |n|
    ensures Step(n, d, name) == i <==> Enters(n, d, name, i)
  {
    hide Names;
    StepLive(n, d, name);
    assert DirNode(n[d]);
    if name != [] && n[d].kind == TYPE_DIR && Slot(name, i) in n[d].entries { NamesOf(n[d].entries); }
  }

  /** The names of a path lead to inode `i` exactly when there is such a walk to it. */
  lemma {:induction false} ResolveFollows(n: seq<Node>, d: nat, comps: seq<seq<Byte>>, i: nat)
    requires Rooted(n) && |n| < NONE && d < |n| && n[d].used && i < |n|
    ensures Resolve(n, d, comps) == i <==> Leads(n, d, comps, i)
    decreases |comps|
  {
    if comps == [] {
      if d == i { assert Follows(n, d, comps, [d]); }
    } else {
      var k := Step(n, d, comps[0]);
      StepLive(n, d, comps[0]);
      if Resolve(n, d, comps) == i {
        StepTo(n, d, comps[0], k);
        ResolveFollows(n, k, comps[1..], i);
        var walk :| Follows(n, k, comps[1..], walk) && walk[|comps| - 1] == i;
        FollowsLonger(n, d, comps, walk);
      }
      if walk: seq<Word> :| Follows(n, d, comps, walk) && walk[|comps|] == i {
        FollowsShorter(n, d, comps, walk);
        StepTo(n, d, comps[0], walk[1]);
        ResolveFollows(n, k, comps[1..], i);
        assert walk[1..][|comps| - 1] == i;
      }
    }
  }

  lemma FollowsLonger(n: seq<Node>, d: nat, comps: seq<seq<Byte>>, walk: seq<Word>)
    requires d < |n| < NONE && comps != [] && walk != [] && Follows(n, walk[0], comps[1..], walk)
    requires Enters(n, d, comps[0], walk[0])
    ensures Follows(n, d, comps, [d] + walk) && ([d] + walk)[|comps|] == walk[|comps| - 1]
  {
    hide Enters;
    forall j | 0 <= j < |comps| ensures Enters(n, ([d] + walk)[j], comps[j], ([d] + walk)[j + 1]) {
      if j > 0 { assert comps[j] == comps[1..][j - 1]; }
    }
  }

  lemma FollowsShorter(n: seq<Node>, d: nat, comps: seq<seq<Byte>>, walk: seq<Word>)
    requires comps != [] && Follows(n, d, comps, walk)
    ensures Follows(n, walk[1], comps[1..], walk[1..]) && Enters(n, d, comps[0], walk[1])
  {
    hide Enters;
    forall j | 0 <= j < |comps| - 1 ensures Enters(n, walk[1..][j], comps[1..][j], walk[1..][j + 1]) {
      assert comps[1..][j] == comps[j + 1];
    }
    assert comps[0] == comps[0];
  }

  /** `slot` holds a reference to a live inode that the walk can give back without deleting it. */
  ghost predicate Standing(n: seq<Node>, was: seq<CacheSlot>, now: seq<CacheSlot>, k: nat) {
    && Held(was, now, k) && k < |now| && now[k].inum < |n| && n[now[k].inum].used
    && (n[now[k].inum].nlink > 0 || now[k].ref > 1)
  }

  lemma GoodFacts(ic: Icache, x: nat, owed: int)
    requires ic.Loose(x, owed)
    ensures var n := NodesOf(ic.fs.sb, ic.fs.View());
            && Linked(n, ic.slots, x, owed)
            && CacheOk(n, ic.slots)
            && Rooted(n)
            && |n| == |ic.fs.inodes|
            && |n| < NONE
            && |ic.slots| == N_INODE
  {
    hide World, NodesOf, Linked, Rooted;
    WorldFacts(ic.fs.sb, ic.fs.View(), ic.fs.owner, ic.slots, x, owed);
  }

  lemma RootLives(sb: SuperBlock, s: Store)
    requires Rooted(NodesOf(sb, s))
    ensures Used(sb, s, ROOT_INODE) && ROOT_INODE < |NodesOf(sb, s)| && NodesOf(sb, s)[ROOT_INODE].used
    ensures NodesOf(sb, s)[ROOT_INODE].nlink > 0
  {
    assert DirNode(NodesOf(sb, s)[ROOT_INODE]);
  }

  /** The start of a walk: take a reference to the root or to the current directory. */
  method Begin(ic: Icache, cwd: nat, path: seq<Byte>) returns (r: Walked)
    requires ic.Good(0, 0) && cwd < |ic.slots| && ic.slots[cwd].ref > 0
    modifies ic, ic.fs, ic.fs.disk
    ensures ic.Good(0, 0) && ic.fs.View() == old(ic.fs.View()) && r != Null
    ensures r.At? ==>
      && Standing(NodesOf(ic.fs.sb, ic.fs.View()), old(ic.slots), ic.slots, r.slot)
      && ic.slots[r.slot].inum == Start(path, old(ic.slots[cwd].inum))
    ensures r == NoInodes <==> Absolute(path) && !Fits(UsageOf(old(ic.slots)), ROOT_INODE)
    ensures r == NoInodes ==> Exhausted(old(ic.slots), ic.slots, 1)
  {
    hide World, NodesOf, NodeOf, Linked, Counted, RefSum, Used, Rooted, Fits, UsageOf;
    GoodFacts(ic, 0, 0);
    FitsMeans(ic.slots, ROOT_INODE);
    if path != [] && path[0] == SLASH {
      RootLives(ic.fs.sb, ic.fs.View());
      var k := ic.Get(ROOT_INODE, 0, 0);
      if k == N_INODE {
        HeldExhausts(ic.slots, ic.slots, N_INODE);
        return NoInodes;
      }
      return At(k);
    }
    ic.Dup(cwd, 0, 0);
    return At(cwd);
  }

  /** inode_put of a reference that is not the last, or whose inode has links: nothing is deleted. */
  method Leave(ic: Icache, k: nat, ghost x: nat, ghost owed: nat)
    requires ic.Loose(x, owed) && k < |ic.slots| && ic.slots[k].ref > 0
    requires ic.slots[k].inum < |NodesOf(ic.fs.sb, ic.fs.View())|
    requires NodesOf(ic.fs.sb, ic.fs.View())[ic.slots[k].inum].nlink != 0 || ic.slots[k].ref > 1
    modifies ic, ic.fs, ic.fs.disk
    ensures ic.Loose(x, owed) && ic.fs.View() == old(ic.fs.View()) && ic.fs.owner == old(ic.fs.owner) && k < |ic.slots|
    ensures old(ic.Good(x, owed)) ==> ic.Good(x, owed)
    ensures ic.slots == old(ic.slots)[k := old(ic.slots)[k].(ref := old(ic.slots)[k].ref - 1)]
  {
    hide World, NodesOf, NodeOf, Linked, Counted, RefSum, Rooted, Deleted, Synced;
    GoodFacts(ic, x, owed);
    ghost var was := ic.slots;
    var i := ic.slots[k].inum;
    RefsOfSlot(NodesOf(ic.fs.sb, ic.fs.View()), was, k);
    LiveNode(ic.fs.sb, ic.fs.View(), i);
    ic.Put(k, x, owed);
    assert RefSum(ic.slots, i) == RefSum(was, i) - 1;
  }

  /** A reference was taken through slot `k`, then the one through slot `ip` given back. */
  lemma Traded(was: seq<CacheSlot>, s1: seq<CacheSlot>, ip: nat, s2: seq<CacheSlot>, k: nat)
    requires Held(was, s1, ip) && ip < |s1| && k < |s1|
    requires |s2| == |s1| && s2 == s1[k := s2[k]] && s2[k].ref == s1[k].ref + 1
    requires (s1[k].ref > 0 ==> s1[k].inum == s2[k].inum)
    ensures s2[ip].ref > 0 && Held(was, s2[ip := s2[ip].(ref := s2[ip].ref - 1)], k)
  {
    assert s1[ip].ref > 0;
    var s3 := s2[ip := s2[ip].(ref := s2[ip].ref - 1)];
    forall j | 0 <= j < |was|
      ensures s3[j].ref == was[j].ref + (if j == k then 1 else 0) && (was[j].ref > 0 ==> s3[j].inum == was[j].inum)
    {
      assert s1[j].ref == was[j].ref + if j == ip then 1 else 0;
    }
  }

  lemma GivenBack(was: seq<CacheSlot>, s1: seq<CacheSlot>, ip: nat)
    requires Held(was, s1, ip) && ip < |s1|
    ensures |was| == |s1| && s1[ip].ref > 0 && Held(was, s1[ip := s1[ip].(ref := s1[ip].ref - 1)], |was|)
  {
    var s2 := s1[ip := s1[ip].(ref := s1[ip].ref - 1)];
    forall j | 0 <= j < |was| ensures s2[j].ref == was[j].ref && (was[j].ref > 0 ==> s2[j].inum == was[j].inum) {
      assert s1[j].ref == was[j].ref + if j == ip then 1 else 0;
    }
  }

  /** `next_ip = inode_get(next); inode_put(ip); ip = next_ip` */
  method Trade(ic: Icache, ip: nat, next: nat, ghost was: seq<CacheSlot>) returns (r: Walked)
    requires ic.Good(0, 0) && Standing(NodesOf(ic.fs.sb, ic.fs.View()), was, ic.slots, ip)
    requires var n := NodesOf(ic.fs.sb, ic.fs.View()); next < |n| && n[next].used && n[next].nlink > 0
    modifies ic, ic.fs, ic.fs.disk
    ensures ic.Good(0, 0) && ic.fs.View() == old(ic.fs.View()) && r != Null
    ensures r.At? ==> Standing(NodesOf(ic.fs.sb, ic.fs.View()), was, ic.slots, r.slot) && ic.slots[r.slot].inum == next
    ensures r == NoInodes <==> !Fits(Taking(UsageOf(was), old(ic.slots[ip].inum)), next)
    ensures r == NoInodes ==> Exhausted(was, ic.slots, 1)
  {
    hide World, NodesOf, NodeOf, Linked, CacheOk, Counted, RefSum, RefsMoved, Rooted, Synced, Held, Used, Exhausted,
         Fits, UsageOf, Taking;
    GoodFacts(ic, 0, 0);
    ghost var s1 := ic.slots;
    HeldUsage(NodesOf(ic.fs.sb, ic.fs.View()), was, s1, ip);
    FitsMeans(s1, next);
    LiveNode(ic.fs.sb, ic.fs.View(), next);
    var k := ic.Get(next, 0, 0);
    if k == N_INODE {
      HeldExhausts(was, ic.slots, ip);
      return NoInodes;
    }
    Traded(was, s1, ip, ic.slots, k);
    Leave(ic, ip, 0, 0);
    return At(k);
  }

  /** Every reference as before, and one more through slot `a` and through slot `b`. */
  ghost predicate HeldBoth(was: seq<CacheSlot>, now: seq<CacheSlot>, a: nat, b: nat) {
    && |now| == |was| && a < |was| && b < |was|
    && forall j {:trigger now[j]} {:trigger was[j]} :: 0 <= j < |was| ==>
         now[j].ref == was[j].ref + (if j == a then 1 else 0) + (if j == b then 1 else 0) &&
             (was[j].ref > 0 ==> now[j].inum == was[j].inum)
  }

  lemma TakenToo(was: seq<CacheSlot>, s1: seq<CacheSlot>, a: nat, s2: seq<CacheSlot>, b: nat)
    requires Held(was, s1, a) && a < |s1| && b < |s1|
    requires |s2| == |s1| && s2 == s1[b := s2[b]] && s2[b].ref == s1[b].ref + 1
    requires (s1[b].ref > 0 ==> s1[b].inum == s2[b].inum)
    ensures HeldBoth(was, s2, a, b) && s2[a].inum == s1[a].inum && s2[a].ref >= s1[a].ref > 0
  {
    forall j | 0 <= j < |was|
      ensures s2[j].ref == was[j].ref + (if j == a then 1 else 0) + (if j == b then 1 else 0)
      ensures (was[j].ref > 0 ==> s2[j].inum == was[j].inum)
    {
      assert s1[j].ref == was[j].ref + if j == a then 1 else 0;
    }
    assert s1[a].ref == was[a].ref + 1;
  }

  /** Giving one of two references back, through `a` when `first`, leaves the other. */
  lemma LeftOne(was: seq<CacheSlot>, s: seq<CacheSlot>, a: nat, b: nat, first: bool, t: seq<CacheSlot>)
    requires HeldBoth(was, s, a, b)
    requires var k := if first then a else b;
             |t| == |s| && t == s[k := t[k]] && t[k].inum == s[k].inum && s[k].ref == t[k].ref + 1
    ensures Held(was, t, if first then b else a) && t[a].inum == s[a].inum && t[b].inum == s[b].inum
  {
    var k := if first then a else b;
    forall j | 0 <= j < |was|
      ensures t[j].ref == was[j].ref + (if j == a + b - k then 1 else 0)
      ensures (was[j].ref > 0 ==> t[j].inum == was[j].inum)
    {
      assert s[j].ref == was[j].ref + (if j == a then 1 else 0) + (if j == b then 1 else 0);
    }
  }

  /** One step of both walks: look `name` up in the locked inode of slot `ip`, and trade the reference
      to it for one to the inode found. */
  method Descend(ic: Icache, ip: nat, name: seq<Byte>, ghost was: seq<CacheSlot>) returns (r: Walked)
    requires ic.Good(0, 0) && IsName(name) && Standing(NodesOf(ic.fs.sb, ic.fs.View()), was, ic.slots, ip)
    modifies ic, ic.fs, ic.fs.disk
    ensures ic.Good(0, 0) && ic.fs.View() == old(ic.fs.View())
    ensures var n, d := NodesOf(ic.fs.sb, ic.fs.View()), old(ic.slots[ip].inum);
            && (r.Null? ==> Step(n, d, CStr(name)) == NONE && Held(was, ic.slots, N_INODE))
            && (r.At? ==> Standing(n, was, ic.slots, r.slot) && ic.slots[r.slot].inum == Step(n, d, CStr(name)) != NONE)
            && (r == NoInodes <==>
                  Step(n, d, CStr(name)) != NONE && !Fits(Taking(UsageOf(was), d), Step(n, d, CStr(name))))
            && (r == NoInodes ==> Step(n, d, CStr(name)) < |n|)
    ensures r == NoInodes ==> Exhausted(was, ic.slots, 1)
  {
    hide World, NodesOf, NodeOf, Linked, CacheOk, Counted, RefSum, RefsMoved, Rooted, Step, IsName, CStr, Deleted,
         Synced, Held, Used, Exhausted, Fits, UsageOf, Taking;
    GoodFacts(ic, 0, 0);
    ghost var n := NodesOf(ic.fs.sb, ic.fs.View());
    ghost var s1 := ic.slots;
    var d := ic.slots[ip].inum;
    LiveNode(ic.fs.sb, ic.fs.View(), d);
    StepLive(n, d, CStr(name));
    GivenBack(was, s1, ip);
    if ic.fs.inodes[d].kind != TYPE_DIR {
      Leave(ic, ip, 0, 0);
      return Null;
    }
    var next := ic.SearchIn(d, name, 0, 0);
    if next == NONE {
      Leave(ic, ip, 0, 0);
      return Null;
    }
    StepStays(n, s1, 0, 0, d, CStr(name));
    r := Trade(ic, ip, next, was);
  }

  /** path_to_inode */
  method PathToInode(ic: Icache, cwd: nat, path: seq<Byte>) returns (r: Walked)
    requires ic.Good(0, 0) && cwd < |ic.slots| && ic.slots[cwd].ref > 0 && 0 !in path
    modifies ic, ic.fs, ic.fs.disk
    ensures ic.Good(0, 0) && ic.fs.View() == old(ic.fs.View())
    ensures var n, d := NodesOf(ic.fs.sb, ic.fs.View()), Start(path, old(ic.slots[cwd].inum));
            && d < |n| && n[d].used
            && (r.Null? ==> Resolve(n, d, Components(path)) == NONE && Held(old(ic.slots), ic.slots, N_INODE))
            && (r.At? ==>
                  && Standing(n, old(ic.slots), ic.slots, r.slot)
                  && ic.slots[r.slot].inum == Resolve(n, d, Components(path)))
            // it panics exactly when an inode on the way is not open and no slot is idle but the one walked through
            && (r == NoInodes <==>
                  WalkStarved(n, UsageOf(old(ic.slots)), old(ic.slots[cwd].inum), path, Components(path)))
    // what stands after a leading slash is looked up in the root, and every other path in the current directory
    ensures var n, home := NodesOf(ic.fs.sb, ic.fs.View()), old(ic.slots[cwd].inum);
            && home < |n| && ROOT_INODE < |n|
            && (r.At? && [SLASH] <= path ==>
                  ic.slots[r.slot].inum == Resolve(n, ROOT_INODE, Components(path[1..])))
            && (r.At? && !([SLASH] <= path) ==> ic.slots[r.slot].inum == Resolve(n, home, Components(path)))
            && (r.Null? && [SLASH] <= path ==> Resolve(n, ROOT_INODE, Components(path[1..])) == NONE)
            && (r.Null? && !([SLASH] <= path) ==> Resolve(n, home, Components(path)) == NONE)
    ensures r == NoInodes ==> Exhausted(old(ic.slots), ic.slots, 1)
  {
    hide Exhausted, World, NodesOf, NodeOf, Linked, CacheOk, Counted, RefSum, Rooted, Step, IsName, CStr, Synced, Held,
         Standing, Used, Components, Resolve, Fits, UsageOf, Taking, Starved, Absolute, Start;
    ghost var n, was, d := NodesOf(ic.fs.sb, ic.fs.View()), ic.slots, Start(path, ic.slots[cwd].inum);
    ghost var u := UsageOf(was);
    StartsAt(path, ic.slots[cwd].inum);
    StartLives(ic, cwd, path);
    r := Begin(ic, cwd, path);
    if r == NoInodes { return; }
    var name := new Byte[NAME_LEN];
    var pos, more := GetElement(path, 0, name);
    WholePath(path);
    ResolveNone(n, d);
    StarvedNone(n, u, d);
    StandingIs(n, was, ic.slots, r.slot);
    ghost var goal, fails := Resolve(n, d, Components(path)), Starved(n, u, d, Components(path));
    while more
      invariant ic.Good(0, 0) && NodesOf(ic.fs.sb, ic.fs.View()) == n && ic.fs.View() == old(ic.fs.View())
      invariant r.At? && Standing(n, was, ic.slots, r.slot) && pos <= |path| && fresh(name) && name.Length == NAME_LEN
      invariant r.slot < |ic.slots| && ic.slots[r.slot].inum < |n|
      invariant more ==> IsName(name[..])
      invariant more ==> goal == Resolve(n, ic.slots[r.slot].inum, [CStr(name[..])] + Components(path[pos..]))
      invariant more ==> fails == Starved(n, u, ic.slots[r.slot].inum, [CStr(name[..])] + Components(path[pos..]))
      invariant !more ==> goal == ic.slots[r.slot].inum && !fails
      decreases |path| - pos, more
    {
      ghost var i := ic.slots[r.slot].inum;
      ResolveHead(n, i, CStr(name[..]), Components(path[pos..]));
      StarvedHead(n, u, i, CStr(name[..]), Components(path[pos..]));
      r := Descend(ic, r.slot, name[..], was);
      if !r.At? { return; }
      StandingIs(n, was, ic.slots, r.slot);
      pos, more := GetElement(path, pos, name);
      ResolveNone(n, ic.slots[r.slot].inum);
      StarvedNone(n, u, ic.slots[r.slot].inum);
    }
  }

  /** path_to_parent_inode: everything but the last component is walked; the last goes to `name`.  A
      path without components leads to its start and leaves `name` as it was. */
  method PathToParent(ic: Icache, cwd: nat, path: seq<Byte>, name: array<Byte>) returns (r: Walked)
    requires ic.Good(0, 0) && cwd < |ic.slots| && ic.slots[cwd].ref > 0 && 0 !in path && name.Length == NAME_LEN
    modifies ic, ic.fs, ic.fs.disk, name
    ensures ic.Good(0, 0) && ic.fs.View() == old(ic.fs.View())
    ensures var n, d, comps := NodesOf(ic.fs.sb, ic.fs.View()), Start(path, old(ic.slots[cwd].inum)), Components(path);
            && d < |n| < NONE && n[d].used
            && (r.Null? ==>
                  comps != [] && Resolve(n, d, Butlast(comps)) == NONE && Held(old(ic.slots), ic.slots, N_INODE))
            && (r.At? ==>
                  && Standing(n, old(ic.slots), ic.slots, r.slot)
                  && ic.slots[r.slot].inum == Resolve(n, d, Butlast(comps)))
            && (r.At? && comps != [] ==> IsName(name[..]) && CStr(name[..]) == comps[|comps| - 1] != [])
            && (comps == [] ==> name[..] == old(name[..]))
            && (r == NoInodes <==>
                  WalkStarved(n, UsageOf(old(ic.slots)), old(ic.slots[cwd].inum), path, Butlast(comps)))
    ensures var n, home := NodesOf(ic.fs.sb, ic.fs.View()), old(ic.slots[cwd].inum);
            && home < |n| && ROOT_INODE < |n|
            && (r.At? && [SLASH] <= path ==>
                  ic.slots[r.slot].inum == Resolve(n, ROOT_INODE, Butlast(Components(path[1..]))))
            && (r.At? && !([SLASH] <= path) ==> ic.slots[r.slot].inum == Resolve(n, home, Butlast(Components(path))))
            && (r.Null? && [SLASH] <= path ==> Resolve(n, ROOT_INODE, Butlast(Components(path[1..]))) == NONE)
            && (r.Null? && !([SLASH] <= path) ==> Resolve(n, home, Butlast(Components(path))) == NONE)
    ensures r == NoInodes ==> Exhausted(old(ic.slots), ic.slots, 1)
  {
    hide Exhausted, World, NodesOf, NodeOf, Linked, CacheOk, Counted, RefSum, Rooted, Step, IsName, CStr, Synced, Held,
         Standing, Used, Components, Resolve, Butlast, Fits, UsageOf, Taking, Starved, Absolute, Start;
    ghost var n, was, d := NodesOf(ic.fs.sb, ic.fs.View()), ic.slots, Start(path, ic.slots[cwd].inum);
    ghost var u := UsageOf(was);
    StartsAt(path, ic.slots[cwd].inum);
    StartLives(ic, cwd, path);
    r := Begin(ic, cwd, path);
    var temp := new Byte[NAME_LEN];
    WholePath(path);
    ResolveNone(n, d);
    ButlastNone(Components(path));
    if r == NoInodes { return; }
    StandingIs(n, was, ic.slots, r.slot);
    ghost var comps := Components(path);
    ghost var goal, fails := Resolve(n, d, Butlast(comps)), Starved(n, u, d, Butlast(comps));
    StarvedNone(n, u, d);
    var pos, more := GetElement(path, 0, name);
    while more
      invariant ic.Good(0, 0) && NodesOf(ic.fs.sb, ic.fs.View()) == n && ic.fs.View() == old(ic.fs.View())
      invariant r.At? && Standing(n, was, ic.slots, r.slot) && pos <= |path| && fresh(temp) && temp.Length == NAME_LEN
      invariant r.slot < |ic.slots| && ic.slots[r.slot].inum < |n|
      invariant more <==> comps != []
      invariant more ==> IsName(name[..]) && CStr(name[..]) != []
      invariant more ==> goal == Resolve(n, ic.slots[r.slot].inum, Butlast([CStr(name[..])] + Components(path[pos..])))
      invariant more ==> comps[|comps| - 1] == LastOf(CStr(name[..]), Components(path[pos..]))
      invariant more ==>
                  fails == Starved(n, u, ic.slots[r.slot].inum, Butlast([CStr(name[..])] + Components(path[pos..])))
      invariant !more ==> goal == ic.slots[r.slot].inum && name[..] == old(name[..]) && !fails
      decreases |path| - pos
    {
      ghost var i, head, rest := ic.slots[r.slot].inum, CStr(name[..]), Components(path[pos..]);
      ButlastHead(head, rest);
      ResolveNone(n, i);
      StarvedNone(n, u, i);
      var next, found := GetElement(path, pos, temp);
      if !found { return; }
      ResolveHead(n, i, head, Butlast(rest));
      StarvedHead(n, u, i, head, Butlast(rest));
      r := Descend(ic, r.slot, name[..], was);
      if !r.At? { return; }
      StandingIs(n, was, ic.slots, r.slot);
      StrCpy(name, temp);
      pos := next;
    }
  }

  /** All components but the last. */
  function Butlast(comps: seq<seq<Byte>>): seq<seq<Byte>> { if comps == [] then [] else comps[..|comps| - 1] }

  function LastOf(head: seq<Byte>, rest: seq<seq<Byte>>): seq<Byte> { if rest == [] then head else rest[|rest| - 1] }

  lemma ButlastNone(comps: seq<seq<Byte>>)
    ensures comps == [] ==> Butlast(comps) == []
  {}

  lemma ButlastHead(head: seq<Byte>, rest: seq<seq<Byte>>)
    ensures Butlast([head] + rest) == if rest == [] then [] else [head] + Butlast(rest)
    ensures LastOf(head, rest) == ([head] + rest)[|rest|]
  {}

  /** For every path with a component: the name path_to_parent_inode gives, looked up in the directory
      it returns, leads where path_to_inode leads. */
  lemma ParentThenName(n: seq<Node>, d: nat, path: seq<Byte>)
    requires d < |n| < NONE && Components(path) != [] && Rooted(n) && n[d].used
    ensures var comps := Components(path);
            var p := Resolve(n, d, Butlast(comps));
            && (p == NONE || p < |n|)
            && Resolve(n, d, comps) == if p == NONE then NONE else Step(n, p, comps[|comps| - 1])
  {
    hide Components, Rooted, Step, Resolve;
    ResolveLast(n, d, Components(path));
  }

  /** Repeated and trailing slashes change nothing about where a path leads. */
  lemma SlashesDoNotMatter(n: seq<Node>, cwd: nat, a: seq<Byte>, b: seq<Byte>)
    requires cwd < |n| && ROOT_INODE < |n|
    ensures var p, q := a + [SLASH, SLASH] + b, a + [SLASH] + b;
            Start(p, cwd) == Start(q, cwd) &&
                Resolve(n, Start(p, cwd), Components(p)) == Resolve(n, Start(q, cwd), Components(q))
    ensures a != [] ==> Start(a + [SLASH], cwd) == Start(a, cwd)
    ensures a != [] ==>
              Resolve(n, Start(a + [SLASH], cwd), Components(a + [SLASH])) == Resolve(n, Start(a, cwd), Components(a))
  {
    hide Components, Resolve;
    SlashesCollapse(a, b);
  }

  lemma StandingIs(n: seq<Node>, was: seq<CacheSlot>, now: seq<CacheSlot>, k: nat)
    requires Standing(n, was, now, k)
    ensures k < |now| && now[k].inum < |n|
  {}

  lemma StartLives(ic: Icache, cwd: nat, path: seq<Byte>)
    requires ic.Good(0, 0) && cwd < |ic.slots| && ic.slots[cwd].ref > 0
    ensures var n, d := NodesOf(ic.fs.sb, ic.fs.View()), Start(path, ic.slots[cwd].inum);
            d < |n| && n[d].used && |n| < NONE && ic.slots[cwd].inum < |n| && ROOT_INODE < |n|
  {
    hide World, NodesOf, Linked;
    GoodFacts(ic, 0, 0);
  }

  lemma StartsAt(path: seq<Byte>, cwd: nat)
    ensures [SLASH] <= path ==> Start(path, cwd) == ROOT_INODE && Components(path) == Components(path[1..])
    ensures !([SLASH] <= path) ==> Start(path, cwd) == cwd
  {
    if [SLASH] <= path { assert [SLASH] + path[1..] == path; }
    StartIs(if [SLASH] <= path then path[1..] else path, cwd);
  }

  lemma WholePath(path: seq<Byte>)
    ensures path[0..] == path
  {}

  lemma ResolveNone(n: seq<Node>, d: nat)
    requires d < |n|
    ensures Resolve(n, d, []) == d
  {}

  lemma StarvedNone(n: seq<Node>, u: Usage, d: nat)
    requires d < |n|
    ensures !Starved(n, u, d, [])
  {}

  lemma StarvedHead(n: seq<Node>, u: Usage, d: nat, name: seq<Byte>, rest: seq<seq<Byte>>)
    requires d < |n|
    ensures var i := Step(n, d, name);
            Starved(n, u, d, [name] + rest) <==>
                i != NONE && i < |n| && (!Fits(Taking(u, d), i) || Starved(n, u, i, rest))
  {
    assert ([name] + rest)[1..] == rest;
  }

  lemma ResolveHead(n: seq<Node>, d: nat, name: seq<Byte>, rest: seq<seq<Byte>>)
    requires d < |n|
    ensures var i := Step(n, d, name);
            Resolve(n, d, [name] + rest) == if i == NONE || i >= |n| then NONE else Resolve(n, i, rest)
  {
    assert ([name] + rest)[1..] == rest;
  }
}
