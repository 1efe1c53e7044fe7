/** Where the pages of the two pools are: free, or owned by a cell of some page table. */
module PageAccounts {
  import opened RadixForest
  import opened PageTree

  function Elements(s: seq<nat>): set<nat> { set b | b in s }

  /** What a table does not own alone: the owners of the pages of every other table, and per pool the pages that are
      free or owned. Moving a page from a pool to the table, or back, leaves all of it as it was. */
  datatype Account = Account(others: map<nat, Pos>, kernel: set<nat>, user: set<nat>)

  ghost function Tables(owner: map<nat, Pos>): set<nat> {
    set b | b in owner && Level(RANK, owner[b]) > 0
  }

  ghost function Leaves(owner: map<nat, Pos>): set<nat> {
    set b | b in owner && Level(RANK, owner[b]) <= 0
  }

  ghost function AccountOf(root: nat, owner: map<nat, Pos>, kfree: seq<nat>, ufree: seq<nat>): Account {
    Account(WithoutRoot(owner, root), Elements(kfree) + Tables(owner), Elements(ufree) + Leaves(owner))
  }

  /** The same with the user pages `s` added. */
  function With(a: Account, s: set<nat>): Account { a.(user := a.user + s) }

  /** A table page moves from the head of the kernel pool to a cell of table `root`. */
  lemma TableTaken(root: nat, owner: map<nat, Pos>, b: nat, p: Pos, rest: seq<nat>, ufree: seq<nat>)
    requires b !in owner && Root(p) == root && Level(RANK, p) > 0
    ensures AccountOf(root, owner[b := p], rest, ufree) == AccountOf(root, owner, [b] + rest, ufree)
  {
    hide Level;
    var now := owner[b := p];
    assert WithoutRoot(now, root) == WithoutRoot(owner, root);
    forall c ensures c in Elements(rest) + Tables(now) <==> c in Elements([b] + rest) + Tables(owner) {
      assert c in [b] + rest <==> c == b || c in rest;
    }
    assert Leaves(now) == Leaves(owner);
  }

  /** A user frame has left its pool, for no table yet. */
  lemma FrameTaken(root: nat, owner: map<nat, Pos>, kfree: seq<nat>, b: nat, rest: seq<nat>)
    ensures With(AccountOf(root, owner, kfree, rest), {b}) == AccountOf(root, owner, kfree, [b] + rest)
  {
    hide Level, WithoutRoot, Tables, Leaves;
    forall c ensures c in Elements([b] + rest) <==> c in Elements(rest) + {b} {
      assert c in [b] + rest <==> c == b || c in rest;
    }
  }

  /** An empty cell of table `root` comes to own a frame. */
  lemma FrameOwned(root: nat, owner: map<nat, Pos>, kfree: seq<nat>, ufree: seq<nat>, p: Pos, now: nat, s: set<nat>)
    requires Root(p) == root && Level(RANK, p) == 0 && s == if now != 0 then {now} else {}
    requires 0 !in owner && (now != 0 && now in owner ==> owner[now] == p)
    ensures AccountOf(root, Reown(owner, p, 0, now), kfree, ufree) == With(AccountOf(root, owner, kfree, ufree), s)
  {
    hide Level;
    assert owner - {0} == owner;
    if now != 0 {
      var after := owner[now := p];
      assert Tables(after) == Tables(owner) && Leaves(after) == Leaves(owner) + {now};
    }
  }

  /** A frame moves from a cell of table `root` back to the user pool. */
  lemma FrameReturned(root: nat, owner: map<nat, Pos>, kfree: seq<nat>, ufree: seq<nat>, p: Pos, b: nat)
    requires b in owner && owner[b] == p && Root(p) == root && Level(RANK, p) == 0
    ensures AccountOf(root, Reown(owner, p, b, 0), kfree, [b] + ufree) == AccountOf(root, owner, kfree, ufree)
  {
    hide Level;
    var now := owner - {b};
    assert Reown(owner, p, b, 0) == now;
    assert WithoutRoot(now, root) == WithoutRoot(owner, root);
    assert Tables(now) == Tables(owner);
    forall c ensures c in Elements([b] + ufree) + Leaves(now) <==> c in Elements(ufree) + Leaves(owner) {
      assert c in [b] + ufree <==> c == b || c in ufree;
    }
  }
}
