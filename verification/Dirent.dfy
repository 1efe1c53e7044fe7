/** Directory contents as a list of 64-byte slots, and what that list means: a finite map from names to
    inode numbers (fs/dentry.c). */
module Dirent {
  import opened Memory
  import opened BlockDevice
  import opened FileData

  const NAME_LEN := 60
  const ENTRY := 64

  /** `strlen`, stopping at the end of the buffer. */
  function StrLen(s: seq<Byte>): (n: nat)
    ensures n <= |s| && (forall i :: 0 <= i < n ==> s[i] != 0) && (n < |s| ==> s[n] == 0)
  {
    if |s| == 0 || s[0] == 0 then 0 else 1 + StrLen(s[1..])
  }

  /** The C string in a buffer. */
  function CStr(s: seq<Byte>): seq<Byte> { s[..StrLen(s)] }

  /** A name buffer of a caller: 60 bytes with a terminating NUL among them. */
  predicate IsName(s: seq<Byte>) { |s| == NAME_LEN && StrLen(s) < NAME_LEN }

  lemma Differ(a: seq<Byte>, b: seq<Byte>, i: nat)
    requires i < |a| && i < |b| && a[i] != b[i] && forall j :: 0 <= j < i ==> a[j] != 0 && b[j] != 0
    ensures CStr(a) != CStr(b)
  {
    assert |CStr(a)| == StrLen(a) && |CStr(b)| == StrLen(b);
    if i < StrLen(a) && i < StrLen(b) { assert CStr(a)[i] == a[i] && CStr(b)[i] == b[i]; }
  }

  /** `strncmp(a, b, 60) == 0` */
  method SameName(a: seq<Byte>, b: seq<Byte>) returns (same: bool)
    requires |a| == NAME_LEN && |b| == NAME_LEN
    ensures same <==> CStr(a) == CStr(b)
  {
    var i := 0;
    while i < NAME_LEN
      invariant 0 <= i <= NAME_LEN
      invariant forall j :: 0 <= j < i ==> a[j] == b[j] && a[j] != 0
    {
      if a[i] != b[i] {
        Differ(a, b, i);
        return false;
      }
      if a[i] == 0 {
        assert StrLen(a) == i == StrLen(b);
        return true;
      }
      i := i + 1;
    }
    assert StrLen(a) == NAME_LEN == StrLen(b);
    return true;
  }

  /** A directory slot; a free one has the empty name. */
  datatype Slot = Slot(name: seq<Byte>, inum: Word)

  /** The 64 bytes of an entry: a copy of 59 bytes of `name`, a NUL, and the inode number. */
  function Encode(name: seq<Byte>, inum: Word): (e: seq<Byte>)
    requires |name| == NAME_LEN
    ensures |e| == ENTRY
  {
    name[..NAME_LEN - 1] + [0, inum % 0x100, inum / 0x100 % 0x100, inum / 0x1_0000 % 0x100, inum / 0x100_0000]
  }

  function Decode64(e: seq<Byte>): Slot
    requires |e| == ENTRY
  {
    Slot(CStr(e[..NAME_LEN]), LittleEndian(e[60], e[61], e[62], e[63]))
  }

  /** Whatever follows the NUL of the caller's buffer does not matter. */
  lemma EncodeDecode(name: seq<Byte>, inum: Word)
    requires IsName(name)
    ensures Decode64(Encode(name, inum)) == Slot(CStr(name), inum)
    // struct dentry: the name from byte 0 on, the inode number at byte 60, low byte first
    ensures var e := Encode(name, inum);
            && CStr(name) + [0] <= e
            && inum % 0x1_0000 == e[60] + 0x100 * (e[61] as int) && inum / 0x1_0000 == e[62] + 0x100 * (e[63] as int)
  {
    WordBytes(inum);
    var copy := Encode(name, inum)[..NAME_LEN];
    var n := StrLen(name);
    assert forall i :: 0 <= i < n ==> copy[i] == name[i];
    assert copy[n] == 0;
    assert StrLen(copy) == n;
  }

  lemma DecodeZeros()
    ensures Decode64(Zeros(ENTRY)) == Slot([], 0)
  {}

  function SlotBytes(c: seq<Byte>, k: nat): (e: seq<Byte>)
    requires (k + 1) * ENTRY <= |c|
    ensures |e| == ENTRY
  {
    c[k * ENTRY..(k + 1) * ENTRY]
  }

  function Slots(c: seq<Byte>): (s: seq<Slot>)
    ensures |s| == |c| / ENTRY
  {
    seq(|c| / ENTRY, k requires 0 <= k < |c| / ENTRY => Decode64(SlotBytes(c, k)))
  }

  /** Writing 64 bytes at a slot boundary, up to and including the end, replaces or appends one slot. */
  lemma SplicedSlots(c: seq<Byte>, k: nat, e: seq<Byte>)
    requires |c| % ENTRY == 0 && k <= |c| / ENTRY && |e| == ENTRY
    ensures var d := Splice(c, k * ENTRY, e);
            && |d| == (if k < |c| / ENTRY then |c| else |c| + ENTRY)
            && Slots(d) == PutSlot(Slots(c), k, Decode64(e))
  {
    var d := Splice(c, k * ENTRY, e);
    assert |d| == if k < |c| / ENTRY then |c| else |c| + ENTRY;
    forall j: nat | j < |d| / ENTRY
      ensures SlotBytes(d, j) == if j == k then e else SlotBytes(c, j)
    {
      if j < k { assert (j + 1) * ENTRY <= k * ENTRY; }
      if j > k { assert (k + 1) * ENTRY <= j * ENTRY; }
    }
  }

  function PutSlot(s: seq<Slot>, k: nat, e: Slot): seq<Slot>
    requires k <= |s|
  {
    if k < |s| then s[k := e] else s + [e]
  }

  predicate UniqueNames(s: seq<Slot>) {
    forall i, j :: 0 <= i < j < |s| && s[i].name != [] ==> s[i].name != s[j].name
  }

  /** What a directory with these contents is. */
  predicate IsDirectory(c: seq<Byte>) { |c| % ENTRY == 0 && UniqueNames(Slots(c)) }

  /** The map a slot list stands for. */
  function Names(s: seq<Slot>): map<seq<Byte>, Word> {
    if |s| == 0 then map[]
    else Insert(Names(s[..|s| - 1]), s[|s| - 1].name, s[|s| - 1].inum)
  }

  function Insert(m: map<seq<Byte>, Word>, name: seq<Byte>, inum: Word): map<seq<Byte>, Word> {
    if name == [] then m else m[name := inum]
  }

  /** Some slot carries the name `n`. */
  predicate Carries(s: seq<Slot>, n: seq<Byte>) { n != [] && exists k :: 0 <= k < |s| && s[k].name == n }

  /** `m` maps the names in the slots, and no others, to their inode numbers. */
  ghost predicate Means(s: seq<Slot>, m: map<seq<Byte>, Word>) {
    && (forall n {:trigger n in m} :: n in m ==> Carries(s, n))
    && (forall k {:trigger s[k]} :: 0 <= k < |s| && s[k].name != [] ==> s[k].name in m && m[s[k].name] == s[k].inum)
  }

  lemma {:induction false} NamesOf(s: seq<Slot>)
    requires UniqueNames(s)
    ensures Means(s, Names(s))
  {
    if |s| > 0 {
      var t := s[..|s| - 1];
      NamesOf(t);
      forall n | n in Names(s) ensures Carries(s, n) {
        if s[|s| - 1].name != n {
          var k :| 0 <= k < |t| && t[k].name == n;
          assert s[k].name == n;
        }
      }
      forall k | 0 <= k < |s| && s[k].name != []
        ensures s[k].name in Names(s) && Names(s)[s[k].name] == s[k].inum
      {
        if k < |t| { assert t[k] == s[k]; }
      }
    }
  }

  lemma MeansOne(s: seq<Slot>, m: map<seq<Byte>, Word>)
    requires UniqueNames(s) && Means(s, m)
    ensures Names(s) == m
  {
    NamesOf(s);
    hide Names, UniqueNames;
    forall n ensures n in m <==> n in Names(s) {}
    forall n | n in m ensures m[n] == Names(s)[n] {
      var k :| 0 <= k < |s| && s[k].name == n;
    }
  }

  /** A new name in a free slot, or at the end, is one insertion into the map. */
  lemma NameAdded(s: seq<Slot>, k: nat, e: Slot)
    requires UniqueNames(s) && k <= |s| && (k < |s| ==> s[k].name == []) && e.name !in Names(s)
    ensures UniqueNames(PutSlot(s, k, e)) && Names(PutSlot(s, k, e)) == Insert(Names(s), e.name, e.inum)
  {
    hide Names, Carries, UniqueNames, PutSlot;
    NamesOf(s);
    PutUnique(s, k, e);
    forall n | n in Insert(Names(s), e.name, e.inum) ensures Carries(PutSlot(s, k, e), n) {
      PutCarries(s, k, e, n);
    }
    PutMeans(s, k, e, Names(s));
    MeansOne(PutSlot(s, k, e), Insert(Names(s), e.name, e.inum));
  }

  lemma PutUnique(s: seq<Slot>, k: nat, e: Slot)
    requires UniqueNames(s) && Means(s, Names(s)) && k <= |s| && (k < |s| ==> s[k].name == []) && e.name !in Names(s)
    ensures UniqueNames(PutSlot(s, k, e))
  {
    hide Names, Carries;
    var t := PutSlot(s, k, e);
    forall i, j | 0 <= i < j < |t| && t[i].name != [] ensures t[i].name != t[j].name {
      if i == k {
        assert t[j] == s[j];
        assert s[j].name != [] ==> s[j].name in Names(s);
      } else {
        assert t[i] == s[i] && s[i].name in Names(s);
        if j != k { assert t[j] == s[j]; }
      }
    }
  }

  lemma PutMeans(s: seq<Slot>, k: nat, e: Slot, m: map<seq<Byte>, Word>)
    requires Means(s, m) && k <= |s| && e.name !in m
    ensures var t := PutSlot(s, k, e);
            forall i {:trigger t[i]} :: 0 <= i < |t| && t[i].name != [] ==>
              t[i].name in Insert(m, e.name, e.inum) && Insert(m, e.name, e.inum)[t[i].name] == t[i].inum
  {
    var t := PutSlot(s, k, e);
    hide Carries;
    forall i | 0 <= i < |t| && t[i].name != []
      ensures t[i].name in Insert(m, e.name, e.inum) && Insert(m, e.name, e.inum)[t[i].name] == t[i].inum
    {
      if i != k { assert t[i] == s[i]; }
    }
  }

  lemma PutCarries(s: seq<Slot>, k: nat, e: Slot, n: seq<Byte>)
    requires k <= |s| && (k < |s| ==> s[k].name == [])
    ensures Carries(PutSlot(s, k, e), n) == (Carries(s, n) || (n == e.name && n != []))
  {
    var t := PutSlot(s, k, e);
    if Carries(s, n) {
      var i :| 0 <= i < |s| && s[i].name == n;
      assert t[i].name == n;
    }
    if n == e.name { assert t[k].name == n; }
  }

  /** Clearing a slot removes its name and no other. */
  lemma NameRemoved(s: seq<Slot>, k: nat, e: Slot)
    requires UniqueNames(s) && k < |s| && e.name == [] && s[k].name != []
    ensures UniqueNames(s[k := e]) && s[k].name in Names(s) && Names(s)[s[k].name] == s[k].inum
    ensures Names(s[k := e]) == Names(s) - {s[k].name}
  {
    hide Names, Carries;
    var t := s[k := e];
    NamesOf(s);
    forall n | n in Names(s) && n != s[k].name ensures Carries(t, n) {
      assert Carries(s, n);
      OtherCarries(s, k, e, n);
    }
    forall i | 0 <= i < |t| && t[i].name != []
      ensures t[i].name in Names(s) - {s[k].name} && Names(s)[t[i].name] == t[i].inum
    {
      assert t[i] == s[i];
    }
    MeansOne(t, Names(s) - {s[k].name});
  }

  lemma OtherCarries(s: seq<Slot>, k: nat, e: Slot, n: seq<Byte>)
    requires k < |s| && Carries(s, n) && n != s[k].name
    ensures Carries(s[k := e], n)
  {
    var i :| 0 <= i < |s| && s[i].name == n;
    assert s[k := e][i].name == n;
  }

  /** The first `k` slots do not hold the name `n`. */
  predicate Missed(s: seq<Slot>, k: nat, n: seq<Byte>) {
    k <= |s| && forall j {:trigger s[j]} :: 0 <= j < k ==> s[j].name == [] || s[j].name != n
  }

  lemma NotFound(s: seq<Slot>, n: seq<Byte>)
    requires UniqueNames(s) && Missed(s, |s|, n)
    ensures n !in Names(s)
  {
    NamesOf(s);
    hide Names, UniqueNames;
    assert n in Names(s) ==> Carries(s, n);
  }

  lemma Found(s: seq<Slot>, k: nat)
    requires UniqueNames(s) && k < |s| && s[k].name != []
    ensures s[k].name in Names(s) && Names(s)[s[k].name] == s[k].inum
  {
    NamesOf(s);
  }

  lemma MissedNone(s: seq<Slot>, n: seq<Byte>)
    ensures Missed(s, 0, n)
  {}

  lemma MissedNext(s: seq<Slot>, k: nat, n: seq<Byte>)
    requires Missed(s, k, n) && k < |s| && (s[k].name == [] || s[k].name != n)
    ensures Missed(s, k + 1, n)
  {}

  /** `f` is the first free slot among the first `k`, or `k` if there is none. */
  predicate FirstFreeIn(s: seq<Slot>, k: nat, f: nat) {
    f <= k <= |s| && (f < k ==> s[f].name == []) && forall j {:trigger s[j]} :: 0 <= j < f ==> s[j].name != []
  }

  lemma FreeNone(s: seq<Slot>)
    ensures FirstFreeIn(s, 0, 0)
  {}

  lemma FreeNext(s: seq<Slot>, k: nat, f: nat)
    requires k < |s| && FirstFreeIn(s, k, f)
    ensures s[k].name == [] || f < k ==> FirstFreeIn(s, k + 1, f)
    ensures s[k].name != [] && f == k ==> FirstFreeIn(s, k + 1, k + 1)
  {}

  lemma FirstFreeIs(s: seq<Slot>, f: nat)
    requires FirstFreeIn(s, |s|, f)
    ensures f == FirstFree(s)
  {
    var g := FirstFree(s);
    assert forall j :: 0 <= j < f ==> s[j].name != [];
  }

  /** The first free slot, or the end of the list. */
  function FirstFree(s: seq<Slot>): (k: nat)
    ensures k <= |s| && (k < |s| ==> s[k].name == []) && forall j :: 0 <= j < k ==> s[j].name != []
  {
    if |s| == 0 || s[0].name == [] then 0 else 1 + FirstFree(s[1..])
  }

  /** No 64-byte entry straddles a block, so a write of one that ends at a block boundary wrote nothing. */
  lemma NoStraddle(off: nat, n: nat)
    requires off % ENTRY == 0 && 0 < n < ENTRY
    ensures off / BLOCK_SIZE == (off + ENTRY - 1) / BLOCK_SIZE && (off + n) % BLOCK_SIZE != 0
  {
    var k := off / ENTRY;
    var b, r := k / 64, k % 64;
    assert k == 64 * b + r;
    assert off == BLOCK_SIZE * b + ENTRY * r;
    InBlock(b, ENTRY * r);
    InBlock(b, ENTRY * r + n);
    InBlock(b, ENTRY * r + ENTRY - 1);
  }

  lemma InBlock(b: nat, r: nat)
    requires r < BLOCK_SIZE
    ensures (BLOCK_SIZE * b + r) / BLOCK_SIZE == b && (BLOCK_SIZE * b + r) % BLOCK_SIZE == r
  {}
}
