/** Path strings (fs/dentry.c, get_element): a path is the list of its components. */
module PathName {
  import opened Memory
  import opened BlockDevice
  import opened Dirent

  const SLASH: Byte := '/' as int

  function SkipSlashes(p: seq<Byte>): (q: seq<Byte>)
    ensures |q| <= |p| && (q == [] || q[0] != SLASH)
  {
    if |p| > 0 && p[0] == SLASH then SkipSlashes(p[1..]) else p
  }

  /** Bytes up to the next slash or the end. */
  function ElementLen(p: seq<Byte>): (n: nat)
    ensures n <= |p| && (n < |p| ==> p[n] == SLASH) && forall i :: 0 <= i < n ==> p[i] != SLASH
  {
    if |p| == 0 || p[0] == SLASH then 0 else 1 + ElementLen(p[1..])
  }

  /** Names have at most 59 bytes; the rest of a longer component is ignored. */
  function Cut(s: seq<Byte>): seq<Byte> { if |s| >= NAME_LEN then s[..NAME_LEN - 1] else s }

  function Components(p: seq<Byte>): seq<seq<Byte>>
    decreases |p|
  {
    var q := SkipSlashes(p);
    if q == [] then []
    else
      var n := ElementLen(q);
      [Cut(q[..n])] + Components(q[n..])
  }

  lemma SlashFirst(p: seq<Byte>)
    requires |p| > 0 && p[0] == SLASH
    ensures Components(p) == Components(p[1..])
  {
    assert SkipSlashes(p) == SkipSlashes(p[1..]);
    if SkipSlashes(p) != [] {}
  }

  lemma {:induction false} ElementLenIs(p: seq<Byte>, n: nat)
    requires n <= |p| && (n < |p| ==> p[n] == SLASH) && forall i :: 0 <= i < n ==> p[i] != SLASH
    ensures ElementLen(p) == n
  {
    var m := ElementLen(p);
    assert forall i :: 0 <= i < m ==> p[i] != SLASH;
  }

  /** A string without a slash is one component, of its first 59 bytes. */
  lemma OneComponent(w: seq<Byte>)
    requires w != [] && SLASH !in w
    ensures Components(w) == [w[..if |w| < 59 then |w| else 59]]
    ensures |w| < NAME_LEN ==> Components(w) == [w]
  {
    hide Components, ElementLen, SkipSlashes;
    ElementLenIs(w, |w|);
    NoComponents();
    ComponentsOne(w);
    assert w[..|w|] == w && w[|w|..] == [];
  }

  lemma NoComponents()
    ensures Components([]) == []
  {}

  lemma ComponentsOne(p: seq<Byte>)
    requires p != [] && p[0] != SLASH
    ensures Components(p) == [Cut(p[..ElementLen(p)])] + Components(p[ElementLen(p)..])
  {}

  /** A slash separates, and does nothing else. */
  lemma {:induction false} Joined(a: seq<Byte>, b: seq<Byte>)
    ensures Components(a + [SLASH] + b) == Components(a) + Components(b)
    decreases |a|
  {
    var p := a + [SLASH] + b;
    if a == [] {
      SlashFirst(p);
      assert p[1..] == b;
    } else if a[0] == SLASH {
      SlashFirst(p);
      SlashFirst(a);
      assert p[1..] == a[1..] + [SLASH] + b;
      Joined(a[1..], b);
    } else {
      var n := ElementLen(a);
      assert p[..n] == a[..n];
      ElementLenIs(p, n);
      assert p[n..] == a[n..] + [SLASH] + b;
      Joined(a[n..], b);
    }
  }

  /** Repeated, leading and trailing slashes do not matter. */
  lemma SlashesCollapse(a: seq<Byte>, b: seq<Byte>)
    ensures Components(a + [SLASH, SLASH] + b) == Components(a + [SLASH] + b)
    ensures Components(a + [SLASH]) == Components(a) && Components([SLASH] + b) == Components(b)
  {
    assert a + [SLASH, SLASH] + b == (a + [SLASH]) + [SLASH] + b;
    Joined(a + [SLASH], b);
    Joined(a, []);
    assert a + [SLASH] + [] == a + [SLASH];
    Joined(a, b);
    SlashFirst([SLASH] + b);
  }

  /** get_element: copy the next component of `path`, a string starting at `pos`, into `name`. */
  method GetElement(path: seq<Byte>, pos: nat, name: array<Byte>) returns (next: nat, found: bool)
    requires pos <= |path| && 0 !in path && name.Length == NAME_LEN
    modifies name
    ensures pos <= next <= |path| && (found <==> Components(path[pos..]) != [])
    ensures found ==>
      && pos < next && IsName(name[..]) && CStr(name[..]) != []
      && Components(path[pos..]) == [CStr(name[..])] + Components(path[next..])
    ensures !found ==> name[..] == old(name[..])
  {
    hide Components, ElementLen, SkipSlashes, Cut, StrLen, IsName, CStr;
    var p := SkipFrom(path, pos);
    ComponentsSkip(path[pos..]);
    if p == |path| { return p, false; }
    var s := p;
    FirstPlain(path, pos, s);
    while p < |path| && path[p] != SLASH
      invariant s <= p <= |path| && forall i :: s <= i < p ==> path[i] != SLASH
    {
      p := p + 1;
    }
    ElementIs(path, s, p);
    CopyElement(path, s, p, name);
    next := SkipFrom(path, p);
    ComponentsSkip(path[p..]);
    return next, true;
  }

  lemma FirstPlain(path: seq<Byte>, pos: nat, s: nat)
    requires pos <= s < |path| && path[s..] == SkipSlashes(path[pos..])
    ensures path[s] != SLASH
  {
    assert path[s..][0] == path[s];
  }

  lemma ElementIs(path: seq<Byte>, s: nat, p: nat)
    requires s < p <= |path| && (p < |path| ==> path[p] == SLASH) && forall i :: s <= i < p ==> path[i] != SLASH
    ensures Components(path[s..]) == [Cut(path[s..p])] + Components(path[p..])
  {
    var q := path[s..];
    assert forall i :: 0 <= i < p - s ==> q[i] == path[s + i];
    ElementLenIs(q, p - s);
    assert q[..p - s] == path[s..p] && q[p - s..] == path[p..];
    assert q[0] != SLASH;
  }

  /** `memmove(name, s, len); name[len] = 0` */
  method CopyElement(path: seq<Byte>, s: nat, p: nat, name: array<Byte>)
    requires s < p <= |path| && 0 !in path && name.Length == NAME_LEN
    modifies name
    ensures IsName(name[..]) && CStr(name[..]) == Cut(path[s..p]) && CStr(name[..]) != []
  {
    hide StrLen, IsName, CStr;
    var len := p - s;
    if len >= NAME_LEN { len := NAME_LEN - 1; }
    forall i | 0 <= i < len { name[i] := path[s + i]; }
    name[len] := 0;
    var e := path[s..s + len];
    assert forall i :: 0 <= i < len ==> e[i] == path[s + i];
    assert name[..len] == e;
    assert name[..][..len] == e;
    NameIs(name[..], e);
    assert Cut(path[s..p]) == e;
  }

  lemma NameIs(name: seq<Byte>, e: seq<Byte>)
    requires |name| == NAME_LEN && |e| < NAME_LEN && name[..|e|] == e && name[|e|] == 0 && 0 !in e
    ensures IsName(name) && CStr(name) == e
  {
    assert forall i :: 0 <= i < |e| ==> name[i] == e[i];
    assert forall i :: 0 <= i < |e| ==> e[i] in e;
  }

  method SkipFrom(path: seq<Byte>, pos: nat) returns (p: nat)
    requires pos <= |path|
    ensures pos <= p <= |path| && path[p..] == SkipSlashes(path[pos..])
  {
    p := pos;
    while p < |path| && path[p] == SLASH
      invariant pos <= p <= |path| && SkipSlashes(path[p..]) == SkipSlashes(path[pos..])
    {
      assert path[p..][1..] == path[p + 1..];
      p := p + 1;
    }
  }

  lemma ComponentsSkip(p: seq<Byte>)
    ensures Components(SkipSlashes(p)) == Components(p)
    ensures SkipSlashes(p) == [] <==> Components(p) == []
  {
    var q := SkipSlashes(p);
    assert SkipSlashes(q) == q;
  }

  /** strcpy from one name buffer to another. */
  method StrCpy(dst: array<Byte>, src: array<Byte>)
    requires dst != src && dst.Length == NAME_LEN && IsName(src[..])
    modifies dst
    ensures IsName(dst[..]) && CStr(dst[..]) == CStr(src[..])
  {
    ghost var n := StrLen(src[..]);
    var i := 0;
    while src[i] != 0
      invariant 0 <= i <= n && forall j :: 0 <= j < i ==> dst[j] == src[j]
      decreases n - i
    {
      dst[i] := src[i];
      i := i + 1;
    }
    dst[i] := 0;
    assert i == n;
    NameIs(dst[..], CStr(src[..]));
  }
}
