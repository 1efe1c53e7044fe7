/** Console input (lib/console.c): a ring with three running indices is a queue of committed bytes
    followed by a line that can still be edited. */
module Console {
  import opened Memory
  import opened BlockDevice

  const SIZE := 128
  const NEWLINE: Byte := '\n' as int
  const RETURN: Byte := '\r' as int
  const CTRL_U: Byte := 'U' as int - '@' as int
  const CTRL_H: Byte := 'H' as int - '@' as int
  const DELETE: Byte := 0x7F
  /** Indices are ints: below this they do not wrap. */
  const LIMIT := 0x7FFF_FFFF

  /** What readers may take, and what the user may still change. */
  datatype Input = Input(queue: seq<Byte>, line: seq<Byte>)
  {
    /** The ring holds both; a line has no newline in it, and a full ring is committed. */
    predicate Fits() {
      && |queue| + |line| <= SIZE && NEWLINE !in line
      && (|queue| + |line| == SIZE ==> line == [])
    }
  }

  /** The effect of one key. */
  function Press(s: Input, c: Byte): Input {
    if c == CTRL_U then s.(line := [])
    else if c == CTRL_H || c == DELETE then s.(line := if s.line == [] then [] else s.line[..|s.line| - 1])
    else if c == 0 || |s.queue| + |s.line| >= SIZE then s
    else
      var line := s.line + [if c == RETURN then NEWLINE else c];
      if line[|s.line|] == NEWLINE || |s.queue| + |line| == SIZE then Input(s.queue + line, []) else s.(line := line)
  }

  const ERASED := 0x100

  /** What the screen shows for one key: every character taken back is struck out. */
  function Echo(s: Input, c: Byte): seq<nat> {
    if c == CTRL_U then seq(|s.line|, _ => ERASED)
    else if c == CTRL_H || c == DELETE then if s.line == [] then [] else [ERASED]
    else if c == 0 || |s.queue| + |s.line| >= SIZE then []
    else [if c == RETURN then NEWLINE else c]
  }

  lemma PressFits(s: Input, c: Byte)
    requires s.Fits()
    ensures Press(s, c).Fits() && s.queue <= Press(s, c).queue
  {}

  /** Key 0 does nothing, and neither does any key when the ring is full: a full ring is committed. */
  lemma Ignored(s: Input, c: Byte)
    requires s.Fits() && (c == 0 || |s.queue| + |s.line| == SIZE)
    ensures Press(s, c) == s && Echo(s, c) == []
  {}

  /** A key that commits anything commits the whole line: it ends the line, or fills the ring. */
  lemma CommitsLine(s: Input, c: Byte)
    requires s.Fits() && Press(s, c).queue != s.queue
    ensures var t := Press(s, c);
            t.line == [] && (t.queue[|t.queue| - 1] == NEWLINE || |t.queue| == SIZE)
    ensures |Press(s, c).queue| == |s.queue| + |s.line| + 1
  {}

  /** The screen after some output: BACKSPACE takes the last character back. */
  function Show(screen: seq<nat>, out: seq<nat>): seq<nat>
    decreases |out|
  {
    if out == [] then screen
    else if out[0] != ERASED then Show(screen + [out[0]], out[1..])
    else Show(if screen == [] then [] else screen[..|screen| - 1], out[1..])
  }

  lemma {:induction false} ShowErased(screen: seq<nat>, n: nat)
    requires n <= |screen|
    ensures Show(screen, seq(n, _ => ERASED)) == screen[..|screen| - n]
    decreases n
  {
    if n > 0 {
      assert seq(n, _ => ERASED)[1..] == seq(n - 1, _ => ERASED);
      ShowErased(screen[..|screen| - 1], n - 1);
    }
  }

  /** What a key leaves on the screen is what it leaves to be read: a character that is struck out leaves the line, and
      one that leaves the line is struck out. */
  lemma ShowsTaken(s: Input, c: Byte)
    requires s.Fits()
    ensures Show(s.queue + s.line, Echo(s, c)) == Press(s, c).queue + Press(s, c).line
  {
    var all := s.queue + s.line;
    var shown := Echo(s, c);
    if c == CTRL_U {
      ShowErased(all, |s.line|);
      assert all[..|s.queue|] == s.queue + [];
    } else if |shown| == 1 {
      assert shown[1..] == [];
    }
  }

  function PressAll(s: Input, keys: seq<Byte>): Input
    decreases |keys|
  {
    if keys == [] then s else PressAll(Press(s, keys[0]), keys[1..])
  }

  /** Whatever is typed, committed bytes stay committed. */
  lemma {:induction false} CommittedStays(s: Input, keys: seq<Byte>)
    requires s.Fits()
    ensures PressAll(s, keys).Fits() && s.queue <= PressAll(s, keys).queue
    decreases |keys|
  {
    if keys != [] {
      PressFits(s, keys[0]);
      CommittedStays(Press(s, keys[0]), keys[1..]);
    }
  }

  /** A key that neither edits nor ends the line. */
  predicate Plain(c: Byte) { c != 0 && c != CTRL_U && c != CTRL_H && c != DELETE && c != RETURN && c != NEWLINE }

  /** Plain keys that fit are appended to the line. */
  lemma {:induction false} Typed(s: Input, w: seq<Byte>)
    requires s.Fits() && |s.queue| + |s.line| + |w| < SIZE && forall c :: c in w ==> Plain(c)
    ensures PressAll(s, w) == s.(line := s.line + w)
    decreases |w|
  {
    if w == [] {
      assert s.line + w == s.line;
    } else {
      var t := Press(s, w[0]);
      assert w[0] in w;
      assert t == s.(line := s.line + [w[0]]);
      assert forall c :: c in w[1..] ==> c in w;
      PressFits(s, w[0]);
      Typed(t, w[1..]);
      assert s.line + [w[0]] + w[1..] == s.line + w;
    }
  }

  /** What stands after typing `keys` on an empty line, read from the last key back: each erase takes the nearest
      character before it that is not taken yet, and Ctrl-U takes all of them.  `k` erases are still to be served. */
  function Kept(keys: seq<Byte>, k: nat): seq<Byte>
    decreases |keys|
  {
    if keys == [] then []
    else
      var before, c := keys[..|keys| - 1], keys[|keys| - 1];
      if c == CTRL_U then []
      else if c == CTRL_H || c == DELETE then Kept(before, k + 1)
      else if c == 0 then Kept(before, k)
      else if k > 0 then Kept(before, k - 1)
      else Kept(before, 0) + [c]
  }

  lemma {:induction false} KeptLess(keys: seq<Byte>, k: nat)
    ensures var w := Kept(keys, 0);
            Kept(keys, k) == w[..if k < |w| then |w| - k else 0]
    decreases |keys|
  {
    if keys != [] {
      var before, c := keys[..|keys| - 1], keys[|keys| - 1];
      if c == CTRL_H || c == DELETE {
        KeptLess(before, k + 1);
        KeptLess(before, 1);
      } else if c == 0 || k == 0 {
        KeptLess(before, k);
      } else {
        KeptLess(before, k - 1);
      }
    }
  }

  /** As long as the ring does not fill, the keys of a line leave what the erases among them leave. */
  lemma {:induction false} Editing(s: Input, keys: seq<Byte>)
    requires s.Fits() && s.line == [] && NEWLINE !in keys && RETURN !in keys
    requires forall i :: 0 <= i <= |keys| ==> |s.queue| + |Kept(keys[..i], 0)| < SIZE
    ensures PressAll(s, keys) == s.(line := Kept(keys, 0))
    decreases |keys|
  {
    if keys != [] {
      var before, c := keys[..|keys| - 1], keys[|keys| - 1];
      forall i | 0 <= i <= |before| ensures |s.queue| + |Kept(before[..i], 0)| < SIZE {
        assert before[..i] == keys[..i];
      }
      Editing(s, before);
      PressJoin(s, before, [c]);
      assert keys == before + [c];
      var t := PressAll(s, before);
      PressOne(t, c);
      assert keys[..|keys|] == keys;
      if c == CTRL_H || c == DELETE { KeptLess(before, 1); }
    }
  }

  /** A line that fits reaches the queue as it reads after all erases, newline included. */
  lemma LineCommitted(s: Input, keys: seq<Byte>, end: Byte)
    requires s.Fits() && s.line == [] && NEWLINE !in keys && RETURN !in keys && (end == NEWLINE || end == RETURN)
    requires forall i :: 0 <= i <= |keys| ==> |s.queue| + |Kept(keys[..i], 0)| < SIZE
    ensures PressAll(s, keys + [end]) == Input(s.queue + Kept(keys, 0) + [NEWLINE], [])
  {
    hide Kept, PressAll;
    var t := s.(line := Kept(keys, 0));
    Editing(s, keys);
    PressJoin(s, keys, [end]);
    PressOne(t, end);
    assert keys[..|keys|] == keys;
    assert s.queue + (t.line + [NEWLINE]) == s.queue + t.line + [NEWLINE];
  }

  /** A character and an erase right after it leave no trace, whatever is typed before and after. */
  lemma EraseCancels(s: Input, a: seq<Byte>, c: Byte, e: Byte, b: seq<Byte>)
    requires PressAll(s, a).Fits() && Plain(c) && (e == CTRL_H || e == DELETE)
    requires |PressAll(s, a).queue| + |PressAll(s, a).line| + 1 < SIZE
    ensures PressAll(s, a + [c, e] + b) == PressAll(s, a + b)
  {
    var t := PressAll(s, a);
    Typed(t, [c]);
    assert [c, e] == [c] + [e];
    PressJoin(t, [c], [e]);
    var u := PressAll(t, [c]);
    PressOne(u, e);
    assert u.line[..|u.line| - 1] == t.line;
    PressJoin(s, a, [c, e]);
    PressJoin(s, a + [c, e], b);
    PressJoin(s, a, b);
  }

  /** Erasing on an empty line changes nothing: what is committed cannot be taken back. */
  lemma EraseNothing(s: Input, e: Byte)
    requires s.line == [] && (e == CTRL_H || e == DELETE || e == CTRL_U)
    ensures Press(s, e) == s && Echo(s, e) == []
  {}

  lemma PressOne(s: Input, c: Byte)
    ensures PressAll(s, [c]) == Press(s, c)
  {
    assert [c][1..] == [];
  }

  lemma {:induction false} PressJoin(s: Input, a: seq<Byte>, b: seq<Byte>)
    ensures PressAll(s, a + b) == PressAll(PressAll(s, a), b)
    decreases |a|
  {
    if a == [] {
      assert a + b == b;
    } else {
      assert (a + b)[1..] == a[1..] + b;
      PressJoin(Press(s, a[0]), a[1..], b);
    }
  }

  /** The bytes of one uninterrupted stretch of cons_read: up to `len` of them, and none past a newline. */
  function Upto(q: seq<Byte>, len: nat): (n: nat)
    ensures n <= len && n <= |q|
  {
    if len == 0 || q == [] then 0 else if q[0] == NEWLINE then 1 else 1 + Upto(q[1..], len - 1)
  }

  /** Bytes [from, to) of the running index, oldest first. */
  function Window(ring: seq<Byte>, from: nat, to: nat): (s: seq<Byte>)
    requires |ring| == SIZE && from <= to
    ensures |s| == to - from
  {
    seq(to - from, k requires 0 <= k < to - from => ring[(from + k) % SIZE])
  }

  /** A byte stored at the end of the window touches no byte inside it. */
  lemma Stored(ring: seq<Byte>, from: nat, mid: nat, to: nat, c: Byte)
    requires |ring| == SIZE && from <= mid <= to < from + SIZE
    ensures var now := ring[to % SIZE := c];
            && Window(now, from, mid) == Window(ring, from, mid)
            && Window(now, mid, to + 1) == Window(ring, mid, to) + [c]
            && Window(now, from, to + 1) == Window(ring, from, mid) + Window(now, mid, to + 1)
  {
    var now := ring[to % SIZE := c];
    forall i: nat | from <= i < to ensures now[i % SIZE] == ring[i % SIZE] { Apart(i, to); }
  }

  lemma Apart(i: nat, j: nat)
    requires i < j < i + SIZE
    ensures i % SIZE != j % SIZE
  {}

  /** Moving the boundaries of windows. */
  lemma Shorter(ring: seq<Byte>, from: nat, to: nat)
    requires |ring| == SIZE && from < to
    ensures Window(ring, from, to - 1) == Window(ring, from, to)[..to - 1 - from]
    ensures Window(ring, from + 1, to) == Window(ring, from, to)[1..]
    ensures Window(ring, from, to)[0] == ring[from % SIZE]
    ensures Window(ring, from, to)[to - 1 - from] == ring[(to - 1) % SIZE]
  {
    assert from + (to - 1 - from) == to - 1;
    forall k | 0 <= k < to - 1 - from ensures Window(ring, from + 1, to)[k] == Window(ring, from, to)[1..][k] {
      assert from + 1 + k == from + (1 + k);
    }
  }

  lemma LastOfLine(ring: seq<Byte>, from: nat, to: nat)
    requires |ring| == SIZE && from <= to && NEWLINE !in Window(ring, from, to)
    ensures from < to ==> ring[(to - 1) % SIZE] != NEWLINE
  {
    if from < to {
      var w := Window(ring, from, to);
      assert w[to - 1 - from] in w;
    }
  }

  lemma UptoNext(q: seq<Byte>, len: nat)
    ensures Upto(q, len) == if len == 0 || q == [] then 0 else if q[0] == NEWLINE then 1 else 1 + Upto(q[1..], len - 1)
  {}

  /** A byte moves from the queue to the reader. */
  lemma UptoTaken(q: seq<Byte>, out: seq<Byte>, c: Byte, rest: seq<Byte>, len: nat)
    requires q == out + ([c] + rest) && |out| < len && Upto(q, len) == |out| + Upto([c] + rest, len - |out|)
    ensures q == out + [c] + rest
    ensures Upto(q, len) == |out| + 1 + if c == NEWLINE then 0 else Upto(rest, len - |out| - 1)
  {
    assert ([c] + rest)[1..] == rest;
  }

  class ConsoleRing {
    var buf: array<Byte>
    var readIdx: nat
    var writIdx: nat
    var editIdx: nat
    /** All bytes committed, and all bytes handed to readers, since boot. */
    ghost var committed: seq<Byte>
    ghost var delivered: seq<Byte>

    ghost predicate Valid()
      reads this, buf
    {
      && buf.Length == SIZE && readIdx <= writIdx <= editIdx <= readIdx + SIZE
      && State().Fits()
      && committed == delivered + State().queue
    }

    function State(): Input
      requires buf.Length == SIZE && readIdx <= writIdx <= editIdx
      reads this, buf
    {
      Input(Window(buf[..], readIdx, writIdx), Window(buf[..], writIdx, editIdx))
    }

    /** cons_init */
    constructor ()
      ensures Valid() && State() == Input([], []) && delivered == []
    {
      buf := new Byte[SIZE](_ => 0);
      readIdx, writIdx, editIdx := 0, 0, 0;
      committed, delivered := [], [];
    }

    /** Ctrl-U: erase backwards to the committed bytes. */
    method KillLine() returns (echo: seq<nat>)
      requires Valid()
      modifies this`editIdx
      ensures buf.Length == SIZE && readIdx <= writIdx <= editIdx <= readIdx + SIZE
      ensures State() == Press(old(State()), CTRL_U) && echo == Echo(old(State()), CTRL_U)
    {
      hide Window;
      echo := [];
      ghost var s0 := State();
      assert s0.line[..editIdx - writIdx] == s0.line;
      while editIdx != writIdx && buf[(editIdx - 1) % SIZE] != NEWLINE
        invariant writIdx <= editIdx <= old(editIdx)
        invariant State() == s0.(line := s0.line[..editIdx - writIdx])
        invariant echo == seq(old(editIdx) - editIdx, _ => ERASED)
        decreases editIdx
      {
        Shorter(buf[..], writIdx, editIdx);
        editIdx := editIdx - 1;
        echo := echo + [ERASED];
      }
      LastOfLine(buf[..], writIdx, editIdx);
    }

    /** A byte for the line: it is stored, and commits the line if it ends it or fills the ring. */
    method Accept(ch: Byte) returns (woken: bool)
      requires Valid() && editIdx < LIMIT && editIdx - readIdx < SIZE
      modifies this`writIdx, this`editIdx, buf
      ensures buf.Length == SIZE && readIdx <= writIdx <= editIdx <= readIdx + SIZE
      ensures var s, line := old(State()), old(State()).line + [ch];
              && woken == (ch == NEWLINE || |s.queue| + |line| == SIZE)
              && State() == if woken then Input(s.queue + line, []) else s.(line := line)
    {
      hide Window;
      woken := false;
      Stored(buf[..], readIdx, writIdx, editIdx, ch);
      buf[editIdx % SIZE] := ch;
      editIdx := editIdx + 1;
      if ch == NEWLINE || editIdx == readIdx + SIZE {
        writIdx := editIdx;
        woken := true;
      }
    }

    /** cons_edit: one key arrives.  `echo` is what goes to the screen, and `woken` says whether
        sleeping readers are woken. */
    method Edit(c: Byte) returns (echo: seq<nat>, woken: bool)
      requires Valid() && editIdx < LIMIT
      modifies this`writIdx, this`editIdx, this`committed, buf
      ensures Valid() && State() == Press(old(State()), c)
      ensures committed == old(committed) + State().queue[|old(State()).queue|..]
      ensures echo == Echo(old(State()), c)
      ensures woken <==> State().queue != old(State()).queue
    {
      hide Window;
      echo, woken := [], false;
      ghost var s0 := State();
      PressFits(s0, c);
      if c == CTRL_U {
        echo := KillLine();
      } else if c == CTRL_H || c == DELETE {
        if editIdx != writIdx {
          Shorter(buf[..], writIdx, editIdx);
          editIdx := editIdx - 1;
          echo := [ERASED];
        }
      } else if c != 0 && editIdx - readIdx < SIZE {
        var ch := if c == RETURN then NEWLINE else c;
        echo := [ch];
        woken := Accept(ch);
      }
      assert State() == Press(s0, c);
      committed := committed + State().queue[|s0.queue|..];
    }

    /** `c = cons.buf[cons.read_idx++ % CONSOLE_INPUT_BUF]` */
    method TakeByte() returns (c: Byte)
      requires Valid() && readIdx != writIdx
      modifies this`readIdx, this`delivered
      ensures Valid() && old(State()).queue == [c] + State().queue && State().line == old(State()).line
      ensures delivered == old(delivered) + [c]
    {
      hide Window;
      ghost var s := State();
      Shorter(buf[..], readIdx, writIdx);
      c := buf[readIdx % SIZE];
      readIdx := readIdx + 1;
      delivered := delivered + [c];
      assert s.queue == [c] + State().queue;
      assert delivered + State().queue == old(delivered) + s.queue;
    }

    /** cons_read, from a wake-up to its end or to the next sleep on an empty queue. */
    method Read(len: nat) returns (out: seq<Byte>, asleep: bool)
      requires Valid()
      modifies this`readIdx, this`delivered
      ensures Valid()
      ensures old(State()).queue == out + State().queue && State().line == old(State()).line
      ensures |out| == Upto(old(State()).queue, len)
      ensures |out| <= len && forall i :: 0 <= i < |out| - 1 ==> out[i] != NEWLINE
      ensures asleep <==> |out| < len && (out == [] || out[|out| - 1] != NEWLINE)
      ensures asleep ==> State().queue == []
      ensures delivered == old(delivered) + out
    {
      hide Window, Upto, Input.Fits;
      out, asleep := [], false;
      ghost var q := State().queue;
      while |out| < len
        invariant Valid() && q == out + State().queue && State().line == old(State()).line
        invariant delivered == old(delivered) + out
        invariant |out| <= len && forall i :: 0 <= i < |out| ==> out[i] != NEWLINE
        invariant Upto(q, len) == |out| + Upto(State().queue, len - |out|)
        decreases len - |out|
      {
        if readIdx == writIdx {
          UptoNext(State().queue, len - |out|);
          asleep := true;
          return;
        }
        var c := TakeByte();
        UptoTaken(q, out, c, State().queue, len);
        out := out + [c];
        if c == NEWLINE { return; }
      }
      UptoNext(State().queue, 0);
    }
  }
}
