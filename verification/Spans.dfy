/** Sorted runs of pages: what the region list of a process stands for (mem/uvm.c). */
module Spans {
  /** Pages `first` to `first + n`. */
  datatype Span = Span(first: nat, n: nat)

  function End(s: Span): nat { s.first + s.n }

  predicate Within(s: Span, v: nat) { s.first <= v < End(s) }

  /** Page `v` belongs to some run. */
  ghost predicate Covers(spans: seq<Span>, v: nat) {
    exists i :: 0 <= i < |spans| && Within(spans[i], v)
  }

  /** Runs are not empty, lie between pages `lo` and `hi`, and follow each other without overlap. */
  ghost predicate Sorted(spans: seq<Span>, lo: nat, hi: nat) {
    && (forall i {:trigger spans[i]} :: 0 <= i < |spans| ==>
        0 < spans[i].n && lo <= spans[i].first && End(spans[i]) <= hi)
    && (forall i, j {:trigger spans[i], spans[j]} :: 0 <= i < j < |spans| ==> End(spans[i]) <= spans[j].first)
  }

  /** Canonical form: in addition no two runs touch. */
  ghost predicate Canonical(spans: seq<Span>, lo: nat, hi: nat) {
    && Sorted(spans, lo, hi)
    && (forall i, j {:trigger spans[i], spans[j]} :: 0 <= i < j < |spans| ==> End(spans[i]) < spans[j].first)
  }

  /** No page of `n` pages from `v` on belongs to a run. */
  ghost predicate Free(spans: seq<Span>, v: nat, n: nat) {
    forall i {:trigger spans[i]} :: 0 <= i < |spans| ==> End(spans[i]) <= v || v + n <= spans[i].first
  }

  lemma FreeMeans(spans: seq<Span>, v: nat, n: nat)
    requires 0 < n && forall i :: 0 <= i < |spans| ==> 0 < spans[i].n
    ensures Free(spans, v, n) <==> forall w: nat :: v <= w < v + n ==> !Covers(spans, w)
  {
    if !Free(spans, v, n) {
      var i :| 0 <= i < |spans| && !(End(spans[i]) <= v || v + n <= spans[i].first);
      var w := if spans[i].first < v then v else spans[i].first;
      assert Within(spans[i], w) && Covers(spans, w);
    }
  }

  /** A set of pages has only one canonical form. */
  lemma {:induction false} CanonicalUnique(a: seq<Span>, b: seq<Span>, lo: nat, hi: nat)
    requires Canonical(a, lo, hi) && Canonical(b, lo, hi)
    requires forall v: nat :: Covers(a, v) <==> Covers(b, v)
    ensures a == b
  {
    if a == [] || b == [] {
      if a != [] { assert Covers(a, a[0].first) by { assert Within(a[0], a[0].first); } }
      if b != [] { assert Covers(b, b[0].first) by { assert Within(b[0], b[0].first); } }
    } else {
      hide Canonical, Covers;
      SameFirst(a, b, lo, hi);
      SameFirst(b, a, lo, hi);
      TailBehind(a, lo, hi);
      TailBehind(b, lo, hi);
      forall v: nat ensures Covers(a[1..], v) <==> Covers(b[1..], v) {
        CoversTail(a, v, lo, hi);
        CoversTail(b, v, lo, hi);
      }
      CanonicalUnique(a[1..], b[1..], lo, hi);
      assert a == [a[0]] + a[1..] && b == [b[0]] + b[1..];
    }
  }

  lemma CoversTail(a: seq<Span>, v: nat, lo: nat, hi: nat)
    requires Canonical(a, lo, hi) && a != []
    ensures Covers(a[1..], v) <==> Covers(a, v) && !Within(a[0], v)
  {
    if Covers(a[1..], v) {
      var i :| 0 <= i < |a[1..]| && Within(a[1..][i], v);
      assert Within(a[i + 1], v);
    }
    if Covers(a, v) && !Within(a[0], v) {
      var i :| 0 <= i < |a| && Within(a[i], v);
      assert Within(a[1..][i - 1], v);
    }
  }

  /** The page after the first run is free. */
  lemma CanonicalNext(a: seq<Span>, i: nat, lo: nat, hi: nat)
    requires Canonical(a, lo, hi) && i < |a|
    ensures !Within(a[i], End(a[0]))
  {}

  lemma SameFirst(a: seq<Span>, b: seq<Span>, lo: nat, hi: nat)
    requires Canonical(a, lo, hi) && Canonical(b, lo, hi) && a != [] && b != []
    requires forall v: nat :: Covers(a, v) <==> Covers(b, v)
    ensures a[0].first >= b[0].first
    ensures a[0].first == b[0].first ==> End(a[0]) >= End(b[0])
  {
    assert Within(a[0], a[0].first);
    assert Covers(b, a[0].first);
    if a[0].first == b[0].first && End(a[0]) < End(b[0]) {
      var v := End(a[0]);
      assert Within(b[0], v);
      assert Covers(a, v);
      var i :| 0 <= i < |a| && Within(a[i], v);
      CanonicalNext(a, i, lo, hi);
    }
  }

  // Adding a run

  /** The runs with `s` inserted at `i` and joined with the neighbours it touches. */
  function Added(spans: seq<Span>, i: nat, s: Span): seq<Span>
    requires i <= |spans|
  {
    JoinPrev(JoinNext(Inserted(spans, i, s), i), i)
  }

  function JoinNext(spans: seq<Span>, i: nat): (r: seq<Span>)
    requires i < |spans|
    ensures i < |r|
  {
    if i + 1 < |spans| && End(spans[i]) == spans[i + 1].first then Joined(spans, i) else spans
  }

  function JoinPrev(spans: seq<Span>, i: nat): seq<Span>
    requires i < |spans|
  {
    if 0 < i && End(spans[i - 1]) == spans[i].first then Joined(spans, i - 1) else spans
  }

  /** Runs `i` and `i + 1` as one. */
  function Joined(spans: seq<Span>, i: nat): (r: seq<Span>)
    requires i + 1 < |spans|
    ensures |r| == |spans| - 1
    ensures forall k {:trigger r[k]} :: 0 <= k < |r| ==> r[k] == if k < i then spans[k] else if k == i then
              Span(spans[i].first, spans[i].n + spans[i + 1].n) else spans[k + 1]
  {
    spans[..i] + [Span(spans[i].first, spans[i].n + spans[i + 1].n)] + spans[i + 2..]
  }

  /** Neighbours touch at most before or after run `i`. */
  ghost predicate Apart(spans: seq<Span>, i: nat, before: bool, after: bool) {
    forall j, k {:trigger spans[j], spans[k]} ::
        0 <= j < k < |spans| && !(before && k == i && j == i - 1) && !(after && j == i && k == i + 1) ==>
      End(spans[j]) < spans[k].first
  }

  lemma JoinedSorted(spans: seq<Span>, i: nat, lo: nat, hi: nat)
    requires Sorted(spans, lo, hi) && i + 1 < |spans| && End(spans[i]) == spans[i + 1].first
    ensures Sorted(Joined(spans, i), lo, hi)
  {
    var r := Joined(spans, i);
    forall j, k | 0 <= j < k < |r| ensures End(r[j]) <= r[k].first {
      var a, b := spans[if j < i then j else j + 1], spans[if k <= i then k else k + 1];
    }
  }

  lemma JoinedCovers(spans: seq<Span>, i: nat, v: nat)
    requires i + 1 < |spans| && End(spans[i]) == spans[i + 1].first
    ensures Covers(Joined(spans, i), v) <==> Covers(spans, v)
  {
    var r := Joined(spans, i);
    if Covers(r, v) {
      var k :| 0 <= k < |r| && Within(r[k], v);
      if k < i { assert Within(spans[k], v); } else if k > i { assert Within(spans[k + 1], v); }
      else { assert Within(spans[i], v) || Within(spans[i + 1], v); }
    }
    if Covers(spans, v) {
      var k :| 0 <= k < |spans| && Within(spans[k], v);
      if k <= i { assert Within(r[k], v); } else { assert Within(r[k - 1], v); }
    }
  }

  lemma JoinedKeeps(spans: seq<Span>, i: nat, lo: nat, hi: nat)
    requires Sorted(spans, lo, hi) && i + 1 < |spans| && End(spans[i]) == spans[i + 1].first
    ensures Sorted(Joined(spans, i), lo, hi)
    ensures forall v: nat :: Covers(Joined(spans, i), v) <==> Covers(spans, v)
  {
    JoinedSorted(spans, i, lo, hi);
    forall v: nat ensures Covers(Joined(spans, i), v) <==> Covers(spans, v) { JoinedCovers(spans, i, v); }
  }

  function Inserted(spans: seq<Span>, i: nat, s: Span): (r: seq<Span>)
    requires i <= |spans|
    ensures |r| == |spans| + 1 && r[i] == s
    ensures forall k {:trigger r[k]} :: 0 <= k < |r| ==>
              r[k] == if k < i then spans[k] else if k == i then s else spans[k - 1]
  {
    spans[..i] + [s] + spans[i..]
  }

  /** A free run fits between its neighbours. */
  ghost predicate Fits(spans: seq<Span>, i: nat, s: Span, lo: nat, hi: nat) {
    && i <= |spans| && 0 < s.n && lo <= s.first && End(s) <= hi
    && (forall k {:trigger spans[k]} :: 0 <= k < i ==> End(spans[k]) <= s.first)
    && (forall k {:trigger spans[k]} :: i <= k < |spans| ==> End(s) <= spans[k].first)
  }

  lemma FitsBetween(spans: seq<Span>, i: nat, s: Span, lo: nat, hi: nat)
    requires Canonical(spans, lo, hi) && i <= |spans| && 0 < s.n && lo <= s.first && End(s) <= hi
    requires 0 < i ==> End(spans[i - 1]) <= s.first
    requires i < |spans| ==> End(s) <= spans[i].first
    ensures Fits(spans, i, s, lo, hi)
  {}

  lemma InsertedSorted(spans: seq<Span>, i: nat, s: Span, lo: nat, hi: nat)
    requires Canonical(spans, lo, hi) && Fits(spans, i, s, lo, hi)
    ensures Sorted(Inserted(spans, i, s), lo, hi) && Apart(Inserted(spans, i, s), i, true, true)
  {
    var r := Inserted(spans, i, s);
    forall j, k | 0 <= j < k < |r|
      ensures End(r[j]) <= r[k].first
      ensures !(k == i && j == i - 1) && !(j == i && k == i + 1) ==> End(r[j]) < r[k].first
    {
      if j < i < k || j == i || k == i {
        if j == i && k > i + 1 { assert End(spans[i]) < spans[k - 1].first; }
        if k == i && j < i - 1 { assert End(spans[j]) < spans[i - 1].first; }
      } else {
        var a, b := spans[if j < i then j else j - 1], spans[if k < i then k else k - 1];
      }
    }
  }

  lemma InsertedCovers(spans: seq<Span>, i: nat, s: Span, v: nat)
    requires i <= |spans|
    ensures Covers(Inserted(spans, i, s), v) <==> Covers(spans, v) || Within(s, v)
  {
    var r := Inserted(spans, i, s);
    if Covers(r, v) {
      var k :| 0 <= k < |r| && Within(r[k], v);
      if k < i { assert Within(spans[k], v); } else if k > i { assert Within(spans[k - 1], v); }
    }
    if Covers(spans, v) {
      var k :| 0 <= k < |spans| && Within(spans[k], v);
      if k < i { assert Within(r[k], v); } else { assert Within(r[k + 1], v); }
    }
    if Within(s, v) { assert Within(r[i], v); }
  }

  /** uvm_mmap adds exactly the pages of the new run and keeps the canonical form. */
  lemma AddedKeeps(spans: seq<Span>, i: nat, s: Span, lo: nat, hi: nat)
    requires Canonical(spans, lo, hi) && Fits(spans, i, s, lo, hi)
    ensures Canonical(Added(spans, i, s), lo, hi)
    ensures forall v: nat :: Covers(Added(spans, i, s), v) <==> Covers(spans, v) || Within(s, v)
  {
    InsertedSorted(spans, i, s, lo, hi);
    forall v: nat
      ensures Covers(Inserted(spans, i, s), v) <==> Covers(spans, v) || Within(s, v)
    {
      InsertedCovers(spans, i, s, v);
    }
    hide Covers;
    var r := Inserted(spans, i, s);
    NextKeeps(r, i, lo, hi);
    PrevKeeps(JoinNext(r, i), i, lo, hi);
  }

  lemma NextKeeps(r: seq<Span>, i: nat, lo: nat, hi: nat)
    requires Sorted(r, lo, hi) && i < |r| && Apart(r, i, true, true)
    ensures Sorted(JoinNext(r, i), lo, hi) && Apart(JoinNext(r, i), i, true, false)
    ensures forall v: nat :: Covers(JoinNext(r, i), v) <==> Covers(r, v)
  {
    hide Covers;
    if i + 1 < |r| && End(r[i]) == r[i + 1].first { JoinedKeeps(r, i, lo, hi); }
  }

  lemma PrevKeeps(r: seq<Span>, i: nat, lo: nat, hi: nat)
    requires Sorted(r, lo, hi) && i < |r| && Apart(r, i, true, false)
    ensures Canonical(JoinPrev(r, i), lo, hi)
    ensures forall v: nat :: Covers(JoinPrev(r, i), v) <==> Covers(r, v)
  {
    hide Covers;
    if 0 < i && End(r[i - 1]) == r[i].first { JoinedKeeps(r, i - 1, lo, hi); }
  }

  // Cutting pages out

  /** Pages of the run lie on both sides of pages `lo` to `hi`. */
  predicate Splits(s: Span, lo: nat, hi: nat) { s.first < lo && hi < End(s) }

  /** What is left of a run when pages `lo` to `hi` are cut out. */
  function CutOne(s: Span, lo: nat, hi: nat): seq<Span> {
    if hi <= s.first || End(s) <= lo then [s]
    else if lo <= s.first && End(s) <= hi then []
    else if lo <= s.first then [Span(hi, End(s) - hi)]
    else if End(s) <= hi then [Span(s.first, lo - s.first)]
    else [Span(s.first, lo - s.first), Span(hi, End(s) - hi)]
  }

  /** The runs with pages `lo` to `hi` cut out. */
  function Cut(spans: seq<Span>, lo: nat, hi: nat): seq<Span> {
    if spans == [] then [] else CutOne(spans[0], lo, hi) + Cut(spans[1..], lo, hi)
  }

  lemma {:induction false} CutAppend(a: seq<Span>, s: Span, lo: nat, hi: nat)
    ensures Cut(a + [s], lo, hi) == Cut(a, lo, hi) + CutOne(s, lo, hi)
  {
    if a == [] {
      assert [s][1..] == [];
    } else {
      assert (a + [s])[1..] == a[1..] + [s];
      CutAppend(a[1..], s, lo, hi);
    }
  }

  /** Runs behind the range are not cut. */
  lemma {:induction false} CutBehind(spans: seq<Span>, lo: nat, hi: nat)
    requires forall i {:trigger spans[i]} :: 0 <= i < |spans| ==> hi <= spans[i].first
    ensures Cut(spans, lo, hi) == spans
  {
    if spans != [] { CutBehind(spans[1..], lo, hi); }
  }

  lemma {:induction false} CutTwo(a: seq<Span>, b: seq<Span>, lo: nat, hi: nat)
    ensures Cut(a + b, lo, hi) == Cut(a, lo, hi) + Cut(b, lo, hi)
    decreases |b|
  {
    if b == [] {
      assert a + b == a;
    } else {
      CutAppend(a, b[0], lo, hi);
      CutTwo(a + [b[0]], b[1..], lo, hi);
      assert a + [b[0]] + b[1..] == a + b;
      assert Cut(a, lo, hi) + CutOne(b[0], lo, hi) + Cut(b[1..], lo, hi) ==
          Cut(a, lo, hi) + (CutOne(b[0], lo, hi) + Cut(b[1..], lo, hi));
    }
  }

  /** uvm_munmap removes exactly the pages of its range. */
  lemma {:induction false} CutCovers(spans: seq<Span>, lo: nat, hi: nat, v: nat)
    requires lo < hi
    ensures Covers(Cut(spans, lo, hi), v) <==> Covers(spans, v) && !(lo <= v < hi)
  {
    if spans != [] {
      var s, t := spans[0], spans[1..];
      CutCovers(t, lo, hi, v);
      hide Covers, CutOne;
      CutOneCovers(s, lo, hi, v);
      CoversAppend(CutOne(s, lo, hi), Cut(t, lo, hi), v);
      CoversAppend([s], t, v);
      assert [s] + t == spans;
      CoversOne(s, v);
    }
  }

  lemma CutOneCovers(s: Span, lo: nat, hi: nat, v: nat)
    requires lo < hi
    ensures Covers(CutOne(s, lo, hi), v) <==> Within(s, v) && !(lo <= v < hi)
  {
    var r := CutOne(s, lo, hi);
    if Within(s, v) && !(lo <= v < hi) {
      assert Within(r[0], v) || (|r| == 2 && Within(r[1], v));
    }
  }

  /** uvm_munmap keeps the canonical form. */
  lemma {:induction false} CutKeeps(spans: seq<Span>, lo: nat, hi: nat, bot: nat, top: nat)
    requires Canonical(spans, bot, top) && lo < hi
    ensures Canonical(Cut(spans, lo, hi), bot, top)
    ensures spans != [] ==> Canonical(Cut(spans, lo, hi), spans[0].first, top)
  {
    if spans != [] {
      var s, t := spans[0], spans[1..];
      TailBehind(spans, bot, top);
      hide Canonical, CutOne;
      CutKeeps(t, lo, hi, bot, top);
      FirstBound(Cut(t, lo, hi), if t == [] then 0 else t[0].first, top);
      CutHead(s, lo, hi, bot, top);
      CanonicalAppend(CutOne(s, lo, hi), Cut(t, lo, hi), End(s), s.first, top);
      CanonicalAppend(CutOne(s, lo, hi), Cut(t, lo, hi), End(s), bot, top);
    }
  }

  lemma FirstBound(a: seq<Span>, lo: nat, hi: nat)
    ensures Canonical(a, lo, hi) && a != [] ==> lo <= a[0].first && Canonical(a, a[0].first, hi)
  {}

  lemma TailBehind(spans: seq<Span>, bot: nat, top: nat)
    requires Canonical(spans, bot, top) && spans != []
    ensures 0 < spans[0].n && bot <= spans[0].first && End(spans[0]) <= top
    ensures |spans| > 1 ==> End(spans[0]) < spans[1].first
    ensures Canonical(spans[1..], bot, top)
  {}

  lemma CoversOne(s: Span, v: nat)
    ensures Covers([s], v) <==> Within(s, v)
  {
    if Within(s, v) { assert Within([s][0], v); }
  }

  lemma CutHead(s: Span, lo: nat, hi: nat, bot: nat, top: nat)
    requires lo < hi && 0 < s.n && bot <= s.first && End(s) <= top
    ensures Canonical(CutOne(s, lo, hi), s.first, top) && Canonical(CutOne(s, lo, hi), bot, top)
    ensures forall i :: 0 <= i < |CutOne(s, lo, hi)| ==> End(CutOne(s, lo, hi)[i]) <= End(s)
  {}

  lemma CoversAppend(a: seq<Span>, b: seq<Span>, v: nat)
    ensures Covers(a + b, v) <==> Covers(a, v) || Covers(b, v)
  {
    if Covers(a, v) {
      var i :| 0 <= i < |a| && Within(a[i], v);
      assert Within((a + b)[i], v);
    }
    if Covers(b, v) {
      var i :| 0 <= i < |b| && Within(b[i], v);
      assert Within((a + b)[|a| + i], v);
    }
  }

  lemma CanonicalAppend(a: seq<Span>, b: seq<Span>, mid: nat, bot: nat, top: nat)
    requires Canonical(a, bot, top) && Canonical(b, bot, top)
    requires forall i :: 0 <= i < |a| ==> End(a[i]) <= mid
    requires b != [] ==> mid < b[0].first
    ensures Canonical(a + b, bot, top)
  {}
}
