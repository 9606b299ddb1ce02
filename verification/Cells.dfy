/** Edits as sets of cells (byte address, bit position), applied by XOR. */
module Cells {
  import opened Words
  import opened Frames

  datatype Cell = Cell(addr: nat, bit: nat)

  predicate InImage(s: Image, cs: set<Cell>) {
    forall c | c in cs :: c.addr < |s| && c.bit < 8
  }

  function FlipByte(v: Byte, cs: set<Cell>, a: nat): (r: Byte)
    ensures forall p :: 0 <= p < 8 ==> r[p] == (v[p] != (Cell(a, p) in cs))
  {
    seq(8, p requires 0 <= p < 8 => v[p] != (Cell(a, p) in cs))
  }

  /** The image with exactly the given cells flipped. */
  function XorCells(s: Image, cs: set<Cell>): (r: Image)
    ensures |r| == |s|
    ensures forall a :: 0 <= a < |s| ==> r[a] == FlipByte(s[a], cs, a)
  {
    seq(|s|, a requires 0 <= a < |s| => FlipByte(s[a], cs, a))
  }

  /** The cells where two images of one size differ. */
  function Diff(s: Image, t: Image): set<Cell>
    requires |s| == |t|
  {
    set a, p | 0 <= a < |s| && 0 <= p < 8 && s[a][p] != t[a][p] :: Cell(a, p)
  }

  function SymDiff(a: set<Cell>, b: set<Cell>): (r: set<Cell>)
    ensures forall c :: c in r <==> (c in a) != (c in b)
  {
    set c | c in a + b && (c in a) != (c in b)
  }

  lemma SymDiffAssoc(a: set<Cell>, b: set<Cell>, c: set<Cell>)
    ensures SymDiff(SymDiff(a, b), c) == SymDiff(a, SymDiff(b, c))
    ensures SymDiff(SymDiff(a, b), c) == SymDiff(SymDiff(a, c), b)
  {
  }

  lemma SymDiffUnit(a: set<Cell>)
    ensures SymDiff(a, {}) == a && SymDiff({}, a) == a && SymDiff(a, a) == {}
  {
  }

  lemma XorTwice(s: Image, a: set<Cell>, b: set<Cell>)
    ensures XorCells(XorCells(s, a), b) == XorCells(s, SymDiff(a, b))
  {
    forall i | 0 <= i < |s|
      ensures XorCells(XorCells(s, a), b)[i] == XorCells(s, SymDiff(a, b))[i]
    {
    }
  }

  lemma XorNone(s: Image)
    ensures XorCells(s, {}) == s
  {
    forall i | 0 <= i < |s| ensures XorCells(s, {})[i] == s[i] {
    }
  }

  /** A second application of the same cells undoes the first. */
  lemma XorInvolution(s: Image, cs: set<Cell>)
    ensures XorCells(XorCells(s, cs), cs) == s
  {
    XorTwice(s, cs, cs);
    assert SymDiff(cs, cs) == {};
    XorNone(s);
  }

  lemma XorDiff(s: Image, t: Image)
    requires |s| == |t|
    ensures XorCells(s, Diff(s, t)) == t
  {
    forall i | 0 <= i < |s| ensures XorCells(s, Diff(s, t))[i] == t[i] {
      forall p | 0 <= p < 8 ensures XorCells(s, Diff(s, t))[i][p] == t[i][p] {
      }
    }
  }

  /** The cells flipped are the difference made. */
  lemma DiffXor(s: Image, cs: set<Cell>)
    requires InImage(s, cs)
    ensures Diff(s, XorCells(s, cs)) == cs
  {
  }

  lemma XorBytes(s: Image, cs: set<Cell>, a: nat)
    requires a < |s| && forall p :: 0 <= p < 8 ==> Cell(a, p) !in cs
    ensures XorCells(s, cs)[a] == s[a]
  {
  }

  // ---- many edits, one after another ----

  /** The cells flipped an odd number of times by a list of edits. */
  function Fold<T>(f: T -> set<Cell>, xs: seq<T>): set<Cell> {
    if xs == [] then {} else SymDiff(Fold(f, xs[..|xs| - 1]), f(xs[|xs| - 1]))
  }

  lemma FoldSnoc<T>(f: T -> set<Cell>, xs: seq<T>, x: T)
    ensures Fold(f, xs + [x]) == SymDiff(Fold(f, xs), f(x))
  {
    assert (xs + [x])[..|xs|] == xs;
  }

  lemma {:induction false} FoldConcat<T>(f: T -> set<Cell>, xs: seq<T>, ys: seq<T>)
    ensures Fold(f, xs + ys) == SymDiff(Fold(f, xs), Fold(f, ys))
    decreases |ys|
  {
    if ys == [] {
      assert xs + ys == xs;
      SymDiffUnit(Fold(f, xs));
    } else {
      var init, y := ys[..|ys| - 1], ys[|ys| - 1];
      FoldConcat(f, xs, init);
      FoldConcatStep(f, xs, init, y);
      assert xs + ys == (xs + init) + [y] && ys == init + [y];
    }
  }

  lemma FoldConcatStep<T>(f: T -> set<Cell>, xs: seq<T>, init: seq<T>, y: T)
    requires Fold(f, xs + init) == SymDiff(Fold(f, xs), Fold(f, init))
    ensures Fold(f, (xs + init) + [y]) == SymDiff(Fold(f, xs), Fold(f, init + [y]))
  {
    FoldSnoc(f, xs + init, y);
    FoldSnoc(f, init, y);
    SymDiffAssoc(Fold(f, xs), Fold(f, init), f(y));
  }

  lemma FoldRemove<T>(f: T -> set<Cell>, front: seq<T>, x: T, back: seq<T>)
    ensures Fold(f, front + [x] + back) == SymDiff(Fold(f, front + back), f(x))
  {
    FoldSnoc(f, front, x);
    FoldConcat(f, front + [x], back);
    FoldConcat(f, front, back);
    SymDiffAssoc(Fold(f, front), f(x), Fold(f, back));
  }

  lemma SplitAt<T>(xs: seq<T>, x: T) returns (front: seq<T>, back: seq<T>)
    requires x in multiset(xs)
    ensures xs == front + [x] + back
    ensures multiset(front + back) == multiset(xs) - multiset{x}
  {
    var k :| 0 <= k < |xs| && xs[k] == x;
    front, back := xs[..k], xs[k + 1..];
    assert xs == front + [x] + back;
  }

  /** Only which edits there are matters, not their order. */
  lemma {:induction false} FoldPermuted<T>(f: T -> set<Cell>, xs: seq<T>, ys: seq<T>)
    requires multiset(xs) == multiset(ys)
    ensures Fold(f, xs) == Fold(f, ys)
    decreases |ys|
  {
    if ys == [] {
      assert |multiset(xs)| == 0;
    } else {
      var init, y := ys[..|ys| - 1], ys[|ys| - 1];
      assert ys == init + [y];
      assert multiset(init) == multiset(ys) - multiset{y};
      var front, back := SplitAt(xs, y);
      FoldPermuted(f, front + back, init);
      FoldRemove(f, front, y, back);
      FoldSnoc(f, init, y);
    }
  }

  /** `buf[a] ^= 1 << p` */
  method FlipCell(buf: array<Byte>, a: nat, p: nat)
    requires a < buf.Length && p < 8
    modifies buf
    ensures buf[..] == XorCells(old(buf[..]), {Cell(a, p)})
  {
    ghost var was := buf[..];
    buf[a] := Xor(buf[a], OneHot(8, p));
    forall i | 0 <= i < buf.Length ensures buf[i] == XorCells(was, {Cell(a, p)})[i] {
      if i != a {
        XorBytes(was, {Cell(a, p)}, i);
      }
    }
  }

  /** Adding a fresh cell to a set of flips. */
  lemma XorOneMore(s: Image, cs: set<Cell>, c: Cell)
    requires c !in cs
    ensures XorCells(XorCells(s, cs), {c}) == XorCells(s, cs + {c})
  {
    XorTwice(s, cs, {c});
    assert SymDiff(cs, {c}) == cs + {c};
  }

  /** `xor_apply`: the set is visited in some order, and the order does not matter. */
  method XorApply(rbf: Image, cells: set<Cell>) returns (recon: Image)
    requires InImage(rbf, cells)
    ensures recon == XorCells(rbf, cells)
  {
    var buf := new Byte[|rbf|](i requires 0 <= i < |rbf| => rbf[i]);
    assert buf[..] == rbf;
    XorNone(rbf);
    var rest := cells;
    assert cells - rest == {};
    while rest != {}
      invariant rest <= cells
      invariant buf[..] == XorCells(rbf, cells - rest)
    {
      var c :| c in rest;
      FlipCell(buf, c.addr, c.bit);
      XorOneMore(rbf, cells - rest, c);
      assert cells - (rest - {c}) == cells - rest + {c};
      rest := rest - {c};
    }
    assert cells - rest == cells;
    recon := buf[..];
  }

  /** Frames that an edit of these cells makes dirty. */
  function FramesOf(cs: set<Cell>): set<nat> {
    set c | c in cs && InCram(c.addr) :: FrameOf(c.addr)
  }

  /** Dirty repair after edits equals a full repair, wherever the edits landed. */
  lemma DirtyRepairIsFull(base: Image, cs: set<Cell>, d: set<nat>)
    requires Covers(base) && Consistent(base)
    requires FramesOf(cs) <= d
    ensures RepairSome(XorCells(base, cs), d) == Repair(XorCells(base, cs))
  {
    var s := XorCells(base, cs);
    assert forall c :: c in cs && InCram(c.addr) ==> FrameOf(c.addr) in FramesOf(cs);
    forall a | 0 <= a < |s| && InCram(a) && FrameOf(a) !in d ensures s[a] == base[a] {
      assert forall p :: Cell(a, p) !in cs;
      XorBytes(base, cs, a);
    }
    FastRefinesSlow(base, s, d);
  }

  /** Frames made dirty by a list of edits. */
  function FoldFrames<T>(f: T -> set<Cell>, xs: seq<T>): set<nat> {
    if xs == [] then {} else FoldFrames(f, xs[..|xs| - 1]) + FramesOf(f(xs[|xs| - 1]))
  }

  lemma {:induction false} FoldFramesCover<T>(f: T -> set<Cell>, xs: seq<T>)
    ensures FramesOf(Fold(f, xs)) <= FoldFrames(f, xs)
  {
    if xs != [] {
      FoldFramesCover(f, xs[..|xs| - 1]);
    }
  }

  lemma FoldFramesSnoc<T>(f: T -> set<Cell>, xs: seq<T>, x: T)
    ensures FoldFrames(f, xs + [x]) == FoldFrames(f, xs) + FramesOf(f(x))
  {
    assert (xs + [x])[..|xs|] == xs;
  }

  /** After any list of edits of a consistent image, repairing the dirty frames is a full repair. */
  lemma FastRefinesSlowAfter<T>(base: Image, f: T -> set<Cell>, xs: seq<T>)
    requires Covers(base) && Consistent(base)
    ensures var s := XorCells(base, Fold(f, xs)); RepairSome(s, FoldFrames(f, xs)) == Repair(s)
  {
    FoldFramesCover(f, xs);
    DirtyRepairIsFull(base, Fold(f, xs), FoldFrames(f, xs));
  }
}
